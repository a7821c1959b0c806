/** The upload policy of backend/multer.js: which files the image upload
    accepts, and the name a stored upload gets on disk. */
module Upload {
  import opened Text
  import opened PathPosix

  /** The extensions the filter allows, compared after lower-casing. */
  const AllowedExtensions: seq<string> := [".png", ".jpg", ".jpeg"]

  const ImageMimePrefix: string := "image/"

  /** The part of a multipart file the policy looks at. */
  datatype UploadedFile = UploadedFile(originalname: string, mimetype: string)

  /** `s` ends with `suffix` once its last |suffix| characters are
      lower-cased. */
  predicate EndsWithIgnoringCase(s: string, suffix: string)
  {
    |suffix| <= |s| && Lower(s[|s| - |suffix|..]) == suffix
  }

  /** The filter's decision, stated without `extname`: an image MIME type, and
      a file name whose last component ends, in any case, with an allowed
      extension that has at least one character in front of it. */
  ghost predicate AcceptableUpload(file: UploadedFile)
  {
    var seg := BaseName(file.originalname);
    && StartsWith(file.mimetype, ImageMimePrefix)
    && exists e :: e in AllowedExtensions && EndsWithIgnoringCase(seg, e) && |e| < |seg|
  }

  /** multer's `fileFilter`: accept only when the MIME type starts with
      "image/" and the lower-cased `extname` of the original name is one of
      the allowed extensions. */
  function FileFilter(file: UploadedFile): (accept: bool)
    ensures accept <==> AcceptableUpload(file)
  {
    var ext := ExtName(file.originalname);
    var accept := StartsWith(file.mimetype, ImageMimePrefix) && Lower(ext) in AllowedExtensions;
    FilterMatchesSuffixRule(file);
    accept
  }

  lemma LowerCharIsDot(c: char)
    ensures LowerChar(c) == '.' <==> c == '.'
  {
  }

  /** Each allowed extension is a '.' followed by dot-free characters. */
  lemma AllowedExtensionShape(e: string)
    requires e in AllowedExtensions
    ensures |e| >= 4 && e[0] == '.' && '.' !in e[1..]
  {
  }

  /** Lower-casing a string keeps the positions of its '.' characters. */
  lemma LowerKeepsDots(s: string)
    ensures |Lower(s)| == |s|
    ensures forall i :: 0 <= i < |s| ==> (Lower(s)[i] == '.' <==> s[i] == '.')
  {
    forall i | 0 <= i < |s| ensures Lower(s)[i] == '.' <==> s[i] == '.' {
      LowerCharIsDot(s[i]);
    }
  }

  lemma FilterMatchesSuffixRule(file: UploadedFile)
    ensures (StartsWith(file.mimetype, ImageMimePrefix) && Lower(ExtName(file.originalname)) in AllowedExtensions)
            <==> AcceptableUpload(file)
  {
    var seg := BaseName(file.originalname);
    var ext := ExtName(file.originalname);
    if Lower(ext) in AllowedExtensions {
      AllowedSuffixFromExtension(seg, ext);
    }
    if e :| e in AllowedExtensions && EndsWithIgnoringCase(seg, e) && |e| < |seg| {
      ExtensionFromAllowedSuffix(seg, ext, e);
    }
  }

  /** An allowed (lower-cased) extension is a case-insensitive suffix of the
      component it was taken from. */
  lemma AllowedSuffixFromExtension(seg: string, ext: string)
    requires |ext| <= |seg| && seg[|seg| - |ext|..] == ext
    requires ext != [] ==> |ext| < |seg|
    requires Lower(ext) in AllowedExtensions
    ensures EndsWithIgnoringCase(seg, Lower(ext)) && |Lower(ext)| < |seg|
  {
    AllowedExtensionShape(Lower(ext));
  }

  /** A component that ends, in any case, with an allowed extension has that
      extension as its `extname`, up to case. */
  lemma ExtensionFromAllowedSuffix(seg: string, ext: string, e: string)
    requires |ext| <= |seg| && seg[|seg| - |ext|..] == ext
    requires ext == [] || (ext[0] == '.' && '.' !in ext[1..])
    requires ext != [] <==> HasExtension(seg)
    requires e in AllowedExtensions && EndsWithIgnoringCase(seg, e) && |e| < |seg|
    ensures Lower(ext) == e
  {
    AllowedExtensionShape(e);
    var tail := seg[|seg| - |e|..];
    LowerKeepsDots(tail);
    assert tail[0] == '.' by {
      assert Lower(tail)[0] == e[0];
    }
    assert '.' !in tail[1..] by {
      forall i | 0 <= i < |tail| - 1 ensures tail[1..][i] != '.' {
        assert Lower(tail)[i + 1] == e[1..][i];
      }
    }
    assert HasExtension(seg) by {
      assert seg[|seg| - |e|] == tail[0];
    }
    DotSuffixUnique(seg, ext, tail);
  }

  /** multer's `filename` rule: `Date.now()` rendered in decimal, followed by
      the original name's extension exactly as written. */
  function StoredFilename(now: nat, originalname: string): (name: string)
    ensures var ext := ExtName(originalname);
      && |ext| < |name|
      && name[|name| - |ext|..] == ext
      && AllDigits(name[..|name| - |ext|])
      && DecimalValue(name[..|name| - |ext|]) == now
      && (name[0] != '0' || |name| - |ext| == 1)
    ensures ExtName(name) == ExtName(originalname)
    ensures PlainFileName(name)
  {
    var digits := NatToDecimal(now);
    var ext := ExtName(originalname);
    var name := digits + ext;
    assert name[..|digits|] == digits;
    assert name[|digits|..] == ext;
    assert '/' !in digits by {
      forall i | 0 <= i < |digits| ensures digits[i] != '/' {
        assert IsDigit(digits[i]);
      }
    }
    ExtNameAfterDigits(digits, ext);
    name
  }

  /** A digit string followed by an extension has that extension. */
  lemma ExtNameAfterDigits(digits: string, ext: string)
    requires |digits| >= 1 && AllDigits(digits)
    requires '/' !in ext
    requires ext == [] || (ext[0] == '.' && '.' !in ext[1..])
    ensures ExtName(digits + ext) == ext
  {
    var name := digits + ext;
    BaseNameAfterDigits(digits, ext);
    HasExtensionAfterDigits(digits, ext);
    assert name[|name| - |ext|..] == ext;
    ExtNameOfComponent(name, ext);
  }

  lemma BaseNameAfterDigits(digits: string, ext: string)
    requires |digits| >= 1 && AllDigits(digits)
    requires '/' !in ext
    ensures BaseName(digits + ext) == digits + ext
  {
    var name := digits + ext;
    DigitsAreNotSeparators(digits);
    assert '/' !in name;
    BaseNameAfterDirectory([], name);
    assert [] + name == name;
  }

  lemma HasExtensionAfterDigits(digits: string, ext: string)
    requires |digits| >= 1 && AllDigits(digits)
    requires ext == [] || ext[0] == '.'
    ensures ext == [] <==> !HasExtension(digits + ext)
  {
    var name := digits + ext;
    DigitsAreNotSeparators(digits);
    if ext == [] {
      assert name == digits;
      NoDotNoExtension(name);
    } else {
      ExtensionAfterDigits(digits, ext);
    }
  }

  /** The extension of a separator-free name, given the suffix it must be. */
  lemma ExtNameOfComponent(seg: string, ext: string)
    requires BaseName(seg) == seg
    requires |ext| <= |seg| && seg[|seg| - |ext|..] == ext
    requires ext == [] || (ext[0] == '.' && '.' !in ext[1..])
    requires ext == [] <==> !HasExtension(seg)
    ensures ExtName(seg) == ext
  {
    if ext != [] {
      DotSuffixUnique(seg, ExtName(seg), ext);
    }
  }

  lemma DigitsAreNotSeparators(digits: string)
    requires AllDigits(digits)
    ensures '/' !in digits && '.' !in digits
  {
    forall i | 0 <= i < |digits| ensures digits[i] != '/' && digits[i] != '.' {
      assert IsDigit(digits[i]);
    }
  }

  lemma NoDotNoExtension(seg: string)
    requires '.' !in seg
    ensures !HasExtension(seg)
  {
    forall d | 0 < d < |seg| ensures seg[d] != '.' {
      assert seg[d] in seg;
    }
  }

  lemma ExtensionAfterDigits(digits: string, ext: string)
    requires |digits| >= 1 && AllDigits(digits)
    requires ext != [] && ext[0] == '.'
    ensures HasExtension(digits + ext)
  {
    var name := digits + ext;
    assert name[|digits|] == '.';
    assert name != ".." by {
      assert IsDigit(name[0]);
    }
  }

  /** A name whose last component has no '.' at all is rejected, whatever
      its MIME type: its `extname` is "" and "" is not allowed. */
  lemma NoExtensionRejected(file: UploadedFile)
    requires '.' !in BaseName(file.originalname)
    ensures !FileFilter(file)
  {
    var seg := BaseName(file.originalname);
    forall e | e in AllowedExtensions && EndsWithIgnoringCase(seg, e)
      ensures seg[|seg| - |e|] == '.'
    {
      AllowedSuffixStartsWithDot(seg, e);
    }
  }

  lemma AllowedSuffixStartsWithDot(seg: string, e: string)
    requires e in AllowedExtensions && EndsWithIgnoringCase(seg, e)
    ensures |e| >= 1 && seg[|seg| - |e|] == '.'
  {
    AllowedExtensionShape(e);
    var tail := seg[|seg| - |e|..];
    LowerKeepsDots(tail);
    assert Lower(tail)[0] == '.';
  }

  /** A non-image MIME type is rejected whatever the name. */
  lemma NonImageMimeRejected(file: UploadedFile)
    requires !StartsWith(file.mimetype, ImageMimePrefix)
    ensures !FileFilter(file)
  {
  }
}

/** Worked instances of the upload policy. */
module UploadExamples {
  import opened Text
  import opened PathPosix
  import opened Upload

  /** The extension test ignores case: any plain name ending in ".JPG" with
      an image MIME type ("PHOTO.JPG" as "image/jpeg", say) is accepted. */
  lemma UpperCaseJpgAccepted(stem: string, mimetype: string)
    requires stem != [] && '/' !in stem
    requires StartsWith(mimetype, ImageMimePrefix)
    ensures FileFilter(UploadedFile(stem + ".JPG", mimetype))
  {
    UpperCaseJpgAcceptable(stem, mimetype);
  }

  lemma UpperCaseJpgAcceptable(stem: string, mimetype: string)
    requires stem != [] && '/' !in stem
    requires StartsWith(mimetype, ImageMimePrefix)
    ensures AcceptableUpload(UploadedFile(stem + ".JPG", mimetype))
  {
    BaseNameOfComponent(stem + ".JPG");
    UpperCaseJpgSuffix(stem);
    assert ".jpg" in AllowedExtensions;
  }

  lemma UpperCaseJpgSuffix(stem: string)
    ensures EndsWithIgnoringCase(stem + ".JPG", ".jpg")
  {
    var name := stem + ".JPG";
    assert name[|name| - 4..] == ".JPG";
    assert Lower(".JPG") == ".jpg";
  }

  /** An image MIME type is not enough: any name ending in ".gif" ("photo.gif"
      as "image/gif", say) is rejected. */
  lemma GifRejected(stem: string, mimetype: string)
    requires '/' !in stem
    ensures !FileFilter(UploadedFile(stem + ".gif", mimetype))
  {
    GifUnacceptable(stem, mimetype);
  }

  lemma GifUnacceptable(stem: string, mimetype: string)
    requires '/' !in stem
    ensures !AcceptableUpload(UploadedFile(stem + ".gif", mimetype))
  {
    BaseNameOfComponent(stem + ".gif");
    GifSuffixNotAllowed(stem);
  }

  lemma GifSuffixNotAllowed(stem: string)
    ensures forall e :: e in AllowedExtensions ==> !EndsWithIgnoringCase(stem + ".gif", e)
  {
    var name := stem + ".gif";
    assert name[|name| - 4..] == ".gif";
    assert Lower(".gif") == ".gif";
    assert !EndsWithIgnoringCase(name, ".jpeg") by {
      if |name| >= 5 {
        assert name[|name| - 5..][4] == 'f';
        assert Lower(name[|name| - 5..])[4] == 'f';
      }
    }
  }
}
