/** The string helpers of the frontend (src/utils/helper.js): the email-shape
    check of the sign-up and login forms, the initials shown in the profile
    badge, and the empty-state message and picture of the story list. */
module Helper {
  import opened Optional
  import opened Text

  // ----- validateEmail -----

  /** The characters the regular-expression class `\s` matches: the
      ECMAScript white space and line terminator characters. */
  predicate IsSpace(c: char)
  {
    || c == ' ' || c == '\t' || c == '\n' || c == '\r'
    || c == '\U{0B}' || c == '\U{0C}' || c == '\U{A0}' || c == '\U{1680}'
    || ('\U{2000}' <= c <= '\U{200A}')
    || c == '\U{2028}' || c == '\U{2029}' || c == '\U{202F}' || c == '\U{205F}'
    || c == '\U{3000}' || c == '\U{FEFF}'
  }

  /** A character of the class `[^\s@]`. */
  predicate Plain(c: char)
  {
    !IsSpace(c) && c != '@'
  }

  /** The strings `^[^\s@]+@[^\s@]+\.[^\s@]+$` matches: a non-empty local
      part, one `@`, and a domain holding a `.` with at least one character
      on either side; apart from the `@`, no character is white space or
      `@`. `at` and `dot` are the positions of the `@` and of that `.`. */
  ghost predicate EmailShapeAt(email: string, at: int, dot: int)
  {
    && 0 < at && at + 1 < dot && dot + 1 < |email|
    && email[at] == '@' && email[dot] == '.'
    && forall k :: 0 <= k < |email| && k != at ==> Plain(email[k])
  }

  ghost predicate EmailShape(email: string)
  {
    exists at, dot :: EmailShapeAt(email, at, dot)
  }

  /** `validateEmail`: one left-to-right scan that remembers where the `@`
      was and whether a `.` has been seen that could end the domain's first
      part. */
  method ValidateEmail(email: string) returns (ok: bool)
    ensures ok <==> EmailShape(email)
  {
    var at := -1;   // the position of the `@`, if one was seen
    var dot := -1;  // a `.` after `at + 1` and before the last character
    var i := 0;
    while i < |email|
      invariant 0 <= i <= |email|
      invariant forall k :: 0 <= k < i ==> !IsSpace(email[k])
      invariant -1 <= at < i
      invariant at == -1 ==> forall k :: 0 <= k < i ==> email[k] != '@'
      invariant at >= 0 ==> email[at] == '@' && forall k :: 0 <= k < i && k != at ==> email[k] != '@'
      invariant dot >= 0 ==> 0 <= at && at + 1 < dot < i && dot + 1 < |email| && email[dot] == '.'
      invariant dot == -1 && at >= 0 ==>
        forall k :: at + 1 < k < i && k + 1 < |email| ==> email[k] != '.'
    {
      var c := email[i];
      if IsSpace(c) {
        NotPlainRejects(email, i);
        return false;
      }
      if c == '@' {
        if at >= 0 {
          TwoAtsReject(email, at, i);
          return false;
        }
        at := i;
      } else if c == '.' && at >= 0 && at + 1 < i && i + 1 < |email| {
        dot := i;
      }
      i := i + 1;
    }
    ok := at > 0 && dot >= 0;
    if ok {
      assert EmailShapeAt(email, at, dot);
    } else {
      ShapeNeedsScanResult(email, at, dot);
    }
  }

  /** A white-space character anywhere rules the shape out. */
  lemma NotPlainRejects(email: string, i: int)
    requires 0 <= i < |email| && IsSpace(email[i])
    ensures !EmailShape(email)
  {
    forall at, dot ensures !EmailShapeAt(email, at, dot) {
      if 0 <= at < |email| && email[at] == '@' {
        assert i != at;
      }
    }
  }

  /** Two `@` characters rule the shape out. */
  lemma TwoAtsReject(email: string, a: int, b: int)
    requires 0 <= a < b < |email| && email[a] == '@' && email[b] == '@'
    ensures !EmailShape(email)
  {
    forall at, dot ensures !EmailShapeAt(email, at, dot) {
      if at != a {
        assert !Plain(email[a]);
      } else {
        assert !Plain(email[b]);
      }
    }
  }

  /** When the scan ends without both witnesses, no match exists. */
  lemma ShapeNeedsScanResult(email: string, at: int, dot: int)
    requires -1 <= at < |email| && dot >= -1
    requires at == -1 ==> forall k :: 0 <= k < |email| ==> email[k] != '@'
    requires at >= 0 ==> email[at] == '@' && forall k :: 0 <= k < |email| && k != at ==> email[k] != '@'
    requires dot == -1 && at >= 0 ==>
      forall k :: at + 1 < k < |email| && k + 1 < |email| ==> email[k] != '.'
    requires !(at > 0 && dot >= 0)
    ensures !EmailShape(email)
  {
  }

  // ----- getInitials -----

  /** `s.split(sep)` for a one-character separator: the pieces between the
      separators, so one more piece than there are separators. */
  function Split(s: string, sep: char): (words: seq<string>)
    ensures |words| >= 1
    ensures forall w :: w in words ==> sep !in w
    ensures Join(words, sep) == s
    decreases |s|
  {
    match IndexOf(s, sep)
    case None => [s]
    case Some(i) =>
      var rest := Split(s[i + 1..], sep);
      assert s == s[..i] + [sep] + s[i + 1..];
      [s[..i]] + rest
  }

  /** The position of the first `c` in `s`. */
  function IndexOf(s: string, c: char): (r: Option<nat>)
    ensures r.None? <==> c !in s
    ensures r.Some? ==> r.value < |s| && s[r.value] == c && c !in s[..r.value]
    decreases |s|
  {
    if s == [] then None
    else if s[0] == c then Some(0)
    else
      match IndexOf(s[1..], c)
      case None => None
      case Some(i) =>
        assert s[..i + 1] == [s[0]] + s[1..][..i];
        Some(i + 1)
  }

  /** The pieces glued back together with `sep` between them: `join`. */
  function Join(words: seq<string>, sep: char): string
    requires |words| >= 1
    decreases |words|
  {
    if |words| == 1 then words[0] else words[0] + [sep] + Join(words[1..], sep)
  }

  /** Splitting undoes joining pieces that contain no separator. */
  lemma {:induction false} SplitInvertsJoin(words: seq<string>, sep: char)
    requires |words| >= 1
    requires forall w :: w in words ==> sep !in w
    ensures Split(Join(words, sep), sep) == words
    decreases |words|
  {
    if |words| == 1 {
      assert words == [words[0]];
    } else {
      assert words[0] in words;
      SplitAtFirst(words[0], sep, Join(words[1..], sep));
      SplitInvertsJoin(words[1..], sep);
      assert words == [words[0]] + words[1..];
    }
  }

  lemma IndexOfAfterPrefix(prefix: string, c: char, rest: string)
    requires c !in prefix
    ensures IndexOf(prefix + [c] + rest, c) == Some(|prefix|)
  {
    var s := prefix + [c] + rest;
    var r := IndexOf(s, c);
    assert s[|prefix|] == c;
    assert c in s;
    assert s[..|prefix|] == prefix;
  }

  /** `getInitials`: an absent or empty name gives `""`; otherwise the
      upper-cased first character of each of the first two space-separated
      words. `None` stands for the TypeError thrown when one of those words is
      empty (a leading or a doubled space), since `words[i][0]` is then
      `undefined`. */
  function GetInitials(name: Option<string>): (r: Option<string>)
    ensures name.None? || name == Some("") ==> r == Some("")
    ensures r.Some? ==> |r.value| <= 2
    ensures name.Some? && name.value != "" ==>
      var words := Split(name.value, ' ');
      var n := if |words| < 2 then |words| else 2;
      && (r.Some? <==> words[0] != "" && (|words| >= 2 ==> words[1] != ""))
      && (r.Some? ==> |r.value| == n && forall i :: 0 <= i < n ==> r.value[i] == UpperChar(words[i][0]))
  {
    if name.None? || name.value == "" then Some("")
    else
      var words := Split(name.value, ' ');
      if words[0] == "" then None
      else if |words| >= 2 && words[1] == "" then None
      else if |words| == 1 then Some([UpperChar(words[0][0])])
      else Some([UpperChar(words[0][0]), UpperChar(words[1][0])])
  }

  /** Splitting at a first separator that `first` does not contain. */
  lemma SplitAtFirst(first: string, sep: char, rest: string)
    requires sep !in first
    ensures Split(first + [sep] + rest, sep) == [first] + Split(rest, sep)
  {
    var s := first + [sep] + rest;
    IndexOfAfterPrefix(first, sep, rest);
    assert s[..|first|] == first;
    assert s[|first| + 1..] == rest;
  }

  /** A name without spaces gives its first character, upper-cased. */
  lemma InitialsOfOneWord(name: string)
    requires name != "" && ' ' !in name
    ensures GetInitials(Some(name)) == Some([UpperChar(name[0])])
  {
    assert Split(name, ' ') == [name];
  }

  /** A name of two or more words gives the initials of the first two. */
  lemma InitialsOfTwoWords(first: string, rest: string)
    requires first != "" && ' ' !in first
    requires rest != "" && rest[0] != ' '
    ensures GetInitials(Some(first + " " + rest)) == Some([UpperChar(first[0]), UpperChar(rest[0])])
  {
    SplitAtFirst(first, ' ', rest);
    var words := Split(rest, ' ');
    assert Join(words, ' ') == rest;
    JoinStartsWithFirst(words, ' ');
  }

  /** Joined pieces begin with the first piece. */
  lemma JoinStartsWithFirst(words: seq<string>, sep: char)
    requires |words| >= 1
    ensures |words[0]| <= |Join(words, sep)|
    ensures Join(words, sep)[..|words[0]|] == words[0]
  {
  }

  /** A leading space makes the first word empty, and the lookup throws. */
  lemma LeadingSpaceThrows(rest: string)
    ensures GetInitials(Some(" " + rest)) == None
  {
    SplitAtFirst("", ' ', rest);
    assert "" + [' '] + rest == " " + rest;
  }

  // ----- empty-state card -----

  const SearchEmptyMessage := "No search results found"
  const DateEmptyMessage := "No stories found for this date range"
  const DefaultEmptyMessage := "Start creating your first travel Story! Click the 'Add' button to jot down your thoughts, ideas, and memories. Let's get started!"

  /** The three pictures the empty state can show. */
  datatype CardImage = NoSearchDataImg | NoFilterDataImg | AddStoryImg

  /** `getEmptyCardMessage`. */
  function EmptyCardMessage(filterType: string): (m: string)
    ensures m == SearchEmptyMessage <==> filterType == "search"
    ensures m == DateEmptyMessage <==> filterType == "date"
    ensures m == DefaultEmptyMessage <==> filterType != "search" && filterType != "date"
  {
    match filterType
    case "search" => SearchEmptyMessage
    case "date" => DateEmptyMessage
    case _ => DefaultEmptyMessage
  }

  /** `getEmptyCardImg`. */
  function EmptyCardImg(filterType: string): (img: CardImage)
    ensures img == NoSearchDataImg <==> filterType == "search"
    ensures img == NoFilterDataImg <==> filterType == "date"
    ensures img == AddStoryImg <==> filterType != "search" && filterType != "date"
  {
    match filterType
    case "search" => NoSearchDataImg
    case "date" => NoFilterDataImg
    case _ => AddStoryImg
  }

  /** The message and the picture split the filter types the same way: two
      types get the same message exactly when they get the same picture. */
  lemma MessageAndImageAgree(a: string, b: string)
    ensures EmptyCardMessage(a) == EmptyCardMessage(b) <==> EmptyCardImg(a) == EmptyCardImg(b)
  {
  }
}
