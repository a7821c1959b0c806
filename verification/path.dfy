/** The two POSIX path operations the backend relies on: `basename`, used to
    turn a stored image URL into a file name, and `extname`, used by the
    upload filter and the upload naming rule. Paths are strings and '/' is the
    only separator. */
module PathPosix {

  /** Index of the last occurrence of `c` in `s`, or -1 when there is none. */
  function LastIndexOf(s: string, c: char): (r: int)
    ensures -1 <= r < |s|
    ensures r >= 0 ==> s[r] == c
    ensures forall i :: r < i < |s| ==> s[i] != c
    decreases |s|
  {
    if s == [] then -1
    else if s[|s| - 1] == c then |s| - 1
    else LastIndexOf(s[..|s| - 1], c)
  }

  /** `p` without its run of trailing '/' characters. */
  function TrimTrailingSlashes(p: string): (t: string)
    ensures |t| <= |p| && t == p[..|t|]
    ensures forall i :: |t| <= i < |p| ==> p[i] == '/'
    ensures t == [] || t[|t| - 1] != '/'
    decreases |p|
  {
    if p != [] && p[|p| - 1] == '/' then TrimTrailingSlashes(p[..|p| - 1]) else p
  }

  /** `r` sits at index `k` of `p`, contains no '/', starts the string or
      follows a '/', and only '/' characters follow it: the last path
      component once trailing separators are ignored. */
  ghost predicate LastComponentAt(p: string, k: nat, r: string)
  {
    && k + |r| <= |p|
    && p[k..k + |r|] == r
    && (k == 0 || p[k - 1] == '/')
    && (forall i :: k + |r| <= i < |p| ==> p[i] == '/')
  }

  /** `path.basename(p)`: the last non-empty component, or "" when `p` holds
      nothing but separators. */
  function BaseName(p: string): (r: string)
    ensures '/' !in r
    ensures exists k: nat :: LastComponentAt(p, k, r)
    ensures r == [] <==> forall i :: 0 <= i < |p| ==> p[i] == '/'
  {
    var t := TrimTrailingSlashes(p);
    var k := LastIndexOf(t, '/') + 1;
    var r := t[k..];
    assert p[k..k + |r|] == r;
    assert LastComponentAt(p, k, r);
    r
  }

  /** The component has an extension: a '.' after its first character, and
      it is not the parent reference "..". */
  predicate HasExtension(seg: string)
  {
    && seg != ".."
    && exists d :: 0 < d < |seg| && seg[d] == '.'
  }

  /** `path.extname(p)`: from the last '.' of the last component to its end;
      "" when that component has no '.', starts with its only '.', or is "..". */
  function ExtName(p: string): (r: string)
    ensures '/' !in r
    ensures r == [] || (r[0] == '.' && '.' !in r[1..])
    ensures |r| <= |BaseName(p)| && BaseName(p)[|BaseName(p)| - |r|..] == r
    ensures r != [] <==> HasExtension(BaseName(p))
    ensures r != [] ==> |r| < |BaseName(p)|
  {
    var seg := BaseName(p);
    var d := LastIndexOf(seg, '.');
    if d <= 0 || seg == ".." then
      ""
    else
      var r := seg[d..];
      assert r[1..] == seg[d + 1..];
      assert '.' !in r[1..] by {
        forall i | 0 <= i < |r[1..]| ensures r[1..][i] != '.' {
          assert r[1..][i] == seg[d + 1 + i];
        }
      }
      r
  }

  /** A name that `path.join(dir, name)` resolves to an entry inside `dir`
      rather than to `dir` itself or its parent. */
  predicate PlainFileName(name: string)
  {
    name != "" && name != "." && name != ".." && '/' !in name
  }

  /** The base name of a directory prefix followed by a separator-free name
      is that name: the round trip from a stored file name to its URL and
      back. */
  lemma BaseNameAfterDirectory(dir: string, name: string)
    requires dir == [] || dir[|dir| - 1] == '/'
    requires name != [] && '/' !in name
    ensures BaseName(dir + name) == name
  {
    var p := dir + name;
    assert TrimTrailingSlashes(p) == p;
    LastIndexOfSkipsSuffix(dir, name, '/');
    assert p[|dir|..] == name;
  }

  /** A name without separators is its own base name. */
  lemma BaseNameOfComponent(name: string)
    requires name != [] && '/' !in name
    ensures BaseName(name) == name
  {
    assert name[|name| - 1] in name;
    assert TrimTrailingSlashes(name) == name;
    assert name[0..] == name;
  }

  /** Appending characters other than `c` leaves the last index of `c`
      where it was. */
  lemma {:induction false} LastIndexOfSkipsSuffix(s: string, t: string, c: char)
    requires c !in t
    ensures LastIndexOf(s + t, c) == LastIndexOf(s, c)
    decreases |t|
  {
    if t != [] {
      assert (s + t)[..|s + t| - 1] == s + t[..|t| - 1];
      assert t[|t| - 1] in t;
      LastIndexOfSkipsSuffix(s, t[..|t| - 1], c);
    } else {
      assert s + t == s;
    }
  }

  /** Two suffixes of one string that each start with the string's last '.'
      (a '.' with no '.' after it) are the same suffix. */
  lemma DotSuffixUnique(seg: string, a: string, b: string)
    requires |a| <= |seg| && seg[|seg| - |a|..] == a
    requires |b| <= |seg| && seg[|seg| - |b|..] == b
    requires a != [] && a[0] == '.' && '.' !in a[1..]
    requires b != [] && b[0] == '.' && '.' !in b[1..]
    ensures a == b
  {
  }
}
