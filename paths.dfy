/**
  The string helpers the installer relies on: PHP's `trim` with a single
  character list, the basename and extension that `pathinfo` derives from a
  path, and the ASCII lower-casing of `strtolower`.
 */
module Paths {

  /** Every character of `s` is `c`. */
  predicate AllChar(s: string, c: char) {
    forall k :: 0 <= k < |s| ==> s[k] == c
  }

  /** `s` neither starts nor ends with `c`. */
  predicate NotBoundedBy(s: string, c: char) {
    s == [] || (s[0] != c && s[|s| - 1] != c)
  }

  /** PHP `rtrim(s, c)`: drop every trailing `c`. */
  function TrimRight(s: string, c: char): (r: string)
    ensures |r| <= |s| && r == s[..|r|]
    ensures AllChar(s[|r|..], c)
    ensures r == [] || r[|r| - 1] != c
  {
    if s == [] || s[|s| - 1] != c then s else TrimRight(s[..|s| - 1], c)
  }

  /** PHP `ltrim(s, c)`: drop every leading `c`. */
  function TrimLeft(s: string, c: char): (r: string)
    ensures |r| <= |s| && r == s[|s| - |r|..]
    ensures AllChar(s[..|s| - |r|], c)
    ensures r == [] || r[0] != c
  {
    if s == [] || s[0] != c then s else TrimLeft(s[1..], c)
  }

  /** PHP `trim(s, c)`: drop every leading and every trailing `c`. */
  function Trim(s: string, c: char): (r: string)
    ensures NotBoundedBy(r, c)
  {
    TrimLeft(TrimRight(s, c), c)
  }

  /** The part of `s` after its last `c` (all of `s` when it has no `c`). */
  function AfterLast(s: string, c: char): (r: string)
    ensures c !in r
    ensures |r| <= |s| && r == s[|s| - |r|..]
    ensures |r| < |s| ==> s[|s| - |r| - 1] == c
  {
    if s == [] || s[|s| - 1] == c then [] else AfterLast(s[..|s| - 1], c) + [s[|s| - 1]]
  }

  /**
    `pathinfo(p, PATHINFO_BASENAME)`: the last run of characters that are
    not `/`, so trailing slashes are ignored ("a/b/" gives "b").
   */
  function Basename(p: string): (r: string)
    ensures '/' !in r
  {
    AfterLast(TrimRight(p, '/'), '/')
  }

  /**
    `pathinfo(p, PATHINFO_EXTENSION)`: what follows the last `.` of the
    basename, or the empty string when the basename has no `.`.
   */
  function Extension(p: string): (r: string)
    ensures '.' !in r && '/' !in r
  {
    var b := Basename(p);
    if '.' in b then AfterLast(b, '.') else []
  }

  function LowerChar(ch: char): char {
    if 'A' <= ch <= 'Z' then (ch as int - 'A' as int + 'a' as int) as char else ch
  }

  /** `strtolower`: ASCII upper-case letters become lower case, all else is kept. */
  function ToLower(s: string): (r: string)
    ensures |r| == |s|
    ensures forall k :: 0 <= k < |s| ==> r[k] == LowerChar(s[k])
  {
    if s == [] then [] else [LowerChar(s[0])] + ToLower(s[1..])
  }

  // ---------------------------------------------------------------------
  // Properties
  // ---------------------------------------------------------------------

  /** Trim removes exactly the `c`s at both ends: it picks out the middle of `s`. */
  lemma TrimIsMiddle(s: string, c: char)
    ensures var r := Trim(s, c); var i := |TrimRight(s, c)| - |r|;
      0 <= i && i + |r| <= |s| && r == s[i..i + |r|]
      && AllChar(s[..i], c) && AllChar(s[i + |r|..], c)
  {
  }

  /** Trimming a string that is only `c`s gives the empty string. */
  lemma TrimRightAll(s: string, c: char)
    requires AllChar(s, c)
    ensures TrimRight(s, c) == []
  {
  }

  lemma {:induction false} TrimRightAppend(x: string, q: string, c: char)
    requires AllChar(q, c)
    requires x == [] || x[|x| - 1] != c
    ensures TrimRight(x + q, c) == x
  {
    if q == [] {
      assert x + q == x;
    } else {
      assert (x + q)[..|x + q| - 1] == x + q[..|q| - 1];
      assert AllChar(q[..|q| - 1], c);
      TrimRightAppend(x, q[..|q| - 1], c);
    }
  }

  lemma {:induction false} TrimLeftPrepend(p: string, x: string, c: char)
    requires AllChar(p, c)
    requires x == [] || x[0] != c
    ensures TrimLeft(p + x, c) == x
  {
    if p == [] {
      assert p + x == x;
    } else {
      assert (p + x)[1..] == p[1..] + x;
      TrimLeftPrepend(p[1..], x, c);
    }
  }

  /**
    The converse of TrimIsMiddle: whatever `c`s surround a middle part that
    neither starts nor ends with `c`, trimming gives back that middle part.
   */
  lemma TrimOf(p: string, m: string, q: string, c: char)
    requires AllChar(p, c) && AllChar(q, c) && NotBoundedBy(m, c)
    ensures Trim(p + m + q, c) == m
  {
    if m == [] {
      assert p + m + q == p + q;
      assert AllChar(p + q, c);
      TrimRightAll(p + q, c);
    } else {
      assert p + m + q == (p + m) + q;
      TrimRightAppend(p + m, q, c);
      TrimLeftPrepend(p, m, c);
    }
  }

  /** Appending text free of `c` extends what follows the last `c`. */
  lemma {:induction false} AfterLastAppend(x: string, y: string, c: char)
    requires c !in y
    ensures AfterLast(x + y, c) == AfterLast(x, c) + y
  {
    if y == [] {
      assert x + y == x;
    } else {
      var y' := y[..|y| - 1];
      assert (x + y)[..|x + y| - 1] == x + y';
      assert y == y' + [y[|y| - 1]];
      AfterLastAppend(x, y', c);
    }
  }

  /** A non-empty tail free of `/` ends the basename. */
  lemma BasenameOfTail(p: string, t: string)
    requires t != [] && '/' !in t
    ensures Basename(p + t) == AfterLast(p, '/') + t
  {
    var s := p + t;
    assert s[|s| - 1] == t[|t| - 1];
    assert TrimRight(s, '/') == s;
    AfterLastAppend(p, t, '/');
  }

  /**
    The extension is the text after the final dot only: for any path ending
    in `.e`, where `e` holds neither `.` nor `/`, the extension is `e`
    (so "x.tar.gz" has extension "gz").
   */
  lemma ExtensionOfSuffix(p: string, e: string)
    requires '.' !in e && '/' !in e
    ensures Extension(p + "." + e) == e
  {
    var s := p + "." + e;
    var tail := ['.'] + e;
    assert s == p + tail;
    BasenameOfTail(p, tail);
    DotExtension(AfterLast(p, '/'), e);
  }

  lemma DotExtension(a: string, e: string)
    requires '.' !in e
    ensures var b := a + (['.'] + e); '.' in b && AfterLast(b, '.') == e
  {
    var d := a + ['.'];
    assert a + (['.'] + e) == d + e;
    assert (d + e)[|d| - 1] == '.';
    AfterLastAppend(d, e, '.');
  }

  /** The basename of a path that ends in a segment without `/` is that segment. */
  lemma BasenameOfSegment(p: string, seg: string)
    requires seg != [] && '/' !in seg
    ensures Basename(p + "/" + seg) == seg
  {
    assert p + "/" + seg == (p + "/") + seg;
    BasenameOfTail(p + "/", seg);
  }

  /** Trailing `/`s do not change what is left after trimming the trailing `/`s. */
  lemma {:induction false} TrimRightTrailing(p: string, q: string, c: char)
    requires AllChar(q, c)
    ensures TrimRight(p + q, c) == TrimRight(p, c)
  {
    if q != [] {
      var q' := q[..|q| - 1];
      assert (p + q)[|p + q| - 1] == q[|q| - 1];
      assert (p + q)[..|p + q| - 1] == p + q';
      assert AllChar(q', c);
      assert TrimRight(p + q, c) == TrimRight(p + q', c);
      TrimRightTrailing(p, q', c);
    } else {
      assert p + q == p;
    }
  }

  /** Trailing slashes are ignored: "a/b/" has the basename "b". */
  lemma BasenameTrailing(p: string, q: string)
    requires AllChar(q, '/')
    ensures Basename(p + q) == Basename(p)
  {
    TrimRightTrailing(p, q, '/');
  }

  /** A basename without `.` has the empty extension. */
  lemma ExtensionNoDot(p: string)
    requires '.' !in Basename(p)
    ensures Extension(p) == []
  {
  }
}
