/**
 `os.path.splitext` as the POSIX `posixpath` module computes it: the
 extension starts at the last `.` of the final path component, unless every
 character of that component before the dot is itself a dot (a hidden file
 such as `.bashrc` has no extension).
 */
module Paths {
  import opened Strings

  /** `s.rfind(c)`: the index of the last `c` in `s`, or -1. */
  function LastIndexOf(s: string, c: char): (r: int)
    ensures -1 <= r < |s|
    ensures r >= 0 ==> s[r] == c
    ensures forall k :: r < k < |s| ==> s[k] != c
  {
    if |s| == 0 then -1
    else if s[|s| - 1] == c then |s| - 1
    else LastIndexOf(s[..|s| - 1], c)
  }

  predicate AllDots(s: string) {
    forall k :: 0 <= k < |s| ==> s[k] == '.'
  }

  /** An extension as splitext returns it when there is one: a dot, then no further dot or slash. */
  predicate ValidExt(e: string) {
    |e| >= 1 && e[0] == '.' && '.' !in e[1..] && '/' !in e
  }

  /** `os.path.splitext(p)`, as the pair `(root, ext)`. */
  function SplitExt(p: string): (r: (string, string))
    ensures r.0 + r.1 == p
    ensures r.1 == [] || ValidExt(r.1)
  {
    var sep := LastIndexOf(p, '/');
    var dot := LastIndexOf(p, '.');
    if dot > sep && !AllDots(p[sep + 1..dot]) then
      assert '/' !in p[dot..] by {
        if sep >= 0 { assert p[dot..] == p[sep + 1..][dot - sep - 1..]; }
      }
      assert p[dot..][1..] == p[dot + 1..];
      (p[..dot], p[dot..])
    else
      (p, "")
  }

  /** The extension only, `os.path.splitext(p)[1]`. */
  function Ext(p: string): string {
    SplitExt(p).1
  }

  /** The final component of a path, what follows its last `/`. */
  function Basename(p: string): string {
    p[LastIndexOf(p, '/') + 1..]
  }

  /**
   An independent description of splitext: appending an extension-shaped
   suffix to a stem whose final component holds a character other than a dot
   is undone by splitext, which returns that stem and that suffix.
   */
  lemma SplitExtOfStemAndExt(stem: string, e: string)
    requires ValidExt(e)
    requires !AllDots(Basename(stem))
    ensures SplitExt(stem + e) == (stem, e)
  {
    var p := stem + e;
    var t := e[1..];
    assert p == stem + ['.'] + t by { assert e == ['.'] + t; }
    LastOccurrence(stem, t, '.');
    LastIndexOfIs(p, '.', |stem|);
    var sep := LastIndexOf(stem, '/');
    LastIndexOfAppend(stem, e, '/');
    assert p[sep + 1..|stem|] == Basename(stem);
    assert p[..|stem|] == stem && p[|stem|..] == e;
  }

  /**
   The converse: whenever splitext cuts an extension off, the root's final
   component holds a character other than a dot. So `.bashrc` or
   `temp/..mp4` keep their whole name as the root, and together with
   `SplitExtOfStemAndExt` this determines splitext completely.
   */
  lemma SplitExtRootNotHidden(p: string)
    ensures SplitExt(p).1 != [] ==> ValidExt(SplitExt(p).1) && !AllDots(Basename(SplitExt(p).0))
  {
    var sep := LastIndexOf(p, '/');
    var dot := LastIndexOf(p, '.');
    if dot > sep && !AllDots(p[sep + 1..dot]) {
      SplitExtAt(p, sep, dot);
      var root, e := p[..dot], p[dot..];
      assert root + e == p;
      LastIndexOfAppend(root, e, '/');
      assert Basename(root) == p[sep + 1..dot];
    }
  }

  /** The last occurrence is the one with no further occurrence after it. */
  /** An extension on its own has no `/`, and its only dot is its first character. */
  lemma CutsOfExt(e: string)
    requires ValidExt(e)
    ensures LastIndexOf(e, '/') == -1 && LastIndexOf(e, '.') == 0
  {
    LastIndexOfAppend([], e, '/');
    assert [] + e == e;
    forall k | 0 < k < |e| ensures e[k] != '.' {
      assert e[k] == e[1..][k - 1];
    }
    LastIndexOfIs(e, '.', 0);
  }

  lemma LastIndexOfIs(s: string, c: char, i: int)
    requires 0 <= i < |s| && s[i] == c
    requires forall k :: i < k < |s| ==> s[k] != c
    ensures LastIndexOf(s, c) == i
  {
  }

  /** Appending text without `c` leaves the last `c` where it was. */
  lemma LastIndexOfAppend(s: string, e: string, c: char)
    requires c !in e
    ensures LastIndexOf(s + e, c) == LastIndexOf(s, c)
  {
    var p := s + e;
    var r := LastIndexOf(s, c);
    forall k | r < k < |p| ensures p[k] != c {
      if k < |s| { assert p[k] == s[k]; }
      else { assert p[k] == e[k - |s|]; }
    }
    if r >= 0 {
      assert p[r] == s[r];
      LastIndexOfIs(p, c, r);
    } else {
      assert LastIndexOf(p, c) == -1;
    }
  }

  lemma {:induction false} LastIndexOfLower(s: string, c: char)
    requires c == '.' || c == '/'
    ensures LastIndexOf(Lower(s), c) == LastIndexOf(s, c)
  {
    if |s| > 0 {
      assert Lower(s)[..|s| - 1] == Lower(s[..|s| - 1]);
      LastIndexOfLower(s[..|s| - 1], c);
    }
  }

  /** Lower-casing a path lower-cases its splitext parts and moves no boundary. */
  lemma SplitExtLower(p: string)
    ensures SplitExt(Lower(p)) == (Lower(SplitExt(p).0), Lower(SplitExt(p).1))
  {
    LastIndexOfLower(p, '/');
    LastIndexOfLower(p, '.');
    var sep := LastIndexOf(p, '/');
    var dot := LastIndexOf(p, '.');
    if dot > sep {
      LowerSlice(p, sep + 1, dot);
      AllDotsLower(p[sep + 1..dot]);
    }
    if dot > sep && !AllDots(p[sep + 1..dot]) {
      SplitExtLowerCut(p, sep, dot);
    } else {
      assert Lower("") == "";
    }
  }

  lemma SplitExtLowerCut(p: string, sep: int, dot: int)
    requires sep == LastIndexOf(p, '/') == LastIndexOf(Lower(p), '/')
    requires dot == LastIndexOf(p, '.') == LastIndexOf(Lower(p), '.')
    requires dot > sep && !AllDots(p[sep + 1..dot]) && !AllDots(Lower(p)[sep + 1..dot])
    ensures SplitExt(p) == (p[..dot], p[dot..])
    ensures SplitExt(Lower(p)) == (Lower(p[..dot]), Lower(p[dot..]))
  {
    var q := Lower(p);
    SplitExtAt(p, sep, dot);
    SplitExtAt(q, sep, dot);
    LowerPrefixSuffix(p, dot);
  }

  /** Where splitext cuts when the last dot comes after the last slash and not only dots lie between. */
  lemma SplitExtAt(s: string, sep: int, dot: int)
    requires sep == LastIndexOf(s, '/') && dot == LastIndexOf(s, '.')
    requires dot > sep && !AllDots(s[sep + 1..dot])
    ensures SplitExt(s) == (s[..dot], s[dot..])
  {
  }

  lemma AllDotsLower(s: string)
    ensures AllDots(Lower(s)) <==> AllDots(s)
  {
  }
}
