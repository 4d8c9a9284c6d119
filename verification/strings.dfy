/**
 The handful of Python `str` operations the program relies on: `isspace`,
 `strip`, `lower` (as far as comparisons with ASCII literals can tell),
 the `in` substring test, `str(n)` for integers and `", ".join`.
 */
module Strings {
  import opened Seqs


  /** `c.isspace()` in Python 3. */
  predicate IsSpace(c: char) {
    || c == ' '
    || ('\t' <= c <= '\r')                     // \t \n \v \f \r
    || ('\U{1c}' <= c <= '\U{1f}')             // file, group, record, unit separators
    || c == '\U{85}' || c == '\U{a0}' || c == '\U{1680}'
    || ('\U{2000}' <= c <= '\U{200a}')
    || c == '\U{2028}' || c == '\U{2029}' || c == '\U{202f}'
    || c == '\U{205f}' || c == '\U{3000}'
  }

  predicate AllSpace(s: string) {
    forall k :: 0 <= k < |s| ==> IsSpace(s[k])
  }

  /** `s.lstrip()`: drops the leading whitespace and nothing else. */
  function LStrip(s: string): (r: string)
    ensures |r| <= |s| && r == s[|s| - |r|..]
    ensures r == [] || !IsSpace(r[0])
    ensures AllSpace(s[..|s| - |r|])
  {
    if |s| > 0 && IsSpace(s[0]) then
      var r := LStrip(s[1..]);
      LStripStep(s, r);
      r
    else s
  }

  /** Cutting one more leading whitespace character keeps the `LStrip` facts about the whole line. */
  lemma LStripStep(s: string, r: string)
    requires |s| > 0 && IsSpace(s[0])
    requires |r| <= |s| - 1 && r == s[1..][|s| - 1 - |r|..]
    requires AllSpace(s[1..][..|s| - 1 - |r|])
    ensures r == s[|s| - |r|..]
    ensures AllSpace(s[..|s| - |r|])
  {
    var t, lead := s[1..], s[..|s| - |r|];
    assert lead == [s[0]] + t[..|t| - |r|];
    forall k | 0 <= k < |lead|
      ensures IsSpace(lead[k])
    {
      if k > 0 {
        assert lead[k] == t[..|t| - |r|][k - 1];
      }
    }
  }

  /** `s.rstrip()`: drops the trailing whitespace and nothing else. */
  function RStrip(s: string): (r: string)
    ensures |r| <= |s| && r == s[..|r|]
    ensures r == [] || !IsSpace(r[|r| - 1])
    ensures AllSpace(s[|r|..])
  {
    if |s| > 0 && IsSpace(s[|s| - 1]) then
      var r := RStrip(s[..|s| - 1]);
      RStripStep(s, r);
      r
    else s
  }

  /** Cutting one more trailing whitespace character keeps the `RStrip` facts about the whole line. */
  lemma RStripStep(s: string, r: string)
    requires |s| > 0 && IsSpace(s[|s| - 1])
    requires |r| <= |s| - 1 && r == s[..|s| - 1][..|r|]
    requires AllSpace(s[..|s| - 1][|r|..])
    ensures r == s[..|r|]
    ensures AllSpace(s[|r|..])
  {
    var t := s[..|s| - 1];
    assert s[|r|..] == t[|r|..] + [s[|s| - 1]];
    forall k | 0 <= k < |s[|r|..]|
      ensures IsSpace(s[|r|..][k])
    {
      if k < |t[|r|..]| {
        assert s[|r|..][k] == t[|r|..][k];
      }
    }
  }

  /** `s.strip()`: the line with its leading and trailing whitespace cut off. */
  function Strip(s: string): (r: string)
    ensures r == [] || (!IsSpace(r[0]) && !IsSpace(r[|r| - 1]))
    ensures r == [] <==> AllSpace(s)
  {
    var l := LStrip(s);
    LStripEmpty(s);
    RStripOfNonBlank(l);
    RStrip(l)
  }

  /** Right-stripping a string that starts with a non-space keeps that first character. */
  lemma RStripOfNonBlank(l: string)
    requires l == [] || !IsSpace(l[0])
    ensures RStrip(l) == [] <==> l == []
  {
  }

  /** Stripping keeps one slice of the line and cuts off only whitespace around it, nothing else. */
  lemma StripIsSlice(s: string)
    ensures exists i, j :: StrippedAt(s, Strip(s), i, j)
  {
    var l := LStrip(s);
    var r := RStrip(l);
    assert r == Strip(s);
    PrefixOfSuffix(s, l, r);
    var i, j := |s| - |l|, |s| - |l| + |r|;
    assert AllSpace(s[..i]) && AllSpace(s[j..]);
    assert StrippedAt(s, r, i, j);
  }

  /** `r` is `s[i..j]`, and everything around it in `s` is whitespace. */
  predicate StrippedAt(s: string, r: string, i: int, j: int) {
    0 <= i <= j <= |s| && r == s[i..j] && AllSpace(s[..i]) && AllSpace(s[j..])
  }

  /** Only an all-whitespace string strips to nothing on the left. */
  lemma LStripEmpty(s: string)
    ensures LStrip(s) == [] <==> AllSpace(s)
  {
    var l := LStrip(s);
    if l == [] {
      assert s[..|s| - |l|] == s;
    } else {
      assert s[|s| - |l|] == l[0];
    }
  }

  /**
   One character of `str.lower()`, as far as an equality test against an
   ASCII literal can observe it: `A`..`Z` and KELVIN SIGN (U+212A) are the
   only characters whose lower-case form is ASCII; every other character is
   left alone (its lower-case form, like itself, can match no ASCII letter).
   */
  function LowerChar(c: char): (r: char)
    ensures r == '.' <==> c == '.'
    ensures r == '/' <==> c == '/'
    ensures 'A' <= c <= 'Z' ==> r as int == c as int + 32
  {
    if 'A' <= c <= 'Z' then (c as int + 32) as char
    else if c == '\U{212a}' then 'k'
    else c
  }

  /** `s.lower()`, character by character. */
  function Lower(s: string): (r: string)
    ensures |r| == |s|
    ensures forall k :: 0 <= k < |s| ==> r[k] == LowerChar(s[k])
  {
    seq(|s|, k requires 0 <= k < |s| => LowerChar(s[k]))
  }

  /** Lower-casing works character by character, so it commutes with slicing. */
  lemma LowerSlice(s: string, a: nat, b: nat)
    requires a <= b <= |s|
    ensures Lower(s)[a..b] == Lower(s[a..b])
  {
  }

  lemma LowerPrefixSuffix(s: string, n: nat)
    requires n <= |s|
    ensures Lower(s)[..n] == Lower(s[..n])
    ensures Lower(s)[n..] == Lower(s[n..])
  {
  }

  lemma LowerIdempotent(s: string)
    ensures Lower(Lower(s)) == Lower(s)
  {
  }

  /** Python's `needle in hay` on strings. */
  predicate Contains(hay: string, needle: string)
    decreases |hay|
  {
    |needle| <= |hay| && (hay[..|needle|] == needle || Contains(hay[1..], needle))
  }

  /** A string occurs in any string that has it somewhere in the middle. */
  lemma {:induction false} ContainsMiddle(a: string, b: string, c: string)
    ensures Contains(a + b + c, b)
    decreases |a|
  {
    if |a| == 0 {
      assert (a + b + c)[..|b|] == b;
    } else {
      assert (a + b + c)[1..] == a[1..] + b + c;
      ContainsMiddle(a[1..], b, c);
    }
  }

  /** A string contained in the middle part is contained in the whole. */
  lemma {:induction false} ContainsSurrounded(a: string, b: string, c: string, needle: string)
    requires Contains(b, needle)
    ensures Contains(a + b + c, needle)
    decreases |a|
  {
    if |a| == 0 {
      assert a + b + c == b + c;
      ContainsPrefix(b, c, needle);
    } else {
      assert (a + b + c)[1..] == a[1..] + b + c;
      ContainsSurrounded(a[1..], b, c, needle);
    }
  }

  function DigitChar(d: nat): char
    requires d < 10
  {
    ('0' as int + d) as char
  }

  predicate IsDigit(c: char) {
    '0' <= c <= '9'
  }

  /** `str(n)` for a non-negative integer: decimal, no leading zero. */
  function NatToString(n: nat): (r: string)
    ensures |r| >= 1
    ensures forall k :: 0 <= k < |r| ==> IsDigit(r[k])
    ensures |r| > 1 ==> r[0] != '0'
  {
    if n < 10 then [DigitChar(n)] else NatToString(n / 10) + [DigitChar(n % 10)]
  }

  /** `str(i)` for any integer: a minus sign before the digits of a negative one. */
  function IntToString(i: int): (r: string)
    ensures i >= 0 ==> r == NatToString(i)
    ensures i < 0 ==> r == ['-'] + NatToString(-i)
  {
    if i >= 0 then NatToString(i) else ['-'] + NatToString(-i)
  }

  /** The value of a string of decimal digits (`int(s)`). */
  function DecimalValue(s: string): nat
    requires forall k :: 0 <= k < |s| ==> IsDigit(s[k])
  {
    if |s| == 0 then 0
    else
      assert IsDigit(s[|s| - 1]);
      DecimalValue(s[..|s| - 1]) * 10 + (s[|s| - 1] as int - '0' as int)
  }

  /** `int(str(n)) == n`. */
  lemma {:induction false} DecimalRoundTrip(n: nat)
    ensures DecimalValue(NatToString(n)) == n
  {
    if n >= 10 {
      var r := NatToString(n);
      assert r[..|r| - 1] == NatToString(n / 10);
      DecimalRoundTrip(n / 10);
    }
  }

  /** Distinct integers print differently. */
  lemma NatToStringInjective(m: nat, n: nat)
    requires NatToString(m) == NatToString(n)
    ensures m == n
  {
    DecimalRoundTrip(m);
    DecimalRoundTrip(n);
  }

  /**
   Cutting at the LAST occurrence of a character is unambiguous: when `c`
   occurs in neither tail, `a1 + [c] + t1 == a2 + [c] + t2` forces equal
   heads and equal tails.
   */
  lemma CutAtLast(a1: string, t1: string, a2: string, t2: string, c: char)
    requires a1 + [c] + t1 == a2 + [c] + t2
    requires c !in t1 && c !in t2
    ensures a1 == a2 && t1 == t2
  {
    var s := a1 + [c] + t1;
    LastOccurrence(a1, t1, c);
    LastOccurrence(a2, t2, c);
    assert |a1| == |a2|;
    assert a1 == s[..|a1|] == a2;
    assert t1 == s[|a1| + 1..] == t2;
  }

  /** In `a + [c] + t` with no `c` in `t`, position `|a|` is the last `c`. */
  lemma LastOccurrence(a: string, t: string, c: char)
    requires c !in t
    ensures (a + [c] + t)[|a|] == c
    ensures forall k :: |a| < k < |a + [c] + t| ==> (a + [c] + t)[k] != c
  {
    var s := a + [c] + t;
    forall k | |a| < k < |s| ensures s[k] != c {
      assert s[k] == t[k - |a| - 1];
    }
  }

  /** `sep.join(xs)`. */
  function Join(sep: string, xs: seq<string>): string {
    if |xs| == 0 then ""
    else if |xs| == 1 then xs[0]
    else Join(sep, xs[..|xs| - 1]) + sep + xs[|xs| - 1]
  }

  /** One more piece is added after one more separator. */
  lemma JoinSnoc(sep: string, xs: seq<string>, x: string)
    requires |xs| >= 1
    ensures Join(sep, xs + [x]) == Join(sep, xs) + sep + x
  {
    assert (xs + [x])[..|xs|] == xs;
  }

  /** Every joined piece is still present, word for word, in the joined string. */
  lemma {:induction false} JoinContains(sep: string, xs: seq<string>, i: nat)
    requires i < |xs|
    ensures Contains(Join(sep, xs), xs[i])
  {
    if |xs| == 1 {
      ContainsMiddle("", xs[0], "");
      assert "" + xs[0] + "" == xs[0];
    } else if i == |xs| - 1 {
      ContainsMiddle(Join(sep, xs[..|xs| - 1]) + sep, xs[i], "");
      assert Join(sep, xs[..|xs| - 1]) + sep + xs[i] + "" == Join(sep, xs);
    } else {
      var init := xs[..|xs| - 1];
      assert init[i] == xs[i];
      JoinContains(sep, init, i);
      ContainsPrefix(Join(sep, init), sep + xs[|xs| - 1], xs[i]);
      assert Join(sep, init) + (sep + xs[|xs| - 1]) == Join(sep, xs);
    }
  }

  lemma {:induction false} ContainsPrefix(a: string, b: string, needle: string)
    requires Contains(a, needle)
    ensures Contains(a + b, needle)
    decreases |a|
  {
    if a[..|needle|] != needle {
      assert (a + b)[1..] == a[1..] + b;
      ContainsPrefix(a[1..], b, needle);
    } else {
      assert (a + b)[..|needle|] == a[..|needle|];
    }
  }
}
