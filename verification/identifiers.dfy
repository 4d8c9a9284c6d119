/**
 The identifier list: `[line.strip() for line in f if line.strip()]`, then
 `workorders[9300:]`.

 The file is read as text, so Python's universal-newline translation turns
 `\r\n` and a lone `\r` into `\n` before the lines are split. Here both `\n`
 and `\r` end a line; a `\r\n` pair then yields one extra line that is
 empty, and empty lines are dropped anyway, so the identifiers agree.
 */
module Identifiers {
  import opened Strings
  import opened Seqs

  /** The number of identifiers skipped at the front of the list. */
  const SkipCount: nat := 9300

  predicate IsLineBreak(c: char) {
    c == '\n' || c == '\r'
  }

  predicate NoBreak(s: string) {
    forall k :: 0 <= k < |s| ==> !IsLineBreak(s[k])
  }

  /** Joining pieces without line breaks, with a separator without line breaks, makes no line break. */
  lemma {:induction false} JoinNoBreak(sep: string, xs: seq<string>)
    requires NoBreak(sep)
    requires forall k :: 0 <= k < |xs| ==> NoBreak(xs[k])
    ensures NoBreak(Join(sep, xs))
    decreases |xs|
  {
    if |xs| > 1 {
      var front := xs[..|xs| - 1];
      JoinNoBreak(sep, front);
      ConcatNoBreak(Join(sep, front), sep);
      ConcatNoBreak(Join(sep, front) + sep, xs[|xs| - 1]);
    }
  }

  /** Two pieces without line breaks make a string without line breaks. */
  lemma ConcatNoBreak(a: string, b: string)
    requires NoBreak(a) && NoBreak(b)
    ensures NoBreak(a + b)
  {
    forall k | 0 <= k < |a + b| ensures !IsLineBreak((a + b)[k]) {
      if k < |a| { assert (a + b)[k] == a[k]; } else { assert (a + b)[k] == b[k - |a|]; }
    }
  }

  /** The text with every line break written as `\n`. */
  function Unify(s: string): string {
    seq(|s|, k requires 0 <= k < |s| => if IsLineBreak(s[k]) then '\n' else s[k])
  }

  /** Unifying a text unifies its last character on its own. */
  lemma UnifyLast(s: string)
    requires |s| > 0
    ensures Unify(s) == Unify(s[..|s| - 1]) + [if IsLineBreak(s[|s| - 1]) then '\n' else s[|s| - 1]]
  {
  }

  /** The lines of a text, without their terminators; a text without breaks is one line. */
  function SplitLines(s: string): (lines: seq<string>)
    ensures |lines| >= 1
    decreases |s|
  {
    if |s| == 0 then [""]
    else
      var init := SplitLines(s[..|s| - 1]);
      var c := s[|s| - 1];
      if IsLineBreak(c) then init + [""]
      else init[..|init| - 1] + [init[|init| - 1] + [c]]
  }

  /** No line holds a line break. */
  lemma {:induction false} SplitLinesHaveNoBreaks(s: string)
    ensures forall k :: 0 <= k < |SplitLines(s)| ==> NoBreak(SplitLines(s)[k])
    decreases |s|
  {
    if |s| > 0 {
      var front, c := s[..|s| - 1], s[|s| - 1];
      SplitLinesHaveNoBreaks(front);
      var init := SplitLines(front);
      var lines := SplitLines(s);
      forall k | 0 <= k < |lines|
        ensures NoBreak(lines[k])
      {
        if k < |init| - 1 || IsLineBreak(c) {
          if k < |init| {
            assert lines[k] == init[k];
          }
        } else {
          var last := init[|init| - 1];
          assert lines[k] == last + [c];
          forall m | 0 <= m < |last| + 1
            ensures !IsLineBreak((last + [c])[m])
          {
            if m < |last| {
              assert (last + [c])[m] == last[m];
            }
          }
        }
      }
    }
  }

  lemma {:induction false} JoinExtendLast(sep: string, xs: seq<string>, c: char)
    requires |xs| >= 1
    ensures Join(sep, xs[..|xs| - 1] + [xs[|xs| - 1] + [c]]) == Join(sep, xs) + [c]
  {
    var ys := xs[..|xs| - 1] + [xs[|xs| - 1] + [c]];
    assert ys[..|ys| - 1] == xs[..|xs| - 1];
  }

  /** Joining the lines with `\n` gives back the text, every line break written as `\n`. */
  lemma {:induction false} SplitLinesJoin(s: string)
    ensures Join("\n", SplitLines(s)) == Unify(s)
    decreases |s|
  {
    if |s| > 0 {
      var front, c := s[..|s| - 1], s[|s| - 1];
      var init := SplitLines(front);
      SplitLinesJoin(front);
      UnifyLast(s);
      if IsLineBreak(c) {
        JoinSnoc("\n", init, "");
      } else {
        JoinExtendLast("\n", init, c);
      }
    }
  }

  /** Appending text without a break extends the last line. */
  lemma {:induction false} SplitLinesAppend(a: string, t: string)
    requires NoBreak(t)
    ensures var init := SplitLines(a);
            SplitLines(a + t) == init[..|init| - 1] + [init[|init| - 1] + t]
    decreases |t|
  {
    var init := SplitLines(a);
    if |t| == 0 {
      assert a + t == a;
      assert init[|init| - 1] + t == init[|init| - 1];
      assert init == init[..|init| - 1] + [init[|init| - 1]];
    } else {
      var t', c := t[..|t| - 1], t[|t| - 1];
      NoBreakPrefix(t, |t| - 1);
      SplitLinesAppend(a, t');
      assert (a + t)[..|a + t| - 1] == a + t';
      SplitLinesExtend(a + t);
      ExtendLast(init, SplitLines(a + t'), t', c);
      assert t' + [c] == t;
    }
  }

  /** A text that does not end in a break has its last character on its last line. */
  lemma SplitLinesExtend(s: string)
    requires |s| > 0 && !IsLineBreak(s[|s| - 1])
    ensures var init := SplitLines(s[..|s| - 1]);
            SplitLines(s) == init[..|init| - 1] + [init[|init| - 1] + [s[|s| - 1]]]
  {
  }

  lemma NoBreakPrefix(t: string, n: nat)
    requires NoBreak(t) && n <= |t|
    ensures NoBreak(t[..n])
  {
    forall k | 0 <= k < n ensures !IsLineBreak(t[..n][k]) { assert t[..n][k] == t[k]; }
  }

  /** Lines without breaks, joined with `\n`, split back into themselves. */
  lemma {:induction false} JoinSplitLines(xs: seq<string>)
    requires |xs| >= 1
    requires forall k :: 0 <= k < |xs| ==> NoBreak(xs[k])
    ensures SplitLines(Join("\n", xs)) == xs
    decreases |xs|
  {
    if |xs| == 1 {
      SplitLinesOfLine(xs[0]);
    } else {
      var front, x := xs[..|xs| - 1], xs[|xs| - 1];
      AllNoBreakPrefix(xs, front);
      JoinSplitLines(front);
      JoinSplitLinesSnoc(front, x);
      FrontAndLast(xs);
    }
  }

  /** A text without breaks is one line. */
  lemma SplitLinesOfLine(x: string)
    requires NoBreak(x)
    ensures SplitLines(x) == [x]
  {
    SplitLinesAppend("", x);
    assert "" + x == x;
  }

  lemma AllNoBreakPrefix(xs: seq<string>, front: seq<string>)
    requires |xs| >= 1 && front == xs[..|xs| - 1]
    requires forall k :: 0 <= k < |xs| ==> NoBreak(xs[k])
    ensures forall k :: 0 <= k < |front| ==> NoBreak(front[k])
  {
    forall k | 0 <= k < |front| ensures NoBreak(front[k]) { assert front[k] == xs[k]; }
  }

  /** The induction step: one more line after one more `\n`. */
  lemma JoinSplitLinesSnoc(front: seq<string>, x: string)
    requires |front| >= 1 && NoBreak(x)
    requires SplitLines(Join("\n", front)) == front
    ensures SplitLines(Join("\n", front + [x])) == front + [x]
  {
    var j := Join("\n", front);
    var a := j + "\n";
    FrontAndLast(a);
    SplitLinesBreak(a);
    SplitLinesAppend(a, x);
    JoinSnoc("\n", front, x);
    SnocParts(front, "");
    assert "" + x == x;
  }

  /** A text that ends in a break has an empty last line. */
  lemma SplitLinesBreak(s: string)
    requires |s| > 0 && IsLineBreak(s[|s| - 1])
    ensures SplitLines(s) == SplitLines(s[..|s| - 1]) + [""]
  {
  }

  /** What the program keeps of a line: stripped and not empty. */
  predicate IsIdentifier(s: string) {
    |s| > 0 && !IsSpace(s[0]) && !IsSpace(s[|s| - 1])
  }

  /** What one line contributes: its stripped form, or nothing when it is blank. */
  function Kept(line: string): seq<string> {
    if Strip(line) == [] then [] else [Strip(line)]
  }

  /** `[line.strip() for line in lines if line.strip()]`. */
  function StrippedNonBlank(lines: seq<string>): (ids: seq<string>)
    ensures |ids| <= |lines|
    ensures forall k :: 0 <= k < |ids| ==> IsIdentifier(ids[k])
    decreases |lines|
  {
    if |lines| == 0 then []
    else
      var front := StrippedNonBlank(lines[..|lines| - 1]);
      var s := Strip(lines[|lines| - 1]);
      if s == [] then front
      else
        AppendIdentifier(front, s);
        front + [s]
  }

  lemma AppendIdentifier(front: seq<string>, s: string)
    requires forall k :: 0 <= k < |front| ==> IsIdentifier(front[k])
    requires IsIdentifier(s)
    ensures forall k :: 0 <= k < |front| + 1 ==> IsIdentifier((front + [s])[k])
  {
    forall k | 0 <= k < |front| + 1
      ensures IsIdentifier((front + [s])[k])
    {
      if k < |front| {
        assert (front + [s])[k] == front[k];
      }
    }
  }

  /** A single line contributes its stripped form, or nothing when it is blank. */
  lemma StrippedNonBlankOne(line: string)
    ensures StrippedNonBlank([line]) == Kept(line)
  {
    assert [line][..0] == [];
  }

  /** The comprehension works line by line: the identifiers of two stretches of lines, one after the other. */
  lemma {:induction false} StrippedNonBlankAppend(a: seq<string>, b: seq<string>)
    ensures StrippedNonBlank(a + b) == StrippedNonBlank(a) + StrippedNonBlank(b)
    decreases |b|
  {
    if |b| == 0 {
      assert a + b == a;
    } else {
      var front := b[..|b| - 1];
      LastOfAppend(a, b);
      StrippedNonBlankAppend(a, front);
      StrippedNonBlankLast(a + b);
      StrippedNonBlankLast(b);
      Assoc(StrippedNonBlank(a), StrippedNonBlank(front), Kept(b[|b| - 1]));
    }
  }

  /** The comprehension's step: the last line adds what it keeps. */
  lemma StrippedNonBlankLast(lines: seq<string>)
    requires |lines| > 0
    ensures StrippedNonBlank(lines) == StrippedNonBlank(lines[..|lines| - 1]) + Kept(lines[|lines| - 1])
  {
  }

  /** Every identifier in the file, in file order, before the skip. */
  function AllWorkorders(text: string): seq<string> {
    StrippedNonBlank(SplitLines(text))
  }

  /** The comprehension as the loop it runs: strip each line, keep the non-empty ones. */
  method CollectIdentifiers(lines: seq<string>) returns (workorders: seq<string>)
    ensures workorders == StrippedNonBlank(lines)
  {
    workorders := [];
    var i := 0;
    assert lines[..0] == [];
    while i < |lines|
      invariant 0 <= i <= |lines|
      invariant workorders == StrippedNonBlank(lines[..i])
    {
      StrippedNonBlankLast(lines[..i + 1]);
      assert lines[..i + 1][..i] == lines[..i];
      var s := Strip(lines[i]);
      if s != [] {
        workorders := workorders + [s];
      }
      i := i + 1;
    }
    assert lines[..|lines|] == lines;
  }

  /**
   Reading the identifier file: every stripped non-empty line, then the
   slice that drops the first `SkipCount` entries (all of them when there
   are fewer).
   */
  method LoadWorkorders(text: string) returns (ids: seq<string>)
    ensures var all := AllWorkorders(text);
            |ids| == (if |all| > SkipCount then |all| - SkipCount else 0)
    ensures forall k :: 0 <= k < |ids| ==> ids[k] == AllWorkorders(text)[k + SkipCount]
    ensures forall k :: 0 <= k < |ids| ==> IsIdentifier(ids[k])
  {
    var workorders := CollectIdentifiers(SplitLines(text));
    ids := if |workorders| > SkipCount then workorders[SkipCount..] else [];
    SkippedIdentifiers(workorders, ids);
  }

  /** The slice past the skipped entries keeps their order and their shape. */
  lemma SkippedIdentifiers(all: seq<string>, ids: seq<string>)
    requires forall k :: 0 <= k < |all| ==> IsIdentifier(all[k])
    requires ids == if |all| > SkipCount then all[SkipCount..] else []
    ensures |ids| == (if |all| > SkipCount then |all| - SkipCount else 0)
    ensures forall k :: 0 <= k < |ids| ==> ids[k] == all[k + SkipCount] && IsIdentifier(ids[k])
  {
    forall k | 0 <= k < |ids|
      ensures ids[k] == all[k + SkipCount] && IsIdentifier(ids[k])
    {
      assert IsIdentifier(all[k + SkipCount]);
    }
  }

  /**
   Round trip: a file holding identifiers one per line (already stripped,
   non-empty) lists exactly those identifiers, in order.
   */
  lemma WorkordersOfJoinedLines(xs: seq<string>)
    requires forall k :: 0 <= k < |xs| ==> IsIdentifier(xs[k]) && NoBreak(xs[k])
    ensures AllWorkorders(Join("\n", xs)) == xs
  {
    if |xs| == 0 {
      assert SplitLines("") == [""];
      assert Strip("") == "";
    } else {
      JoinSplitLines(xs);
      StrippedNonBlankOfIdentifiers(xs);
    }
  }

  lemma {:induction false} StrippedNonBlankOfIdentifiers(xs: seq<string>)
    requires forall k :: 0 <= k < |xs| ==> IsIdentifier(xs[k])
    ensures StrippedNonBlank(xs) == xs
    decreases |xs|
  {
    if |xs| > 0 {
      var front := xs[..|xs| - 1];
      StrippedNonBlankOfIdentifiers(front);
      var x := xs[|xs| - 1];
      StrippedNonBlankLast(xs);
      StripOfIdentifier(x);
      FrontAndLast(xs);
    }
  }

  /** An identifier is already stripped. */
  lemma StripOfIdentifier(x: string)
    requires IsIdentifier(x)
    ensures Kept(x) == [x]
  {
    assert LStrip(x) == x;
    assert RStrip(x) == x;
  }
}
