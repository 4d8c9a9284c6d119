/**
 Facts about sequences of any element type, shared by the proofs about
 lines, identifiers and completion orders.
 */
module Seqs {
  lemma Assoc<T>(x: seq<T>, y: seq<T>, z: seq<T>)
    ensures x + y + z == x + (y + z)
  {
  }

  lemma Regroup<T>(h: seq<T>, x: seq<T>, y: seq<T>, z: seq<T>)
    ensures h + (x + y) + z == h + x + y + z
    ensures h + (x + y) + z == h + x + (y + z)
  {
  }

  lemma FrontAndLast<T>(s: seq<T>)
    requires |s| > 0
    ensures s == s[..|s| - 1] + [s[|s| - 1]]
  {
  }

  lemma SnocParts<T>(front: seq<T>, x: T)
    ensures (front + [x])[..|front|] == front
    ensures (front + [x])[|front|] == x
  {
  }

  lemma LastOfAppend<T>(a: seq<T>, b: seq<T>)
    requires |b| > 0
    ensures (a + b)[..|a + b| - 1] == a + b[..|b| - 1]
    ensures (a + b)[|a + b| - 1] == b[|b| - 1]
  {
  }

  /** A prefix `r` of a suffix `l` of `s` is the slice of `s` between them. */
  lemma PrefixOfSuffix<T>(s: seq<T>, l: seq<T>, r: seq<T>)
    requires |l| <= |s| && l == s[|s| - |l|..]
    requires |r| <= |l| && r == l[..|r|]
    ensures r == s[|s| - |l|..|s| - |l| + |r|]
    ensures s[|s| - |l| + |r|..] == l[|r|..]
  {
  }

  /** Extending the last element of `init[..] + [last + x]` by `c` is extending `last` by `x + [c]`. */
  lemma ExtendLast<T>(init: seq<seq<T>>, mid: seq<seq<T>>, x: seq<T>, c: T)
    requires |init| >= 1
    requires mid == init[..|init| - 1] + [init[|init| - 1] + x]
    ensures mid[..|mid| - 1] + [mid[|mid| - 1] + [c]] == init[..|init| - 1] + [init[|init| - 1] + (x + [c])]
  {
    assert mid[..|mid| - 1] == init[..|init| - 1];
    assert mid[|mid| - 1] + [c] == init[|init| - 1] + (x + [c]);
  }

  lemma SplitAround<T>(b: seq<T>, i: nat)
    requires i < |b|
    ensures b == b[..i] + ([b[i]] + b[i + 1..])
  {
  }

  /** Taking one element out of a sequence takes it out of the multiset. */
  lemma RemoveOne<T>(b: seq<T>, i: nat)
    requires i < |b|
    ensures multiset(b[..i] + b[i + 1..]) == multiset(b) - multiset{b[i]}
  {
    var front, back := b[..i], b[i + 1..];
    SplitAround(b, i);
    assert multiset(b) == multiset(front) + multiset([b[i]] + back);
    assert multiset([b[i]] + back) == multiset{b[i]} + multiset(back);
    assert multiset(front + back) == multiset(front) + multiset(back);
  }

  /** Two permutations of each other, with one occurrence of their common first element taken out of each, are still permutations. */
  lemma RemoveMatching<T>(a: seq<T>, b: seq<T>, i: nat)
    requires multiset(a) == multiset(b)
    requires 0 < |a| && i < |b| && b[i] == a[0]
    ensures multiset(a[1..]) == multiset(b[..i] + b[i + 1..])
  {
    assert a == [a[0]] + a[1..];
    assert multiset(a) == multiset{a[0]} + multiset(a[1..]);
    RemoveOne(b, i);
  }
}
