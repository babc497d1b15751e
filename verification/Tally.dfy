/** Summing a weight over a sequence, and how one update changes the total. */
module Tally {
  /** Sum of w over the elements of s. */
  ghost function Sum<T>(s: seq<T>, w: T -> nat): nat {
    if s == [] then 0 else w(s[0]) + Sum(s[1..], w)
  }

  lemma {:induction false} SumAppend<T>(s: seq<T>, x: T, w: T -> nat)
    ensures Sum(s + [x], w) == Sum(s, w) + w(x)
  {
    if s == [] {
      assert s + [x] == [x];
    } else {
      assert (s + [x])[1..] == s[1..] + [x];
      SumAppend(s[1..], x, w);
    }
  }

  lemma {:induction false} SumUpdate<T>(s: seq<T>, i: nat, x: T, w: T -> nat)
    requires i < |s|
    ensures Sum(s[i := x], w) + w(s[i]) == Sum(s, w) + w(x)
  {
    if i == 0 {
      assert s[i := x][1..] == s[1..];
    } else {
      assert s[i := x][1..] == s[1..][i - 1 := x];
      SumUpdate(s[1..], i - 1, x, w);
    }
  }

  lemma {:induction false} SumAtLeast<T>(s: seq<T>, i: nat, w: T -> nat)
    requires i < |s|
    ensures Sum(s, w) >= w(s[i])
  {
    if i > 0 {
      SumAtLeast(s[1..], i - 1, w);
    }
  }

  /** A total of zero means every element weighs nothing. */
  lemma {:induction false} SumZero<T>(s: seq<T>, w: T -> nat)
    requires Sum(s, w) == 0
    ensures forall i :: 0 <= i < |s| ==> w(s[i]) == 0
  {
    forall i | 0 <= i < |s| ensures w(s[i]) == 0 {
      SumAtLeast(s, i, w);
    }
  }

  lemma {:induction false} AllZero<T>(s: seq<T>, w: T -> nat)
    requires forall i :: 0 <= i < |s| ==> w(s[i]) == 0
    ensures Sum(s, w) == 0
  {
    if s != [] {
      assert forall i :: 0 <= i < |s[1..]| ==> s[1..][i] == s[i + 1];
      AllZero(s[1..], w);
    }
  }

  /** The numbers below n, each once. */
  ghost function Below(n: nat): multiset<nat> {
    if n == 0 then multiset{} else Below(n - 1) + multiset{n - 1}
  }

  lemma {:induction false} BelowCounts(n: nat)
    ensures |Below(n)| == n
    ensures forall i: nat :: Below(n)[i] == if i < n then 1 else 0
  {
    if n > 0 {
      BelowCounts(n - 1);
    }
  }

  lemma SubBagSize<T>(a: multiset<T>, b: multiset<T>)
    requires a <= b
    ensures |a| <= |b|
  {
    assert b == a + (b - a);
  }
}
