/** Sequences of natural numbers: repetition and sums. */
module Sequences {
  ghost predicate NoDup(s: seq<nat>)
  {
    forall i, j :: 0 <= i < j < |s| ==> s[i] != s[j]
  }

  ghost function Sum(w: seq<nat>): nat { if w == [] then 0 else w[0] + Sum(w[1..]) }

  lemma {:induction false} SumUpdate(w: seq<nat>, k: nat, x: nat)
    requires k < |w|
    ensures Sum(w[k := x]) + w[k] == Sum(w) + x
  {
    if k > 0 {
      SumUpdate(w[1..], k - 1, x);
      assert w[k := x][1..] == w[1..][k - 1 := x];
    } else {
      assert w[k := x][1..] == w[1..];
    }
  }

  lemma {:induction false} SumSplit(u: seq<nat>, v: seq<nat>)
    ensures Sum(u + v) == Sum(u) + Sum(v)
  {
    if u == [] {
      assert u + v == v;
    } else {
      SumSplit(u[1..], v);
      assert (u + v)[1..] == u[1..] + v;
    }
  }

  lemma SumAppend(w: seq<nat>, x: nat)
    ensures Sum(w + [x]) == Sum(w) + x
  {
    SumSplit(w, [x]);
    assert [x][1..] == [];
  }

  lemma SumRemove(w: seq<nat>, k: nat)
    requires k < |w|
    ensures Sum(w[..k] + w[k + 1..]) + w[k] == Sum(w)
  {
    assert w == w[..k] + w[k..] && w[k..][1..] == w[k + 1..];
    SumSplit(w[..k], w[k..]);
    SumSplit(w[..k], w[k + 1..]);
  }

  lemma {:induction false} SumZero(w: seq<nat>)
    requires forall k :: 0 <= k < |w| ==> w[k] == 0
    ensures Sum(w) == 0
  {
    if w != [] {
      SumZero(w[1..]);
    }
  }
}
