/**
 The work queue of an I/O worker: a fixed table of entries threaded into two lists by the indexes
 kept in the entries, the free list and the list of requests in flight.

 The dispatcher enqueues requests and reclaims completed ones; the worker walks the list in flight
 with a cursor. Each is one atomic step here: enqueue, visit one entry, reclaim. Clocks never run
 backwards.
 */
module WorkQueue {
  import opened Sequences

  // ----- Lists of indexes -----

  ghost predicate Below(s: seq<nat>, n: nat)
  {
    forall i :: 0 <= i < |s| ==> s[i] < n
  }

  /** The entries of `s` are linked forwards in this order; the last has no successor (-1). */
  ghost predicate Chain(next: seq<int>, s: seq<nat>)
  {
    Below(s, |next|) && forall i :: 0 <= i < |s| ==> next[s[i]] == At(s, i + 1)
  }

  /** The entry at a position of a list, -1 past its end. */
  ghost function At(s: seq<nat>, i: nat): int { if i < |s| then s[i] else -1 }

  /** The entries of `s` after the first are linked backwards. */
  ghost predicate BackChain(prev: seq<int>, s: seq<nat>)
  {
    Below(s, |prev|) && forall i :: 1 <= i < |s| ==> prev[s[i]] == s[i - 1]
  }

  /** A list with `e` put in before position `p`. */
  ghost function Inserted(s: seq<nat>, p: nat, e: nat): (r: seq<nat>)
    requires p <= |s|
    ensures |r| == |s| + 1
    ensures forall i :: 0 <= i < |r| ==> r[i] == if i < p then s[i] else if i == p then e else s[i - 1]
    ensures forall x :: x in r <==> x == e || x in s
  {
    assert s == s[..p] + s[p..];
    s[..p] + [e] + s[p..]
  }

  lemma InsertNoDup(s: seq<nat>, p: nat, e: nat)
    requires NoDup(s) && p <= |s| && e !in s
    ensures NoDup(Inserted(s, p, e))
  {
  }

  lemma InsertNext(next: seq<int>, next': seq<int>, s: seq<nat>, p: nat, e: nat)
    requires Chain(next, s) && NoDup(s) && p <= |s| && e < |next| && e !in s && |next'| == |next|
    requires next'[e] == At(s, p)
    requires p > 0 ==> next'[s[p - 1]] == e
    requires forall x :: 0 <= x < |next| && x != e && (p > 0 ==> x != s[p - 1]) ==> next'[x] == next[x]
    ensures Chain(next', Inserted(s, p, e))
  {
    var r := Inserted(s, p, e);
    forall i | 0 <= i < |r|
      ensures next'[r[i]] == At(r, i + 1)
    {
      if i < p - 1 {
        assert s[i] != s[p - 1] && s[i] in s;
        assert next'[s[i]] == next[s[i]] == s[i + 1];
      } else if i > p {
        assert p > 0 ==> s[i - 1] != s[p - 1];
        assert s[i - 1] in s;
        assert next'[s[i - 1]] == next[s[i - 1]];
      }
    }
  }

  lemma InsertPrev(prev: seq<int>, prev': seq<int>, s: seq<nat>, p: nat, e: nat)
    requires BackChain(prev, s) && NoDup(s) && p <= |s| && e < |prev| && e !in s && |prev'| == |prev|
    requires p > 0 ==> prev'[e] == s[p - 1]
    requires p < |s| ==> prev'[s[p]] == e
    requires forall x :: 0 <= x < |prev| && x != e && (p < |s| ==> x != s[p]) ==> prev'[x] == prev[x]
    ensures BackChain(prev', Inserted(s, p, e))
  {
    var r := Inserted(s, p, e);
    forall i | 1 <= i < |r|
      ensures prev'[r[i]] == r[i - 1]
    {
      if i < p {
        assert p < |s| ==> s[i] != s[p];
      } else if i > p + 1 {
        assert s[i - 1] != s[p];
      }
    }
  }

  // ----- The order of the list in flight -----

  /** What an entry records; `release` is the buffer space an internal operation gives back. */
  datatype Work = Work(target: nat, completed: bool, copied: bool, internal: bool, release: nat)

  /** The time that orders the list in flight: what is overdue is due now. */
  function Key(w: Work, latest: nat): nat { if w.target > latest then w.target else latest }

  ghost predicate Sorted(work: seq<Work>, s: seq<nat>, latest: nat)
  {
    Below(s, |work|) && forall i, j :: 0 <= i < j < |s| ==> Key(work[s[i]], latest) <= Key(work[s[j]], latest)
  }

  /** The order survives the clock. */
  lemma SortedLater(work: seq<Work>, s: seq<nat>, latest: nat, later: nat)
    requires Sorted(work, s, latest) && latest <= later
    ensures Sorted(work, s, later)
  {
    forall i, j | 0 <= i < j < |s|
      ensures Key(work[s[i]], later) <= Key(work[s[j]], later)
    {
      assert Key(work[s[i]], latest) <= Key(work[s[j]], latest);
    }
  }

  /** Flags do not matter for the order. */
  lemma SortedSame(work: seq<Work>, work': seq<Work>, s: seq<nat>, latest: nat)
    requires Sorted(work, s, latest) && |work'| == |work|
    requires forall i :: 0 <= i < |s| ==> s[i] < |work| ==> work'[s[i]].target == work[s[i]].target
    ensures Sorted(work', s, latest)
  {
    forall i, j | 0 <= i < j < |s|
      ensures Key(work'[s[i]], latest) <= Key(work'[s[j]], latest)
    {
      assert Key(work[s[i]], latest) <= Key(work[s[j]], latest);
    }
  }

  /** Everything from place `p` on is not overdue and due after `t`; what is before it is overdue or not due later. */
  ghost predicate RightPlace(work: seq<Work>, s: seq<nat>, p: nat, t: nat, latest: nat)
  {
    && p <= |s|
    && (forall i :: p <= i < |s| ==> s[i] < |work| && work[s[i]].target > latest && work[s[i]].target > t)
    && (p > 0 ==> s[p - 1] < |work| && (work[s[p - 1]].target <= latest || work[s[p - 1]].target <= t))
  }

  /** The place where the backward search stops is right: everything behind it is due later. */
  lemma InsertSorted(work: seq<Work>, s: seq<nat>, p: nat, e: nat, latest: nat)
    requires Sorted(work, s, latest) && e < |work| && RightPlace(work, s, p, work[e].target, latest)
    ensures Sorted(work, Inserted(s, p, e), latest)
  {
    var r := Inserted(s, p, e);
    forall i, j | 0 <= i < j < |r|
      ensures Key(work[r[i]], latest) <= Key(work[r[j]], latest)
    {
      if j == p {
        assert i < p - 1 ==> Key(work[s[i]], latest) <= Key(work[s[p - 1]], latest);
      } else if i == p {
        assert work[r[j]] == work[s[j - 1]];
      } else {
        var (i', j') := (if i < p then i else i - 1, if j < p then j else j - 1);
        assert i' < j' && Key(work[s[i']], latest) <= Key(work[s[j']], latest);
      }
    }
  }

  /** Plain order by target time. */
  ghost predicate ByTarget(work: seq<Work>, s: seq<nat>)
  {
    Below(s, |work|) && forall i, j :: 0 <= i < j < |s| ==> work[s[i]].target <= work[s[j]].target
  }

  /** No request is overdue at `latest` and yet due after `t`. */
  ghost predicate NoneLater(work: seq<Work>, s: seq<nat>, t: nat, latest: nat)
  {
    forall i :: 0 <= i < |s| && s[i] < |work| ==> !(t < work[s[i]].target <= latest)
  }

  /** Plain order by target time is kept if and only if no overdue request is due after the new one. */
  lemma PlainOrderIff(work: seq<Work>, s: seq<nat>, p: nat, e: nat, latest: nat)
    requires ByTarget(work, s) && e < |work| && RightPlace(work, s, p, work[e].target, latest)
    ensures ByTarget(work, Inserted(s, p, e)) <==> NoneLater(work, s, work[e].target, latest)
  {
    var (r, t) := (Inserted(s, p, e), work[e].target);
    if NoneLater(work, s, t, latest) {
      forall i, j | 0 <= i < j < |r|
        ensures work[r[i]].target <= work[r[j]].target
      {
        var (i', j') := (if i < p then i else i - 1, if j < p then j else j - 1);
        if j == p {
          assert work[s[i]].target <= work[s[p - 1]].target;
        } else if i != p {
          assert work[s[i']].target <= work[s[j']].target;
        }
      }
    } else {
      var i :| 0 <= i < |s| && t < work[s[i]].target <= latest;
      assert i < p;
      assert r[i] == s[i] && r[p] == e;
    }
  }

  /** The same when the new request is first stored in its entry. */
  lemma EnqueuedPlain(work: seq<Work>, s: seq<nat>, p: nat, e: nat, w: Work, latest: nat)
    requires ByTarget(work, s) && e < |work| && e !in s && RightPlace(work, s, p, w.target, latest)
    ensures ByTarget(work[e := w], Inserted(s, p, e)) <==> NoneLater(work, s, w.target, latest)
  {
    assert forall i :: 0 <= i < |s| ==> s[i] in s && work[e := w][s[i]] == work[s[i]];
    PlainOrderIff(work[e := w], s, p, e, latest);
  }

  // ----- Moving a prefix of one list to the end of another -----

  lemma AppendNext(next: seq<int>, next': seq<int>, s: seq<nat>, t: seq<nat>)
    requires Chain(next, s) && s != [] && Below(t, |next|) && |next'| == |next| && t != []
    requires NoDup(s) && (forall x :: x in t ==> x !in s)
    requires next'[s[|s| - 1]] == t[0]
    requires forall x :: x in s && x != s[|s| - 1] ==> next'[x] == next[x]
    requires Chain(next', t)
    ensures Chain(next', s + t)
  {
    var r := s + t;
    forall i | 0 <= i < |r|
      ensures next'[r[i]] == At(r, i + 1)
    {
      if i < |s| - 1 {
        assert s[i] in s && s[i] != s[|s| - 1];
        assert next'[s[i]] == next[s[i]] == s[i + 1];
      } else if i >= |s| {
        assert r[i] == t[i - |s|];
      }
    }
  }

  /** The free list and the list in flight, as the table links them. */
  ghost predicate Lists(next: seq<int>, prev: seq<int>, n: nat, free: seq<nat>, io: seq<nat>)
  {
    && |next| == |prev| == n
    && Chain(next, free) && Chain(next, io) && BackChain(prev, free) && BackChain(prev, io)
    && (io != [] ==> prev[io[0]] == -1)
    && NoDup(free) && NoDup(io) && free != []
    && (forall x :: x in free ==> x !in io)
    && (forall x :: 0 <= x < n ==> x in free || x in io)
  }

  /** Taking the first free entry and putting it before position `p` of the list in flight. */
  lemma ListsInsert(next: seq<int>, prev: seq<int>, next': seq<int>, prev': seq<int>, n: nat, free: seq<nat>,
      io: seq<nat>, p: nat)
    requires Lists(next, prev, n, free, io) && |free| > 1 && p <= |io|
    requires |next'| == |prev'| == n
    requires next'[free[0]] == At(io, p) && (p > 0 ==> next'[io[p - 1]] == free[0])
    requires forall x :: 0 <= x < n && x != free[0] && (p > 0 ==> x != io[p - 1]) ==> next'[x] == next[x]
    requires prev'[free[0]] == (if p > 0 then io[p - 1] else -1) && (p < |io| ==> prev'[io[p]] == free[0])
    requires forall x :: 0 <= x < n && x != free[0] && (p < |io| ==> x != io[p]) ==> prev'[x] == prev[x]
    ensures Lists(next', prev', n, free[1..], Inserted(io, p, free[0]))
  {
    var e := free[0];
    assert e in free && e !in io;
    InsertNoDup(io, p, e);
    InsertNext(next, next', io, p, e);
    InsertPrev(prev, prev', io, p, e);
    TailChain(next, next', prev, prev', free, io);
  }

  /** The free list without its first entry is untouched by changes elsewhere. */
  lemma TailChain(next: seq<int>, next': seq<int>, prev: seq<int>, prev': seq<int>, free: seq<nat>, io: seq<nat>)
    requires Chain(next, free) && BackChain(prev, free) && NoDup(free) && |free| > 1
        && |next'| == |next| == |prev| == |prev'|
    requires forall x :: x in free ==> x !in io
    requires forall x :: 0 <= x < |next| && x != free[0] && x !in io ==> next'[x] == next[x] && prev'[x] == prev[x]
    ensures Chain(next', free[1..]) && BackChain(prev', free[1..]) && NoDup(free[1..])
    ensures forall x :: x in free <==> x == free[0] || x in free[1..]
    ensures free[0] !in free[1..]
  {
    hide Chain, BackChain, NoDup;
    TailMembers(free);
    assert forall x :: x in free[1..] ==> x in free && x != free[0] && x !in io;
    TailNext(next, next', free);
    TailPrev(prev, prev', free);
  }

  lemma TailMembers(s: seq<nat>)
    requires s != [] && NoDup(s)
    ensures NoDup(s[1..]) && s[0] !in s[1..]
    ensures forall x :: x in s <==> x == s[0] || x in s[1..]
  {
    assert s == [s[0]] + s[1..];
  }

  lemma TailNext(next: seq<int>, next': seq<int>, s: seq<nat>)
    requires s != [] && Chain(next, s) && |next'| == |next|
    requires forall x :: x in s[1..] && x < |next| ==> next'[x] == next[x]
    ensures Chain(next', s[1..])
  {
    var t := s[1..];
    forall i | 0 <= i < |t|
      ensures t[i] < |next'| && next'[t[i]] == At(t, i + 1)
    {
      assert t[i] in t && t[i] == s[i + 1];
      assert next[s[i + 1]] == At(s, i + 2);
    }
  }

  lemma TailPrev(prev: seq<int>, prev': seq<int>, s: seq<nat>)
    requires s != [] && BackChain(prev, s) && |prev'| == |prev|
    requires forall x :: x in s[1..] && x < |prev| ==> prev'[x] == prev[x]
    ensures BackChain(prev', s[1..])
  {
    var t := s[1..];
    forall i | 1 <= i < |t|
      ensures t[i] < |prev'| && prev'[t[i]] == t[i - 1]
    {
      assert t[i] in t && t[i] == s[i + 1];
      assert prev[s[i + 1]] == s[i];
    }
  }

  /** Moving the first `k` entries in flight to the end of the free list. */
  lemma ListsReclaim(next: seq<int>, prev: seq<int>, next': seq<int>, prev': seq<int>, n: nat, free: seq<nat>,
      io: seq<nat>, k: nat)
    requires Lists(next, prev, n, free, io) && 0 < k <= |io| && |next'| == |prev'| == n && Below(io, n)
        && Below(free, n)
    requires next'[io[k - 1]] == -1 && next'[free[|free| - 1]] == io[0]
    requires forall x :: 0 <= x < n && x != io[k - 1] && x != free[|free| - 1] ==> next'[x] == next[x]
    requires prev'[io[0]] == free[|free| - 1] && (k < |io| ==> prev'[io[k]] == -1)
    requires forall x :: 0 <= x < n && x != io[0] && (k < |io| ==> x != io[k]) ==> prev'[x] == prev[x]
    ensures Lists(next', prev', n, free + io[..k], io[k..])
  {
    hide Chain, BackChain, NoDup;
    var (a, b) := (io[..k], io[k..]);
    var last := free[|free| - 1];
    assert last in free && last !in io;
    SplitList(next, next', prev, prev', free, io, k);
    forall x | x in a
      ensures x !in free
    {
      assert x in io;
    }
    forall x | x in free && x != last
      ensures next'[x] == next[x]
    {
      assert x !in io && io[k - 1] in io;
    }
    AppendNext(next, next', free, a);
    AppendPrev(prev, prev', free, a, io, k);
    assert io == a + b;
    assert forall x :: x in io <==> x in a || x in b;
    assert forall x :: x in free + a <==> x in free || x in a;
    JoinNoDup(free, a);
  }

  lemma JoinNoDup(s: seq<nat>, t: seq<nat>)
    requires NoDup(s) && NoDup(t) && forall x :: x in t ==> x !in s
    ensures NoDup(s + t)
  {
    forall i, j | 0 <= i < j < |s + t|
      ensures (s + t)[i] != (s + t)[j]
    {
      if i < |s| <= j {
        assert s[i] in s && t[j - |s|] in t;
      }
    }
  }

  lemma SplitList(next: seq<int>, next': seq<int>, prev: seq<int>, prev': seq<int>, free: seq<nat>, io: seq<nat>,
      k: nat)
    requires Chain(next, io) && BackChain(prev, io) && NoDup(io) && 0 < k <= |io| && free != []
    requires |next'| == |next| == |prev| == |prev'| && forall x :: x in free ==> x !in io
    requires next'[io[k - 1]] == -1
    requires forall x :: 0 <= x < |next| && x != io[k - 1] && x != free[|free| - 1] ==> next'[x] == next[x]
    requires k < |io| ==> prev'[io[k]] == -1
    requires forall x :: 0 <= x < |next| && x != io[0] && (k < |io| ==> x != io[k]) ==> prev'[x] == prev[x]
    ensures Chain(next', io[..k]) && Chain(next', io[k..]) && BackChain(prev', io[k..]) && NoDup(io[..k])
        && NoDup(io[k..])
    ensures forall x :: x in io[k..] ==> x !in io[..k]
    ensures Below(io[..k], |next|)
  {
    hide Chain, BackChain, NoDup, Below;
    SplitMembers(io, k);
    assert free[|free| - 1] in free;
    SplitNext(next, next', io, k, free[|free| - 1]);
    SplitPrev(prev, prev', io, k);
  }

  lemma SplitMembers(s: seq<nat>, k: nat)
    requires NoDup(s) && k <= |s|
    ensures NoDup(s[..k]) && NoDup(s[k..]) && forall x :: x in s[k..] ==> x !in s[..k]
  {
  }

  lemma SplitNext(next: seq<int>, next': seq<int>, s: seq<nat>, k: nat, f: nat)
    requires Chain(next, s) && NoDup(s) && 0 < k <= |s| && |next'| == |next| && f !in s
    requires next'[s[k - 1]] == -1
    requires forall x :: 0 <= x < |next| && x != s[k - 1] && x != f ==> next'[x] == next[x]
    ensures Chain(next', s[..k]) && Chain(next', s[k..]) && Below(s[..k], |next|)
  {
    var (a, b) := (s[..k], s[k..]);
    forall i | 0 <= i < |s| && i != k - 1
      ensures s[i] < |next| && next'[s[i]] == At(s, i + 1)
    {
      assert s[i] in s && s[i] != s[k - 1];
    }
    forall i | 0 <= i < |a|
      ensures a[i] < |next| && next'[a[i]] == At(a, i + 1)
    {
      assert a[i] == s[i];
    }
    forall i | 0 <= i < |b|
      ensures next'[b[i]] == At(b, i + 1)
    {
      assert next'[s[i + k]] == At(s, i + k + 1);
    }
  }

  lemma SplitPrev(prev: seq<int>, prev': seq<int>, s: seq<nat>, k: nat)
    requires BackChain(prev, s) && NoDup(s) && 0 < k <= |s| && |prev'| == |prev|
    requires forall x :: 0 <= x < |prev| && x != s[0] && (k < |s| ==> x != s[k]) ==> prev'[x] == prev[x]
    ensures BackChain(prev', s[k..])
  {
    var b := s[k..];
    forall i | 1 <= i < |b|
      ensures prev'[b[i]] == b[i - 1]
    {
      assert prev'[s[i + k]] == prev[s[i + k]] == s[i + k - 1];
    }
  }

  lemma AppendPrev(prev: seq<int>, prev': seq<int>, free: seq<nat>, a: seq<nat>, io: seq<nat>, k: nat)
    requires BackChain(prev, free) && BackChain(prev, io) && NoDup(io) && free != [] && 0 < k <= |io| && a == io[..k]
    requires |prev'| == |prev| && forall x :: x in free ==> x !in io
    requires prev'[io[0]] == free[|free| - 1]
    requires forall x :: 0 <= x < |prev| && x != io[0] && (k < |io| ==> x != io[k]) ==> prev'[x] == prev[x]
    ensures BackChain(prev', free + a)
  {
    var r := free + a;
    forall i | 1 <= i < |r|
      ensures prev'[r[i]] == r[i - 1]
    {
      if i < |free| {
        assert free[i] in free && io[0] in io;
        assert prev'[free[i]] == prev[free[i]] == free[i - 1];
      } else if i > |free| {
        assert r[i] == io[i - |free|] && r[i - 1] == io[i - |free| - 1];
        assert prev'[io[i - |free|]] == prev[io[i - |free|]];
      }
    }
  }

  // ----- What happens to a request -----

  /**
   The history of the queue. Requests are numbered as they are enqueued: `serial` gives the number of
   the request in an entry, `due` the target times by number, `doneAt` the completion times of the
   requests that were completed, and `holder` the entry a request was put in.
   */
  datatype Ledger = Ledger(serial: seq<nat>, due: seq<nat>, doneAt: map<nat, nat>, holder: map<nat, nat>)

  /** Every request ever enqueued is either completed, not before its time, or still in flight and not
      completed. */
  ghost predicate LedgerOk(l: Ledger, work: seq<Work>, io: seq<nat>, latest: nat)
  {
    && |l.serial| == |work| && Below(io, |work|)
    && (forall e :: e in io ==> l.serial[e] < |l.due| && l.due[l.serial[e]] == work[e].target)
    && (forall e :: e in io ==> l.serial[e] in l.holder && l.holder[l.serial[e]] == e)
    && (forall e :: e in io ==> (work[e].completed <==> l.serial[e] in l.doneAt))
    && (forall s :: s in l.doneAt ==> s < |l.due| && l.due[s] <= l.doneAt[s] <= latest)
    && (forall s :: 0 <= s < |l.due| && s !in l.doneAt ==>
          s in l.holder && l.holder[s] in io && l.serial[l.holder[s]] == s)
  }

  ghost function Issued(l: Ledger, e: nat, target: nat): Ledger
    requires e < |l.serial|
  {
    Ledger(l.serial[e := |l.due|], l.due + [target], l.doneAt, l.holder[|l.due| := e])
  }

  lemma IssueKeeps(l: Ledger, work: seq<Work>, io: seq<nat>, latest: nat, e: nat, w: Work, p: nat)
    requires LedgerOk(l, work, io, latest) && e < |work| && e !in io && p <= |io| && !w.completed
    ensures LedgerOk(Issued(l, e, w.target), work[e := w], Inserted(io, p, e), latest)
  {
  }

  lemma LaterKeeps(l: Ledger, work: seq<Work>, io: seq<nat>, latest: nat, later: nat)
    requires LedgerOk(l, work, io, latest) && latest <= later
    ensures LedgerOk(l, work, io, later)
  {
  }

  lemma CopyKeeps(l: Ledger, work: seq<Work>, io: seq<nat>, latest: nat, e: nat)
    requires LedgerOk(l, work, io, latest) && e in io
    ensures LedgerOk(l, work[e := work[e].(copied := true)], io, latest)
  {
  }

  lemma CompleteKeeps(l: Ledger, work: seq<Work>, io: seq<nat>, latest: nat, e: nat)
    requires LedgerOk(l, work, io, latest) && e in io && !work[e].completed && work[e].target <= latest
    ensures l.serial[e] !in l.doneAt
    ensures LedgerOk(l.(doneAt := l.doneAt[l.serial[e] := latest]), work[e := work[e].(completed := true)], io, latest)
  {
    forall x | x in io && x != e
      ensures l.serial[x] != l.serial[e]
    {
      assert l.holder[l.serial[x]] == x;
    }
  }

  lemma ReclaimKeeps(l: Ledger, work: seq<Work>, io: seq<nat>, latest: nat, k: nat)
    requires LedgerOk(l, work, io, latest) && k <= |io|
    requires forall i :: 0 <= i < k ==> io[i] < |work| && work[io[i]].completed
    ensures LedgerOk(l, work, io[k..], latest)
  {
    assert io == io[..k] + io[k..];
    forall s | 0 <= s < |l.due| && s !in l.doneAt
      ensures l.holder[s] in io[k..]
    {
      var e := l.holder[s];
      assert e in io && !work[e].completed;
    }
  }

  /** Behind a completed entry of the free list there are only completed ones. */
  ghost predicate UsedLast(work: seq<Work>, free: seq<nat>)
  {
    Below(free, |work|) && forall i, j :: 0 <= i < j < |free| && work[free[i]].completed ==> work[free[j]].completed
  }

  lemma UsedTail(work: seq<Work>, free: seq<nat>, w: Work)
    requires UsedLast(work, free) && NoDup(free) && free != []
    ensures UsedLast(work[free[0] := w], free[1..])
  {
    assert forall i :: 0 <= i < |free[1..]| ==> free[1..][i] == free[i + 1] && free[i + 1] != free[0];
  }

  lemma UsedAppend(work: seq<Work>, free: seq<nat>, s: seq<nat>)
    requires UsedLast(work, free) && Below(s, |work|) && forall i :: 0 <= i < |s| ==> work[s[i]].completed
    ensures UsedLast(work, free + s)
  {
  }

  lemma UsedSame(work: seq<Work>, free: seq<nat>, e: nat, w: Work)
    requires UsedLast(work, free) && e < |work| && e !in free
    ensures UsedLast(work[e := w], free)
  {
    assert forall i :: 0 <= i < |free| ==> free[i] in free;
  }

  class Worker {
    const n: nat                 // entries
    var next: seq<int>
    var prev: seq<int>
    var work: seq<Work>
    var freeSeq: int
    var freeSeqEnd: int
    var ioSeq: int
    var ioSeqEnd: int
    var latest: nat
    var cursor: int
    ghost var free: seq<nat>
    ghost var io: seq<nat>
    ghost var ledger: Ledger

    /** The heads and tails. The tail of an empty list in flight is stale. */
    ghost predicate Ends()
      reads this
    {
      && free != [] && freeSeq == free[0] && freeSeqEnd == free[|free| - 1]
      && ioSeq == At(io, 0) && (io != [] ==> ioSeqEnd == io[|io| - 1])
    }

    /** The worker stands on a request in flight or on a completed one, or its pass is over. */
    ghost predicate CursorOk()
      reads this
    {
      cursor == -1 || (0 <= cursor < |work| && (cursor in io || work[cursor].completed))
    }

    ghost predicate Valid()
      reads this
    {
      && |work| == n
      && Lists(next, prev, n, free, io)
      && Ends()
      && Sorted(work, io, latest)
      && LedgerOk(ledger, work, io, latest)
      && UsedLast(work, free) && CursorOk()
    }

    constructor (entries: nat)
      requires entries > 0
      ensures Valid() && n == entries && io == [] && |free| == entries && ledger.due == [] && latest == 0
    {
      hide Lists, Sorted, LedgerOk, UsedLast;
      n := entries;
      next := seq(entries, i => if i == entries - 1 then -1 else i + 1);
      prev := seq(entries, i => i - 1);
      work := seq(entries, _ => Work(0, false, false, false, 0));
      freeSeq := 0;
      freeSeqEnd := entries - 1;
      ioSeq := -1;
      ioSeqEnd := -1;
      latest := 0;
      cursor := -1;
      free := seq(entries, i => i);
      io := [];
      ledger := Ledger(seq(entries, _ => 0), [], map[], map[]);
      new;
      InitialLists(next, prev, n, free);
      InitialFlags(work, free, ledger);
    }

    /** The backward search for the place of a request: behind the last entry that is overdue or due
        no later. */
    method FindPlace(t: nat) returns (curr: int, ghost p: nat)
      requires Valid() && io != []
      ensures p <= |io| && curr == if p > 0 then io[p - 1] else -1
      ensures RightPlace(work, io, p, t, latest)
    {
      hide Lists, Sorted, LedgerOk, UsedLast;
      LinkFacts(next, prev, n, free, io, 0);
      curr := ioSeqEnd;
      p := |io|;
      while curr != -1
        invariant p <= |io| && curr == if p > 0 then io[p - 1] else -1
        invariant forall i :: p <= i < |io| ==> work[io[i]].target > latest && work[io[i]].target > t
        decreases p
      {
        BackFacts(next, prev, n, free, io, p);
        if work[curr].target <= latest {
          break;
        }
        if work[curr].target <= t {
          break;
        }
        curr := prev[curr];
        p := p - 1;
      }
    }

    method Locate(t: nat) returns (curr: int, ghost p: nat)
      requires Valid()
      ensures p <= |io| && RightPlace(work, io, p, t, latest) && curr == if p > 0 then io[p - 1] else -1
    {
      hide Lists, Sorted, LedgerOk, UsedLast;
      PlaceLinks(0);
      curr, p := -1, 0;
      if ioSeq != -1 {
        curr, p := FindPlace(t);
      }
    }

    /** Links entry `e` into the list in flight behind entry `curr`. */
    method LinkIn(e: nat, curr: int)
      requires |next| == |prev| == n && e < n
      requires ioSeq == -1 || 0 <= ioSeq < n
      requires curr == -1 || (0 <= curr < n && curr != e && (next[curr] == -1 || 0 <= next[curr] < n)
          && next[curr] != e)
      requires ioSeq != e && (curr == -1 ==> ioSeq != -1)
      requires prev[e] == -1 && next[e] == -1
      modifies this`next, this`prev, this`ioSeq, this`ioSeqEnd
      ensures |next| == |prev| == n
      ensures curr == -1 ==>
          next == old(next)[e := old(ioSeq)] && prev == old(prev)[old(ioSeq) := e] && ioSeq == e
          && ioSeqEnd == old(ioSeqEnd)
      ensures curr != -1 ==> ioSeq == old(ioSeq) && next == old(next)[e := old(next)[curr]][curr := e]
      ensures curr != -1 && old(next)[curr] == -1 ==> prev == old(prev)[e := curr] && ioSeqEnd == e
      ensures curr != -1 && old(next)[curr] != -1 ==>
          prev == old(prev)[e := curr][old(next)[curr] := e] && ioSeqEnd == old(ioSeqEnd)
    {
      if curr == -1 {
        prev := prev[ioSeq := e];
        next := next[e := ioSeq];
        ioSeq := e;
      } else if next[curr] == -1 {
        prev := prev[e := curr];
        ioSeqEnd := e;
        next := next[curr := e];
        assert old(next)[e := -1] == old(next);
      } else {
        prev := prev[e := curr];
        next := next[e := next[curr]];
        prev := prev[next[e] := e];
        next := next[curr := e];
      }
    }

    /** What the links say about a place in the list in flight. */
    lemma PlaceLinks(p: nat)
      requires Valid() && p <= |io|
      ensures ioSeq == At(io, 0) && (p > 0 ==> io[p - 1] < n && next[io[p - 1]] == At(io, p))
      ensures |next| == |prev| == n && Below(io, n) && Below(free, n) && free != [] && freeSeq == free[0]
      ensures next[free[0]] == At(free, 1) && (|free| > 1 ==> next[free[0]] >= 0) && free[0] !in io
      ensures free[0] < n
    {
      assert free[0] in free;
      if p > 0 {
        assert next[io[p - 1]] == At(io, p);
      }
    }

    /**
     Enqueues a request. It fails, leaving everything as it was, exactly when only one entry is free;
     so the free list is never empty. Otherwise the request is put where the order demands.
     */
    method Enqueue(target: nat, internal: bool, release: nat) returns (ok: bool, ghost p: nat)
      requires Valid()
      modifies this`next, this`prev, this`work, this`freeSeq, this`ioSeq, this`ioSeqEnd, this`free, this`io, this`ledger
      ensures Valid()
      ensures ok <==> |old(free)| > 1
      ensures !ok ==> io == old(io) && free == old(free) && ledger == old(ledger) && work == old(work)
      ensures ok ==>
          free == old(free)[1..] && old(free)[0] < |old(ledger).serial|
          && ledger == Issued(old(ledger), old(free)[0], target)
      ensures ok ==> RightPlace(old(work), old(io), p, target, latest) && io == Inserted(old(io), p, old(free)[0])
      ensures ok && ByTarget(old(work), old(io)) ==>
          (ByTarget(work, io) <==> NoneLater(old(work), old(io), target, latest))
      ensures ok ==>
          old(free)[0] < |old(work)| && work == old(work)[old(free)[0] := Work(target, false, internal, internal,
          release)]
    {
      hide Lists, Sorted, LedgerOk, UsedLast, ByTarget, NoneLater, RightPlace, Inserted, Issued, Below;
      PlaceLinks(0);
      var e := freeSeq;
      ok, p := next[e] != -1, 0;
      if !ok {
        return;
      }
      var curr;
      curr, p := Locate(target);
      var w := Work(target, false, internal, internal, release);
      if ByTarget(work, io) {
        EnqueuedPlain(work, io, p, e, w, latest);
      }
      EnqueueAt(e, curr, p, w);
    }

    /** The first free entry gets request `w` and place `p` in the list in flight. */
    method EnqueueAt(e: nat, curr: int, ghost p: nat, w: Work)
      requires Valid() && |free| > 1 && e == free[0] && p <= |io| && !w.completed
      requires curr == if p > 0 then io[p - 1] else -1
      requires RightPlace(work, io, p, w.target, latest)
      modifies this`next, this`prev, this`work, this`freeSeq, this`ioSeq, this`ioSeqEnd, this`free, this`io, this`ledger
      ensures Valid()
      ensures free == old(free)[1..] && io == Inserted(old(io), p, e)
      ensures e < |old(ledger).serial| && ledger == Issued(old(ledger), e, w.target)
      ensures e < |old(work)| && work == old(work)[e := w]
    {
      hide Lists, Sorted, LedgerOk, UsedLast, Below, NoDup, Issued, Inserted;
      PlaceLinks(0);
      EnqueueKeeps(p, w);
      CursorKeeps(p, w);
      freeSeq := next[e];
      LinkFirstFree(e, curr, p);
      work := work[e := w];
      free := free[1..];
      io := Inserted(io, p, e);
      ledger := Issued(ledger, e, w.target);
    }

    /** Takes the first free entry out of the free list and links it into the list in flight. */
    method LinkFirstFree(e: nat, curr: int, ghost p: nat)
      requires Lists(next, prev, n, free, io) && |free| > 1 && e == free[0] && p <= |io|
      requires ioSeq == At(io, 0) && (io != [] ==> ioSeqEnd == io[|io| - 1])
      requires curr == if p > 0 then io[p - 1] else -1
      modifies this`next, this`prev, this`ioSeq, this`ioSeqEnd
      ensures Lists(next, prev, n, free[1..], Inserted(io, p, free[0]))
      ensures ioSeq == Inserted(io, p, free[0])[0] && ioSeqEnd == Inserted(io, p, free[0])[|io|]
    {
      hide Lists;
      LinkFacts(next, prev, n, free, io, p);
      prev := prev[e := -1];
      next := next[e := -1];
      if ioSeq == -1 {
        ioSeq := e;
        ioSeqEnd := e;
      } else {
        LinkIn(e, curr);
      }
      ListsInsert(old(next), old(prev), next, prev, n, free, io, p);
    }

    /** Order, history and flags when the first free entry gets request `w` and place `p`. */
    lemma EnqueueKeeps(p: nat, w: Work)
      requires Valid() && |free| > 1 && p <= |io| && !w.completed
      requires RightPlace(work, io, p, w.target, latest)
      ensures free[0] < n && free[0] < |ledger.serial|
      ensures Sorted(work[free[0] := w], Inserted(io, p, free[0]), latest)
      ensures LedgerOk(Issued(ledger, free[0], w.target), work[free[0] := w], Inserted(io, p, free[0]), latest)
      ensures UsedLast(work[free[0] := w], free[1..])
    {
      hide Lists, Sorted, LedgerOk, UsedLast;
      LinkFacts(next, prev, n, free, io, p);
      SerialSize();
      var e := free[0];
      assert forall i :: 0 <= i < |io| ==> io[i] in io && io[i] != e;
      SortedSame(work, work[e := w], io, latest);
      InsertSorted(work[e := w], io, p, e, latest);
      IssueKeeps(ledger, work, io, latest, e, w, p);
      UsedTail(work, free, w);
    }

    lemma SerialSize()
      requires Valid()
      ensures |ledger.serial| == n && NoDup(free)
    {
    }

    /** The worker's cursor stays good: it may even stand on the entry that is being reused. */
    lemma CursorKeeps(p: nat, w: Work)
      requires Valid() && p <= |io| && free[0] < n
      ensures cursor == -1 || (0 <= cursor < n && (cursor in Inserted(io, p, free[0])
          || work[free[0] := w][cursor].completed))
      ensures |free| > 1 ==> next[free[0]] == free[1]
    {
      assert next[free[0]] == At(free, 1);
    }

    /** The worker starts a pass at the head of the list in flight. */
    method StartPass()
      requires Valid()
      modifies this`cursor
      ensures Valid() && cursor == ioSeq
    {
      hide Lists, Sorted, LedgerOk, UsedLast;
      LinkFacts(next, prev, n, free, io, 0);
      assert io != [] ==> io[0] in io;
      cursor := ioSeq;
    }

    /** Where the cursor goes: to the next entry, which is again in flight or completed. */
    lemma NextCursor()
      requires Valid() && cursor != -1
      ensures 0 <= cursor < n == |next| == |work|
      ensures next[cursor] == -1 || (0 <= next[cursor] < n && (next[cursor] in io || work[next[cursor]].completed))
    {
      if cursor in io {
        var i :| 0 <= i < |io| && io[i] == cursor;
        assert next[io[i]] == At(io, i + 1);
      } else {
        assert cursor in free;
        var i :| 0 <= i < |free| && free[i] == cursor;
        assert next[free[i]] == At(free, i + 1);
      }
    }

    /**
     The worker visits the entry under its cursor at time `now`. A completed entry is passed over.
     Otherwise the data is copied, and if the request is due it is completed: an internal
     operation gives its buffer space back, any other is reported to the host.
     */
    method Visit(now: nat) returns (completes: bool, released: nat)
      requires Valid() && cursor != -1 && now >= latest
      modifies this`work, this`latest, this`cursor, this`ledger
      ensures Valid() && latest == now && cursor == old(next)[old(cursor)]
      ensures completes <==> !old(work)[old(cursor)].completed && old(work)[old(cursor)].target <= now
      ensures completes ==> old(cursor) in io && ledger.due == old(ledger).due
      ensures completes ==> old(ledger).serial[old(cursor)] !in old(ledger).doneAt
                            && ledger.doneAt == old(ledger).doneAt[old(ledger).serial[old(cursor)] := now]
      ensures !completes ==> ledger == old(ledger)
      ensures work == if old(work)[old(cursor)].completed then old(work)
                      else old(work)[old(cursor) := old(work)[old(cursor)].(copied := true, completed := completes)]
      ensures released == if completes && old(work)[old(cursor)].internal then old(work)[old(cursor)].release else 0
    {
      hide Lists, Sorted, LedgerOk, UsedLast;
      NextCursor();
      SerialSize();
      LinkFacts(next, prev, n, free, io, 0);
      completes, released := false, 0;
      var curr := cursor;
      cursor := next[curr];
      LaterKeeps(ledger, work, io, latest, now);
      SortedLater(work, io, latest, now);
      latest := now;
      if work[curr].completed {
        return;
      }
      completes := work[curr].target <= now;
      CopyAndComplete(curr, completes);
      if completes && work[curr].internal {
        released := work[curr].release;
      }
    }

    /** Copies the data of a request in flight and marks it completed if it is due. */
    method CopyAndComplete(e: nat, completes: bool)
      requires Valid() && e < n && e in io && !work[e].completed && (completes ==> work[e].target <= latest)
      requires e < |ledger.serial|
      modifies this`work, this`ledger
      ensures Valid()
      ensures ledger == if completes then old(ledger).(doneAt := old(ledger).doneAt[old(ledger).serial[e] := latest])
          else old(ledger)
      ensures work == old(work)[e := old(work)[e].(copied := true, completed := completes)]
      ensures completes ==> old(ledger).serial[e] !in old(ledger).doneAt
    {
      hide Lists, Sorted, LedgerOk, UsedLast;
      NotFree(e);
      ghost var w := work[e].(copied := true);
      CopyKeeps(ledger, work, io, latest, e);
      SortedSame(work, work[e := w], io, latest);
      UsedSame(work, free, e, w);
      work := work[e := work[e].(copied := true)];
      if completes {
        CompleteKeeps(ledger, work, io, latest, e);
        SortedSame(work, work[e := work[e].(completed := true)], io, latest);
        UsedSame(work, free, e, work[e].(completed := true));
        ledger := ledger.(doneAt := ledger.doneAt[ledger.serial[e] := latest]);
        work := work[e := work[e].(completed := true)];
      }
    }

    lemma NotFree(e: nat)
      requires Valid() && e in io
      ensures e !in free
    {
    }

    /** How many requests at the head of the list in flight can be reclaimed. */
    method CountReclaimable() returns (last: int, ghost k: nat)
      requires Valid()
      ensures k <= |io| && last == (if k > 0 then io[k - 1] else -1)
      ensures forall i :: 0 <= i < k ==>
                io[i] < n && work[io[i]].completed && work[io[i]].copied && work[io[i]].target <= latest
      ensures k < |io| ==> io[k] < n && !(work[io[k]].completed && work[io[k]].copied && work[io[k]].target <= latest)
    {
      hide Lists, Sorted, LedgerOk, UsedLast;
      LinkFacts(next, prev, n, free, io, 0);
      last, k := -1, 0;
      var curr := ioSeq;
      while curr != -1
        invariant k <= |io| && curr == At(io, k) && last == (if k > 0 then io[k - 1] else -1)
        invariant forall i :: 0 <= i < k ==>
                    io[i] < n && work[io[i]].completed && work[io[i]].copied && work[io[i]].target <= latest
        decreases |io| - k
      {
        if !(work[curr].completed && work[curr].copied && work[curr].target <= latest) {
          break;
        }
        LinkFacts(next, prev, n, free, io, k + 1);
        last := curr;
        curr := next[curr];
        k := k + 1;
      }
    }

    /**
     Reclaims the longest prefix of the list in flight whose requests are completed and overdue: the
     entries go to the end of the free list, in order. The tail of the list in flight is not
     reset when the list becomes empty.
     */
    method Reclaim() returns (ghost k: nat)
      requires Valid()
      modifies this`next, this`prev, this`ioSeq, this`freeSeqEnd, this`free, this`io
      ensures Valid() && k <= |old(io)|
      ensures io == old(io)[k..] && free == old(free) + old(io)[..k]
      ensures forall i :: 0 <= i < k ==> old(io)[i] < n && work[old(io)[i]].completed
      ensures io != [] ==> io[0] < n && !(work[io[0]].completed && work[io[0]].copied && work[io[0]].target <= latest)
    {
      hide Lists, Sorted, LedgerOk, UsedLast;
      var last;
      last, k := CountReclaimable();
      if last == -1 {
        return;
      }
      ReclaimFacts(k);
      Relink(last, k);
      free := free + io[..k];
      io := io[k..];
    }

    /** Order, history and flags when the first `k` requests in flight are reclaimed. */
    lemma ReclaimFacts(k: nat)
      requires Valid() && 0 < k <= |io|
      requires forall i :: 0 <= i < k ==> io[i] < n && work[io[i]].completed
      ensures Sorted(work, io[k..], latest) && LedgerOk(ledger, work, io[k..], latest) && UsedLast(work, free + io[..k])
      ensures cursor == -1 || (0 <= cursor < n && (cursor in io[k..] || work[cursor].completed))
    {
      hide Lists, LedgerOk, UsedLast;
      ReclaimKeeps(ledger, work, io, latest, k);
      UsedAppend(work, free, io[..k]);
      if cursor in io {
        var i :| 0 <= i < |io| && io[i] == cursor;
        if i >= k {
          assert io[k..][i - k] == cursor;
        }
      }
    }

    /** Moves the entries from the head of the list in flight to `last` behind the free list. */
    method Relink(last: int, ghost k: nat)
      requires Lists(next, prev, n, free, io) && Ends() && 0 < k <= |io| && last == io[k - 1]
      modifies this`next, this`prev, this`ioSeq, this`freeSeqEnd
      ensures Lists(next, prev, n, free + io[..k], io[k..])
      ensures ioSeq == At(io[k..], 0) && freeSeqEnd == last
    {
      hide Lists;
      LinkFacts(next, prev, n, free, io, k);
      ReclaimLinks(next, prev, n, free, io, k);
      var first := ioSeq;
      ioSeq := next[last];
      if next[last] != -1 {
        prev := prev[next[last] := -1];
      }
      next := next[last := -1];
      prev := prev[first := freeSeqEnd];
      next := next[freeSeqEnd := first];
      freeSeqEnd := last;
      ListsReclaim(old(next), old(prev), next, prev, n, free, io, k);
    }
  }

  // ----- Runs -----

  /** The steps of the dispatcher and of the worker; a visit happens `delta` after the last clock reading. */
  datatype Step = Enqueued(target: nat, internal: bool, release: nat) | PassStarted | Visited(delta: nat) | Reclaimed

  /**
   Any run of the queue. The invariant holds throughout, no request is lost, and no completion is ever
   undone or repeated: a completion time once recorded never changes.
   */
  method Run(w: Worker, steps: seq<Step>)
    requires w.Valid()
    modifies w
    ensures w.Valid() && old(w.ledger.due) <= w.ledger.due
    ensures forall s :: s in old(w.ledger.doneAt) ==>
              s in w.ledger.doneAt && w.ledger.doneAt[s] == old(w.ledger).doneAt[s]
  {
    hide Worker.Valid;
    for i := 0 to |steps|
      invariant w.Valid() && old(w.ledger.due) <= w.ledger.due
      invariant forall s :: s in old(w.ledger.doneAt) ==>
                  s in w.ledger.doneAt && w.ledger.doneAt[s] == old(w.ledger).doneAt[s]
    {
      match steps[i] {
        case Enqueued(target, internal, release) =>
          var ok, p := w.Enqueue(target, internal, release);
        case PassStarted =>
          w.StartPass();
        case Visited(delta) =>
          if w.cursor != -1 {
            var completes, released := w.Visit(w.latest + delta);
          }
        case Reclaimed =>
          var k := w.Reclaim();
      }
    }
  }

  /**
   A run that breaks plain order by target time: a request due at 9 is visited at 10 and is still in the
   list when one due at 3 comes in.
   */
  method LateRun() returns (w: Worker)
    ensures w.Valid() && !ByTarget(w.work, w.io)
  {
    hide Worker.Valid;
    w := new Worker(3);
    var ok, p := w.Enqueue(9, false, 0);
    w.StartPass();
    HeadInFlight(w);
    var _, _ := w.Visit(10);
    assert ByTarget(w.work, w.io) && !NoneLater(w.work, w.io, 3, w.latest);
    ok, p := w.Enqueue(3, false, 0);
  }

  lemma HeadInFlight(w: Worker)
    requires w.Valid() && w.io != []
    ensures w.ioSeq == w.io[0] && w.io[0] < |w.work|
  {
    hide LedgerOk, UsedLast, Sorted;
    LinkFacts(w.next, w.prev, w.n, w.free, w.io, 1);
  }

  lemma ReclaimLinks(next: seq<int>, prev: seq<int>, n: nat, free: seq<nat>, io: seq<nat>, k: nat)
    requires Lists(next, prev, n, free, io) && 0 < k <= |io|
    ensures free[|free| - 1] < n && free[|free| - 1] !in io && io[0] < n && io[k - 1] < n
    ensures io[k - 1] != free[|free| - 1] && io[0] != free[|free| - 1]
    ensures k < |io| ==> io[k] != io[0] && io[k] != free[|free| - 1]
  {
    assert free[|free| - 1] in free;
    assert forall i :: 0 <= i < |io| ==> io[i] in io;
  }

  /** What the links say about the first free entry and about a place in the list in flight. */
  lemma LinkFacts(next: seq<int>, prev: seq<int>, n: nat, free: seq<nat>, io: seq<nat>, p: nat)
    requires Lists(next, prev, n, free, io) && p <= |io|
    ensures |next| == |prev| == n && Below(io, n) && Below(free, n) && free[0] !in io && free[0] < n
    ensures next[free[0]] == At(free, 1)
    ensures p > 0 ==> next[io[p - 1]] == At(io, p)
    ensures io != [] ==> next[io[|io| - 1]] == -1
    ensures p < |io| ==> io[p] != free[0]
    ensures p > 0 ==> io[p - 1] != free[0]
    ensures io != [] ==> io[0] != free[0]
    ensures 0 < p < |io| ==> io[p] != io[p - 1]
    ensures At(io, p) != free[0]
  {
    assert free[0] in free;
    assert forall i :: 0 <= i < |io| ==> io[i] in io;
    if p > 0 {
      assert next[io[p - 1]] == At(io, p);
    }
    if io != [] {
      assert next[io[|io| - 1]] == At(io, |io|);
    }
  }

  lemma BackFacts(next: seq<int>, prev: seq<int>, n: nat, free: seq<nat>, io: seq<nat>, p: nat)
    requires Lists(next, prev, n, free, io) && 0 < p <= |io|
    ensures |prev| == n && io[p - 1] < n && prev[io[p - 1]] == if p > 1 then io[p - 2] else -1
  {
    if p > 1 {
      assert prev[io[p - 1]] == io[p - 2];
    }
  }

  lemma InitialLists(next: seq<int>, prev: seq<int>, n: nat, free: seq<nat>)
    requires n > 0 && |next| == |prev| == |free| == n
    requires forall i :: 0 <= i < n ==> next[i] == if i == n - 1 then -1 else i + 1
    requires forall i :: 0 <= i < n ==> prev[i] == i - 1
    requires forall i :: 0 <= i < n ==> free[i] == i
    ensures Lists(next, prev, n, free, [])
  {
    forall x | 0 <= x < n
      ensures x in free
    {
      assert free[x] == x;
    }
  }

  lemma InitialFlags(work: seq<Work>, free: seq<nat>, l: Ledger)
    requires |work| == |free| == |l.serial| && l.due == [] && l.doneAt == map[]
    requires forall i :: 0 <= i < |work| ==> free[i] == i && !work[i].completed
    ensures UsedLast(work, free) && Sorted(work, [], 0) && LedgerOk(l, work, [], 0)
  {
  }
}
