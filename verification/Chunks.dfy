/**
 The work lists of the fragmenting rewriter: chunks of logical pages, one list of chunks for every
 partition and every slice of the address space.

 Logical page `l` of the namespace belongs to partition `l % parts`. A chunk covers the logical
 pages `start`, `start + parts`, and so on up to `end`, all of one partition.
 */
module Chunks {
  import opened Arithmetic
  import opened Geometry

  const TWO64: nat := 0x1_0000_0000_0000_0000

  datatype Option<T> = None | Some(value: T)

  datatype Chunk = Chunk(start: nat, end: nat, size: nat, idx: nat, die: Option<Die>, conti: int)

  /** The logical pages of a chunk. */
  ghost function Lpns(c: Chunk, parts: nat): (s: set<nat>)
    requires parts > 0
    ensures forall l :: l in s <==> c.start <= l <= c.end && l % parts == c.idx
  {
    LpnSet(c.start, c.end, c.idx, parts)
  }

  ghost function LpnSet(start: nat, end: nat, idx: nat, parts: nat): (s: set<nat>)
    requires parts > 0
    ensures forall l :: l in s <==> start <= l <= end && l % parts == idx
  {
    set l: nat | start <= l <= end && l % parts == idx
  }

  ghost function LpnsOf(cs: seq<Chunk>, parts: nat): multiset<nat>
    requires parts > 0
  {
    if cs == [] then multiset{} else multiset(Lpns(cs[0], parts)) + LpnsOf(cs[1..], parts)
  }

  ghost function Pending(lists: seq<seq<Chunk>>, parts: nat): multiset<nat>
    requires parts > 0
  {
    if lists == [] then multiset{} else LpnsOf(lists[0], parts) + Pending(lists[1..], parts)
  }

  ghost function TotalLen(lists: seq<seq<Chunk>>): nat
  {
    if lists == [] then 0 else |lists[0]| + TotalLen(lists[1..])
  }

  lemma {:induction false} LpnsAppend(cs: seq<Chunk>, ds: seq<Chunk>, parts: nat)
    requires parts > 0
    ensures LpnsOf(cs + ds, parts) == LpnsOf(cs, parts) + LpnsOf(ds, parts)
  {
    if cs == [] {
      assert cs + ds == ds;
    } else {
      LpnsAppend(cs[1..], ds, parts);
      assert (cs + ds)[1..] == cs[1..] + ds && (cs + ds)[0] == cs[0];
      var a := multiset(Lpns(cs[0], parts));
      assert a + (LpnsOf(cs[1..], parts) + LpnsOf(ds, parts)) == (a + LpnsOf(cs[1..], parts)) + LpnsOf(ds, parts);
    }
  }

  lemma LpnsOne(c: Chunk, parts: nat)
    requires parts > 0
    ensures LpnsOf([c], parts) == multiset(Lpns(c, parts))
  {
  }

  /** A list split at one of its chunks. */
  lemma LpnsAt(cs: seq<Chunk>, j: nat, parts: nat)
    requires parts > 0 && j < |cs|
    ensures LpnsOf(cs, parts) == LpnsOf(cs[..j] + cs[j + 1..], parts) + multiset(Lpns(cs[j], parts))
  {
    assert cs == cs[..j] + ([cs[j]] + cs[j + 1..]);
    LpnsAppend(cs[..j], [cs[j]] + cs[j + 1..], parts);
    LpnsAppend([cs[j]], cs[j + 1..], parts);
    LpnsAppend(cs[..j], cs[j + 1..], parts);
    LpnsOne(cs[j], parts);
  }

  lemma LpnsReplace(cs: seq<Chunk>, j: nat, c: Chunk, parts: nat)
    requires parts > 0 && j < |cs|
    ensures LpnsOf(cs[j := c], parts) + multiset(Lpns(cs[j], parts)) == LpnsOf(cs, parts) + multiset(Lpns(c, parts))
  {
    LpnsAt(cs, j, parts);
    LpnsAt(cs[j := c], j, parts);
    assert cs[j := c][..j] + cs[j := c][j + 1..] == cs[..j] + cs[j + 1..];
  }

  lemma TakeOut(cs: seq<Chunk>, j: nat)
    requires j < |cs|
    ensures multiset(cs[..j] + cs[j + 1..]) == multiset(cs) - multiset{cs[j]}
  {
    assert cs == cs[..j] + [cs[j]] + cs[j + 1..];
  }

  /** Where the first element of a list is in a permutation of the list. */
  lemma PermutedRest(cs: seq<Chunk>, ds: seq<Chunk>) returns (j: nat)
    requires cs != [] && multiset(cs) == multiset(ds)
    ensures j < |ds| && ds[j] == cs[0]
    ensures multiset(cs[1..]) == multiset(ds[..j] + ds[j + 1..])
  {
    assert cs[0] in multiset(ds);
    j :| 0 <= j < |ds| && ds[j] == cs[0];
    TakeOut(ds, j);
    assert cs == [cs[0]] + cs[1..];
  }

  /** The order of a list does not matter: sorting it changes nothing. */
  lemma {:induction false} LpnsPermuted(cs: seq<Chunk>, ds: seq<Chunk>, parts: nat)
    requires parts > 0 && multiset(cs) == multiset(ds)
    ensures LpnsOf(cs, parts) == LpnsOf(ds, parts)
    decreases |cs|
  {
    if cs == [] {
      assert |multiset(ds)| == 0;
      assert ds == [];
    } else {
      var j := PermutedRest(cs, ds);
      LpnsPermuted(cs[1..], ds[..j] + ds[j + 1..], parts);
      LpnsAt(ds, j, parts);
    }
  }

  lemma {:induction false} PendingUpdate(lists: seq<seq<Chunk>>, k: nat, cs: seq<Chunk>, parts: nat)
    requires parts > 0 && k < |lists|
    ensures Pending(lists[k := cs], parts) + LpnsOf(lists[k], parts) == Pending(lists, parts) + LpnsOf(cs, parts)
    ensures TotalLen(lists[k := cs]) + |lists[k]| == TotalLen(lists) + |cs|
  {
    var (x, y) := (LpnsOf(lists[k], parts), LpnsOf(cs, parts));
    if k > 0 {
      var (rest, rest') := (lists[1..], lists[1..][k - 1 := cs]);
      PendingUpdate(rest, k - 1, cs, parts);
      assert lists[k := cs][1..] == rest';
      assert rest[k - 1] == lists[k];
      MoveAcross(LpnsOf(lists[0], parts), Pending(rest, parts), Pending(rest', parts), x, y);
    } else {
      assert lists[k := cs][1..] == lists[1..];
      Swap3(y, Pending(lists[1..], parts), x);
    }
  }

  lemma MoveAcross(a: multiset<nat>, r: multiset<nat>, r': multiset<nat>, x: multiset<nat>, y: multiset<nat>)
    requires r' + x == r + y
    ensures (a + r') + x == (a + r) + y
  {
    assert (a + r') + x == a + (r' + x);
    assert (a + r) + y == a + (r + y);
  }

  lemma Swap3(a: multiset<nat>, b: multiset<nat>, c: multiset<nat>)
    ensures (a + b) + c == (c + b) + a
  {
  }

  lemma {:induction false} PendingEmpty(lists: seq<seq<Chunk>>, parts: nat)
    requires parts > 0 && forall k :: 0 <= k < |lists| ==> lists[k] == []
    ensures Pending(lists, parts) == multiset{} && TotalLen(lists) == 0
  {
    if lists != [] {
      PendingEmpty(lists[1..], parts);
    }
  }

  /** A chunk that is pending in some list contributes its pages. */
  lemma {:induction false} PendingHas(lists: seq<seq<Chunk>>, k: nat, j: nat, parts: nat)
    requires parts > 0 && k < |lists| && j < |lists[k]|
    ensures multiset(Lpns(lists[k][j], parts)) <= Pending(lists, parts)
  {
    hide Pending;
    var (cs, c) := (lists[k], lists[k][j]);
    PendingUpdate(lists, k, [], parts);
    assert Pending(lists, parts) + LpnsOf([], parts) == Pending(lists, parts);
    LpnsAt(cs, j, parts);
    AddLe(Pending(lists[k := []], parts), LpnsOf(cs, parts), Pending(lists, parts));
    AddLe(LpnsOf(cs[..j] + cs[j + 1..], parts), multiset(Lpns(c, parts)), LpnsOf(cs, parts));
  }

  lemma AddLe(a: multiset<nat>, x: multiset<nat>, b: multiset<nat>)
    requires a + x == b
    ensures x <= b
  {
    assert forall l :: x[l] <= (a + x)[l];
  }

  lemma PendingReplace(lists: seq<seq<Chunk>>, k: nat, j: nat, c: Chunk, parts: nat)
    requires parts > 0 && k < |lists| && j < |lists[k]|
    ensures var r := lists[k := lists[k][j := c]];
            && Pending(r, parts) + multiset(Lpns(lists[k][j], parts)) == Pending(lists, parts) +
                multiset(Lpns(c, parts))
            && TotalLen(r) == TotalLen(lists)
  {
    hide Pending, LpnsOf;
    PendingUpdate(lists, k, lists[k][j := c], parts);
    LpnsReplace(lists[k], j, c, parts);
    Chain(Pending(lists[k := lists[k][j := c]], parts), LpnsOf(lists[k], parts), Pending(lists, parts),
        LpnsOf(lists[k][j := c], parts),
          multiset(Lpns(lists[k][j], parts)), multiset(Lpns(c, parts)));
  }

  lemma Chain(p': multiset<nat>, x: multiset<nat>, p: multiset<nat>, y: multiset<nat>, a: multiset<nat>,
      b: multiset<nat>)
    requires p' + x == p + y && y + a == x + b
    ensures p' + a == p + b
  {
    forall l
      ensures (p' + a)[l] == (p + b)[l]
    {
      assert (p' + x)[l] == (p + y)[l];
      assert (y + a)[l] == (x + b)[l];
    }
  }

  lemma PendingRemove(lists: seq<seq<Chunk>>, k: nat, j: nat, parts: nat)
    requires parts > 0 && k < |lists| && j < |lists[k]|
    ensures var r := lists[k := lists[k][..j] + lists[k][j + 1..]];
            && Pending(lists, parts) == Pending(r, parts) + multiset(Lpns(lists[k][j], parts))
            && TotalLen(r) == TotalLen(lists) - 1
  {
    hide Pending, LpnsOf;
    var cs := lists[k][..j] + lists[k][j + 1..];
    PendingUpdate(lists, k, cs, parts);
    LpnsAt(lists[k], j, parts);
    Cancel(Pending(lists, parts), LpnsOf(cs, parts), Pending(lists[k := cs], parts),
        multiset(Lpns(lists[k][j], parts)));
  }

  lemma PendingAppend(lists: seq<seq<Chunk>>, k: nat, c: Chunk, parts: nat)
    requires parts > 0 && k < |lists|
    ensures var r := lists[k := lists[k] + [c]];
            && Pending(r, parts) == Pending(lists, parts) + multiset(Lpns(c, parts))
            && TotalLen(r) == TotalLen(lists) + 1
  {
    hide Pending, LpnsOf;
    PendingUpdate(lists, k, lists[k] + [c], parts);
    LpnsAppend(lists[k], [c], parts);
    assert LpnsOf([c], parts) == multiset(Lpns(c, parts)) by { LpnsOne(c, parts); }
    Cancel(Pending(lists[k := lists[k] + [c]], parts), LpnsOf(lists[k], parts), Pending(lists, parts),
        multiset(Lpns(c, parts)));
  }

  lemma Cancel(a: multiset<nat>, x: multiset<nat>, b: multiset<nat>, y: multiset<nat>)
    requires a + x == b + (x + y)
    ensures a == b + y
  {
    forall l
      ensures a[l] == (b + y)[l]
    {
      assert (a + x)[l] == (b + (x + y))[l];
    }
  }

  // ----- Stepping through a chunk -----

  /** The first page of a chunk, and the rest. */
  lemma FirstLpn(c: Chunk, parts: nat)
    requires parts > 0 && c.start % parts == c.idx && c.start <= c.end
    ensures (c.start + parts) % parts == c.idx
    ensures c.start !in Lpns(c.(start := c.start + parts), parts)
    ensures Lpns(c, parts) == {c.start} + Lpns(c.(start := c.start + parts), parts)
  {
    ModAdd(c.start, parts);
    forall l | l in Lpns(c, parts) && l != c.start
      ensures l >= c.start + parts
    {
      ModGap(c.start, l, parts);
    }
  }

  lemma NoLpns(c: Chunk, parts: nat)
    requires parts > 0 && c.start > c.end
    ensures Lpns(c, parts) == {}
  {
  }

  // ----- Building the lists -----

  /** Logical page `l` is mapped. */
  ghost function Mapped(m: seq<bool>): (s: set<nat>)
    ensures forall l :: l in s <==> 0 <= l < |m| && m[l]
  {
    set l: nat | 0 <= l < |m| && m[l]
  }

  /** A run of mapped pages ends before every partition was reached: page `last` is mapped, the next
      one is not, and a partition beyond `last` exists. */
  ghost predicate ShortRunAt(m: seq<bool>, parts: nat, last: nat)
  {
    last + 1 < parts && last + 1 < |m| && m[last] && !m[last + 1]
  }

  /** The chunk that partition `i` gets of the run of mapped pages `first .. last`. The end wraps
      around below zero, as the unsigned subtraction of the source does. */
  function RunChunk(first: nat, last: nat, count: nat, i: nat, parts: nat): Chunk
    requires 0 < parts <= TWO64 && i < parts
  {
    var startDiff := (i + parts - first % parts) % parts;
    var endDiff := (last % parts + parts - i) % parts;
    Chunk(first + startDiff, if endDiff <= last then last - endDiff else last + TWO64 - endDiff, count, i, None, -1)
  }

  /** Two partitions and one mapped page, page 0: the chunk of partition 1 runs to the end of the number range. */
  lemma ShortRunExample()
    ensures ShortRunAt([true, false, false, false], 2, 0)
    ensures RunChunk(0, 0, 1, 1, 2) == Chunk(1, TWO64 - 1, 1, 1, None, -1)
  {
  }

  /** The start is the first number at or above `first` with remainder `i`. */
  lemma RunStart(first: nat, i: nat, parts: nat)
    requires parts > 0 && i < parts
    ensures var s := first + (i + parts - first % parts) % parts;
            s % parts == i && s < first + parts
  {
    var (q, r) := (first / parts, first % parts);
    var p := q * parts;
    assert first == p + r;
    Below2(i + parts - r, parts);
    var s := first + (i + parts - r) % parts;
    if i >= r {
      assert s == p + i;
      DivUnique(s, parts, q, i);
    } else {
      assert s == p + parts + i;
      RowUp(s, q, i, parts);
    }
  }

  /** The end is the last number at or below `last` with remainder `i`, when there is one. */
  lemma RunEnd(last: nat, i: nat, parts: nat)
    requires parts > 0 && i < parts
    ensures var d := (last % parts + parts - i) % parts;
            && d < parts
            && (d > last <==> last < i)
            && (d <= last ==> (last - d) % parts == i)
  {
    var p := RowBase(last, i, parts);
    Below2(last % parts + parts - i, parts);
  }

  /** The multiple of `parts` below a number, and the numbers with remainder `i` around it. */
  lemma RowBase(last: nat, i: nat, parts: nat) returns (p: nat)
    requires i < parts
    ensures last == p + last % parts && (p == 0 || p >= parts)
    ensures (p + i) % parts == i && (p >= parts ==> (p - parts + i) % parts == i)
  {
    var q := last / parts;
    p := q * parts;
    DivUnique(p + i, parts, q, i);
    if q > 0 {
      MulStep(q, parts);
      DivUnique(p - parts + i, parts, q - 1, i);
    }
  }

  /** The chunk of partition `i` holds exactly the pages of the run that belong to the partition,
      unless the end wrapped around. */
  lemma RunChunkLpns(first: nat, last: nat, count: nat, i: nat, parts: nat)
    requires 0 < parts <= TWO64 && i < parts && first <= last < TWO64
    ensures var c := RunChunk(first, last, count, i, parts);
            && c.idx == i && c.start % parts == i
            && (i <= last ==> forall l :: l in Lpns(c, parts) <==> first <= l <= last && l % parts == i)
            && (last < i ==> last + parts + TWO64 > c.end >= TWO64 - parts)
  {
    var c := RunChunk(first, last, count, i, parts);
    RunStart(first, i, parts);
    RunEnd(last, i, parts);
    if i <= last {
      forall l | l in Lpns(c, parts) || (first <= l <= last && l % parts == i)
        ensures l in Lpns(c, parts) && first <= l <= last
      {
        if l < c.start {
          ModGap(l, c.start, parts);
        }
        if l > c.end {
          ModGap(c.end, l, parts);
        }
      }
    }
  }

  /** The list of partition `i` and slice `c`. */
  function Slot(i: nat, c: nat, num: nat): nat { i * num + c }

  /** A chunk is in a list of its own partition and starts on a page of it. */
  ghost predicate InSlot(c: Chunk, k: nat, num: nat, parts: nat)
  {
    parts > 0 && c.idx < parts && Slot(c.idx, 0, num) <= k < Slot(c.idx, 0, num) + num && c.start % parts == c.idx
  }

  ghost predicate Shaped(lists: seq<seq<Chunk>>, num: nat, parts: nat)
  {
    forall k, j :: 0 <= k < |lists| && 0 <= j < |lists[k]| ==> InSlot(lists[k][j], k, num, parts)
  }

  lemma SlotOf(i: nat, c: nat, num: nat, parts: nat)
    requires i < parts && c < num
    ensures Slot(i, c, num) < parts * num
    ensures Slot(i, 0, num) <= Slot(i, c, num) < Slot(i, 0, num) + num
    ensures forall x: Chunk :: InSlot(x, Slot(i, c, num), num, parts) ==> x.idx == i
  {
    Radix(i, i, parts, num, c, c);
    forall x: Chunk | InSlot(x, Slot(i, c, num), num, parts)
      ensures x.idx == i
    {
      Radix(i, x.idx, parts, num, c, Slot(i, c, num) - Slot(x.idx, 0, num));
    }
  }

  /** The numbers of a range that belong to the first `n` partitions. */
  ghost function RunUpTo(first: nat, last: nat, n: nat, parts: nat): (s: set<nat>)
    requires parts > 0
    ensures forall l :: l in s <==> first <= l <= last && l % parts < n
  {
    set l: nat | first <= l <= last && l % parts < n
  }

  /** The pages `first .. last` are mapped, and the run of mapped pages goes no further on either side. */
  ghost predicate RunAt(m: seq<bool>, first: nat, last: nat)
  {
    && first <= last < |m| && (forall l :: first <= l <= last ==> m[l])
    && (first == 0 || !m[first - 1]) && (last + 1 == |m| || !m[last + 1])
  }

  /** The slice of a page: as many pages to a slice as the pages divided by the slices, and the rest in the last one. */
  ghost function SliceOf(page: nat, pages: nat, num: nat): nat
    requires num > 0
  {
    SliceAt(page + 1, if pages / num > 0 then pages / num else 1, num)
  }

  ghost function SliceAt(counted: nat, width: nat, num: nat): nat
    requires num > 0 && width > 0
  {
    if counted / width < num then counted / width else num - 1
  }

  /** A chunk in list `k` is its partition's share of a run, with the length of the run as its size; the list is that of
      the slice of the page that ended the run. */
  ghost predicate CutFrom(m: seq<bool>, c: Chunk, k: nat, num: nat, parts: nat)
    requires num > 0 && 0 < parts <= TWO64
  {
    exists first: nat, last: nat ::
      && RunAt(m, first, last) && c.idx < parts
      && c == RunChunk(first, last, last - first + 1, c.idx, parts)
      && k == Slot(c.idx, SliceOf(if last + 1 < |m| then last + 1 else last, |m|, num), num)
  }

  ghost predicate AllCut(m: seq<bool>, lists: seq<seq<Chunk>>, num: nat, parts: nat)
    requires num > 0 && 0 < parts <= TWO64
  {
    forall k, j :: 0 <= k < |lists| && 0 <= j < |lists[k]| ==> CutFrom(m, lists[k][j], k, num, parts)
  }

  /** The run `first .. last` of `count` pages is complete, and slice `cur` is that of the page that ended it. */
  ghost predicate Cutting(m: seq<bool>, first: nat, last: nat, count: nat, cur: nat, num: nat)
    requires num > 0
  {
    && RunAt(m, first, last) && count == last - first + 1
    && cur == SliceOf(if last + 1 < |m| then last + 1 else last, |m|, num)
  }

  lemma CutAppend(m: seq<bool>, lists: seq<seq<Chunk>>, first: nat, last: nat, count: nat, i: nat, cur: nat, num: nat,
                  parts: nat)
    requires num > 0 && 0 < parts <= TWO64 && i < parts && Slot(i, cur, num) < |lists|
    requires AllCut(m, lists, num, parts) && Cutting(m, first, last, count, cur, num)
    ensures var k := Slot(i, cur, num);
            AllCut(m, lists[k := lists[k] + [RunChunk(first, last, count, i, parts)]], num, parts)
  {
    hide RunAt, SliceOf, Slot;
    var k := Slot(i, cur, num);
    var c := RunChunk(first, last, count, i, parts);
    assert c.idx == i;
    hide RunChunk;
    assert CutFrom(m, c, k, num, parts);
    hide CutFrom;
    var lists' := lists[k := lists[k] + [c]];
    forall x, j | 0 <= x < |lists'| && 0 <= j < |lists'[x]|
      ensures CutFrom(m, lists'[x][j], x, num, parts)
    {
      if x != k || j < |lists[k]| {
        assert lists'[x][j] == lists[x][j];
      }
    }
  }

  lemma SliceStart(m: seq<bool>, lists: seq<seq<Chunk>>, width: nat, num: nat, parts: nat)
    requires num > 0 && width > 0 && 0 < parts <= TWO64 && forall k :: 0 <= k < |lists| ==> lists[k] == []
    ensures AllCut(m, lists, num, parts) && SliceAt(0, width, num) == 0 && 0 % width == 0
  {
    DivUnique(0, width, 0, 0);
  }

  /** A page is counted: after `width` of them comes the next slice. */
  lemma SliceStep(g: nat, width: nat, num: nat)
    requires num > 0 && width > 0
    ensures var (cur, cur') := (SliceAt(g, width, num), SliceAt(g + 1, width, num));
            if g % width + 1 >= width then (g + 1) % width == 0 && cur' == (if cur + 1 == num then cur else cur + 1)
            else (g + 1) % width == g % width + 1 && cur' == cur
  {
    var (q, r) := (g / width, g % width);
    if r + 1 >= width {
      MulStep(q + 1, width);
      DivUnique(g + 1, width, q + 1, 0);
    } else {
      DivUnique(g + 1, width, q, r + 1);
    }
  }

  /** Adds the chunk that partition `i` gets of a run. */
  method FlushOne(head: seq<seq<Chunk>>, first: nat, last: nat, count: nat, i: nat, cur: nat, num: nat, parts: nat,
                  ghost m: seq<bool>)
    returns (r: seq<seq<Chunk>>, ghost s: set<nat>)
    requires i < parts <= TWO64 && cur < num && |head| == parts * num && first <= last < |m|
        && |m| + 2 * parts < TWO64
    requires Shaped(head, num, parts) && AllCut(m, head, num, parts) && Cutting(m, first, last, count, cur, num)
    ensures AllCut(m, r, num, parts)
    ensures |r| == |head| && Shaped(r, num, parts) && Pending(head, parts) <= Pending(r, parts)
    ensures Pending(r, parts) == Pending(head, parts) + multiset(s)
    ensures i <= last ==>
              multiset(RunUpTo(first, last, i + 1, parts)) == multiset(RunUpTo(first, last, i, parts)) + multiset(s)
    ensures i == last + 1 ==> Pending(r, parts)[Outside(i, parts, |m|)] > 0
  {
    hide RunChunk, Outside, Pending, Shaped, AllCut, Cutting;
    ghost var size := |m|;
    var c := RunChunk(first, last, count, i, parts);
    RunChunkLpns(first, last, count, i, parts);
    SlotOf(i, cur, num, parts);
    CutAppend(m, head, first, last, count, i, cur, num, parts);
    r := AddChunk(head, Slot(i, cur, num), c, num, parts);
    s := Lpns(c, parts);
    if i <= last {
      RunSplit(first, last, i, parts, c);
    } else if i == last + 1 {
      ghost var x := Outside(i, parts, size);
      ShortChunk(first, last, count, parts, size);
      assert Pending(r, parts)[x] >= multiset(Lpns(c, parts))[x];
    }
  }

  /** Adds the chunks of one run, one for every partition, to the lists of slice `cur`. */
  method FlushRun(head: seq<seq<Chunk>>, first: nat, last: nat, count: nat, cur: nat, num: nat, parts: nat,
                  ghost m: seq<bool>)
    returns (r: seq<seq<Chunk>>)
    requires 0 < parts <= TWO64 && cur < num && |head| == parts * num && first <= last < |m|
        && |m| + 2 * parts < TWO64
    requires Shaped(head, num, parts) && AllCut(m, head, num, parts) && Cutting(m, first, last, count, cur, num)
    ensures AllCut(m, r, num, parts)
    ensures |r| == |head| && Shaped(r, num, parts)
    ensures parts <= last + 1 ==>
        Pending(r, parts) == Pending(head, parts) + multiset(RunUpTo(first, last, parts, parts))
    ensures last + 1 < parts ==> Pending(r, parts)[Outside(last + 1, parts, |m|)] > 0
    ensures Pending(head, parts) <= Pending(r, parts)
  {
    hide Outside, Pending, Shaped, AllCut, Cutting;
    r := head;
    assert RunUpTo(first, last, 0, parts) == {};
    ghost var x: nat := Outside(last + 1, parts, |m|);
    for i := 0 to parts
      invariant |r| == |head| && Shaped(r, num, parts) && AllCut(m, r, num, parts)
      invariant i <= last + 1 ==> Pending(r, parts) == Pending(head, parts) + multiset(RunUpTo(first, last, i, parts))
      invariant last + 1 < i ==> Pending(r, parts)[x] > 0
      invariant Pending(head, parts) <= Pending(r, parts)
    {
      ghost var before := r;
      ghost var s;
      r, s := FlushOne(r, first, last, count, i, cur, num, parts, m);
      assert Pending(before, parts)[x] <= Pending(r, parts)[x];
    }
  }

  function AddChunk(lists: seq<seq<Chunk>>, k: nat, c: Chunk, num: nat, parts: nat): (r: seq<seq<Chunk>>)
    requires parts > 0 && k < |lists| && Shaped(lists, num, parts) && InSlot(c, k, num, parts)
    ensures |r| == |lists| && Shaped(r, num, parts) && r == lists[k := lists[k] + [c]]
    ensures Pending(r, parts) == Pending(lists, parts) + multiset(Lpns(c, parts))
  {
    PendingAppend(lists, k, c, parts);
    lists[k := lists[k] + [c]]
  }

  lemma RunSplit(first: nat, last: nat, i: nat, parts: nat, c: Chunk)
    requires parts > 0 && forall l :: l in Lpns(c, parts) <==> first <= l <= last && l % parts == i
    ensures multiset(RunUpTo(first, last, i + 1, parts)) == multiset(RunUpTo(first, last, i, parts)) +
        multiset(Lpns(c, parts))
  {
    assert RunUpTo(first, last, i + 1, parts) == RunUpTo(first, last, i, parts) + Lpns(c, parts);
    assert RunUpTo(first, last, i, parts) !! Lpns(c, parts);
  }

  /** The first page past the end of the device, which has `size` pages, that would belong to partition `i`. */
  ghost function Outside(i: nat, parts: nat, size: nat): (l: nat)
    requires parts > 0
    ensures size <= l < size + parts
  {
    size + (i + parts - size % parts) % parts
  }

  /** When a run is short, the partition after its end gets a chunk that goes beyond the device. */
  lemma ShortChunk(first: nat, last: nat, count: nat, parts: nat, size: nat)
    requires 0 < parts <= TWO64 && first <= last && last + 1 < parts && last < size && size + 2 * parts < TWO64
    ensures Outside(last + 1, parts, size) in Lpns(RunChunk(first, last, count, last + 1, parts), parts)
  {
    hide RunChunk, Outside;
    RunChunkLpns(first, last, count, last + 1, parts);
    ShortStart(first, last, count, parts);
    OutsideOf(last + 1, parts, size);
  }

  lemma ShortStart(first: nat, last: nat, count: nat, parts: nat)
    requires 0 < parts <= TWO64 && first <= last && last + 1 < parts
    ensures var c := RunChunk(first, last, count, last + 1, parts); c.start == c.idx == last + 1
  {
    var i := last + 1;
    DivUnique(first, parts, 0, first);
    DivUnique(i + parts - first, parts, 1, i - first);
  }

  lemma OutsideOf(i: nat, parts: nat, size: nat)
    requires i < parts
    ensures Outside(i, parts, size) % parts == i
  {
    RunStart(size, i, parts);
  }

  ghost function MappedBelow(m: seq<bool>, b: nat): (s: set<nat>)
    ensures forall l :: l in s <==> 0 <= l < |m| && l < b && m[l]
  {
    set l: nat | 0 <= l < |m| && l < b && m[l]
  }

  /** A run is added to what was mapped below it. */
  lemma AddRun(m: seq<bool>, first: nat, last: nat, parts: nat)
    requires parts > 0 && first <= last < |m| && forall l :: first <= l <= last ==> m[l]
    ensures multiset(MappedBelow(m, last + 1)) == multiset(MappedBelow(m, first)) +
        multiset(RunUpTo(first, last, parts, parts))
  {
    assert MappedBelow(m, last + 1) == MappedBelow(m, first) + RunUpTo(first, last, parts, parts);
    assert MappedBelow(m, first) !! RunUpTo(first, last, parts, parts);
  }

  /** State of the scan of the mapping tables before page `g`: `count` mapped pages from `first` on are
      not yet in a list. `bad` is the end of a short run that was seen, or -1. */
  ghost predicate Scanned(m: seq<bool>, head: seq<seq<Chunk>>, parts: nat, g: nat, first: nat, count: nat, bad: int)
    requires parts > 0
  {
    && g <= |m|
    && (count > 0 ==> first + count == g && (first == 0 || !m[first - 1]) && forall l :: first <= l < g ==> m[l])
    && (bad < 0 ==> Pending(head, parts) == multiset(MappedBelow(m, if count > 0 then first else g)))
    && (bad < 0 ==> forall last: nat :: last + 1 < g ==> !ShortRunAt(m, parts, last))
    && (bad >= 0 ==> ShortRunAt(m, parts, bad) && Pending(head, parts)[Outside(bad + 1, parts, |m|)] > 0)
    && (count == 0 && g > 0 ==> !m[g - 1])
  }

  lemma ScanMapped(m: seq<bool>, head: seq<seq<Chunk>>, parts: nat, g: nat, first: nat, count: nat, bad: int)
    requires parts > 0 && Scanned(m, head, parts, g, first, count, bad) && g < |m| && m[g]
    ensures Scanned(m, head, parts, g + 1, if count == 0 then g else first, count + 1, bad)
  {
    if bad < 0 && count == 0 {
      assert MappedBelow(m, g) == MappedBelow(m, g);
    }
  }

  lemma ScanUnmapped(m: seq<bool>, head: seq<seq<Chunk>>, parts: nat, g: nat, first: nat, bad: int)
    requires parts > 0 && Scanned(m, head, parts, g, first, 0, bad) && g < |m| && !m[g]
    ensures Scanned(m, head, parts, g + 1, first, 0, bad)
  {
    assert MappedBelow(m, g + 1) == MappedBelow(m, g);
  }

  lemma RunIsShort(m: seq<bool>, parts: nat, last: nat)
    requires last + 1 < parts && last + 1 < |m| && m[last] && !m[last + 1]
    ensures ShortRunAt(m, parts, last)
  {
  }

  lemma RunsAreLong(m: seq<bool>, parts: nat, last: nat)
    requires parts <= last + 1
    ensures forall l: nat :: l >= last ==> !ShortRunAt(m, parts, l)
  {
  }

  /** The chunks of a run that ended at `g` were added. */
  lemma ScanFlush(m: seq<bool>, head: seq<seq<Chunk>>, head': seq<seq<Chunk>>, parts: nat, g: nat, first: nat,
      count: nat, bad: int)
    returns (bad': int)
    requires parts > 0 && Scanned(m, head, parts, g, first, count, bad) && count > 0 && |m| >= parts
    requires g < |m| ==> !m[g]
    requires parts <= g ==>
        Pending(head', parts) == Pending(head, parts) + multiset(RunUpTo(first, g - 1, parts, parts))
    requires g < parts ==> Pending(head', parts)[Outside(g, parts, |m|)] > 0
    requires Pending(head, parts) <= Pending(head', parts)
    ensures g < |m| ==> Scanned(m, head', parts, g + 1, first, 0, bad')
    ensures g == |m| ==> Exact(m, head', parts)
  {
    hide Pending, Outside, Exact, ShortRunAt;
    if bad >= 0 {
      ghost var x := Outside(bad + 1, parts, |m|);
      assert Pending(head, parts)[x] <= Pending(head', parts)[x];
      BadMeansInexact(m, head', parts, bad);
      return bad;
    }
    AddRun(m, first, g - 1, parts);
    if g < parts {
      RunIsShort(m, parts, g - 1);
      return g - 1;
    }
    RunsAreLong(m, parts, g - 1);
    if g < |m| {
      assert MappedBelow(m, g + 1) == MappedBelow(m, g);
    } else {
      assert MappedBelow(m, g) == Mapped(m);
      ExactExact(m, head', parts);
    }
    return -1;
  }

  /** The chunks hold exactly the mapped pages, each once, if and only if no run is short; and they stay
      inside the device if and only if no run is short. */
  ghost predicate Exact(m: seq<bool>, head: seq<seq<Chunk>>, parts: nat)
    requires parts > 0
  {
    && (Pending(head, parts) == multiset(Mapped(m)) <==> forall last: nat :: !ShortRunAt(m, parts, last))
    && ((forall l :: l in Pending(head, parts) ==> l < |m|) <==> forall last: nat :: !ShortRunAt(m, parts, last))
  }

  lemma ExactExact(m: seq<bool>, head: seq<seq<Chunk>>, parts: nat)
    requires parts > 0 && Pending(head, parts) == multiset(Mapped(m)) && forall last: nat :: !ShortRunAt(m, parts, last)
    ensures Exact(m, head, parts)
  {
    hide Pending;
    assert forall l :: l in Pending(head, parts) ==> l in Mapped(m);
  }

  lemma BadMeansInexact(m: seq<bool>, head: seq<seq<Chunk>>, parts: nat, bad: nat)
    requires parts > 0 && ShortRunAt(m, parts, bad) && Pending(head, parts)[Outside(bad + 1, parts, |m|)] > 0
    ensures Exact(m, head, parts)
  {
    hide Pending;
    var x: nat := Outside(bad + 1, parts, |m|);
    assert x !in Mapped(m);
    assert x in Pending(head, parts) && x >= |m|;
  }

  lemma ScanStart(m: seq<bool>, head: seq<seq<Chunk>>, num: nat, parts: nat)
    requires parts > 0 && forall k :: 0 <= k < |head| ==> head[k] == []
    ensures Scanned(m, head, parts, 0, 0, 0, -1) && Shaped(head, num, parts)
  {
    PendingEmpty(head, parts);
    assert MappedBelow(m, 0) == {};
  }

  lemma ScanEnd(m: seq<bool>, head: seq<seq<Chunk>>, parts: nat, first: nat, bad: int)
    requires parts > 0 && Scanned(m, head, parts, |m|, first, 0, bad)
    ensures Exact(m, head, parts)
  {
    assert MappedBelow(m, |m|) == Mapped(m);
    if bad >= 0 {
      BadMeansInexact(m, head, parts, bad);
    }
  }

  /** The run that is being scanned. */
  lemma ScanRun(m: seq<bool>, head: seq<seq<Chunk>>, parts: nat, g: nat, first: nat, count: nat, bad: int)
    requires parts > 0 && Scanned(m, head, parts, g, first, count, bad) && count > 0
    ensures first < g <= |m| && (g == |m| || !m[g] ==> RunAt(m, first, g - 1) && count == g - first)
  {
  }

  /**
   Splits the mapped logical pages of the namespace into chunks. Every mapped page is in exactly one
   chunk, and no other page is in any, if and only if no run of mapped pages ends before page
   `parts - 1` while its next page is unmapped; such a run makes the end of a chunk wrap around.
   */
  method CreateListSplit(m: seq<bool>, num: nat, parts: nat) returns (head: seq<seq<Chunk>>)
    requires 0 < parts <= |m| && num > 0 && |m| + 2 * parts < TWO64
    ensures |head| == parts * num && Shaped(head, num, parts)
    ensures Exact(m, head, parts) && AllCut(m, head, num, parts)
  {
    hide Scanned, Shaped, Exact, Pending, ShortRunAt, AllCut, RunAt, SliceAt;
    head := seq(parts * num, _ => []);
    ScanStart(m, head, num, parts);
    var splitCount := |m| / num;
    ghost var width := if splitCount > 0 then splitCount else 1;
    SliceStart(m, head, width, num, parts);
    var cur, totalReal, first, count := 0, 0, 0, 0;
    ghost var bad := -1;
    for g := 0 to |m|
      invariant |head| == parts * num && Shaped(head, num, parts) && cur < num && AllCut(m, head, num, parts)
      invariant totalReal == g % width && cur == SliceAt(g, width, num)
      invariant Scanned(m, head, parts, g, first, count, bad)
    {
      SliceStep(g, width, num);
      totalReal := totalReal + 1;
      if totalReal >= splitCount {
        totalReal := 0;
        cur := cur + 1;
        if cur == num {
          cur := cur - 1;
        }
      }
      head, first, count, bad := ScanPage(m, head, g, first, count, cur, num, parts, bad);
    }
    if count != 0 {
      ScanRun(m, head, parts, |m|, first, count, bad);
      ghost var before := head;
      head := FlushRun(head, first, |m| - 1, count, cur, num, parts, m);
      bad := ScanFlush(m, before, head, parts, |m|, first, count, bad);
    } else {
      ScanEnd(m, head, parts, first, bad);
    }
  }

  /** One page of the scan: a mapped page extends the run, an unmapped one ends it. */
  method ScanPage(m: seq<bool>, head: seq<seq<Chunk>>, g: nat, first: nat, count: nat, cur: nat, num: nat, parts: nat,
      ghost bad: int)
    returns (head': seq<seq<Chunk>>, first': nat, count': nat, ghost bad': int)
    requires 0 < parts <= |m| && |m| + 2 * parts < TWO64 && cur < num && g < |m|
    requires |head| == parts * num && Shaped(head, num, parts) && Scanned(m, head, parts, g, first, count, bad)
    requires AllCut(m, head, num, parts) && cur == SliceOf(g, |m|, num)
    ensures AllCut(m, head', num, parts)
    ensures |head'| == parts * num && Shaped(head', num, parts) && Scanned(m, head', parts, g + 1, first', count', bad')
  {
    hide Scanned, Shaped, Exact, Pending, ShortRunAt, AllCut, RunAt, SliceOf;
    head', first', count', bad' := head, first, count, bad;
    if m[g] {
      ScanMapped(m, head, parts, g, first, count, bad);
      if count == 0 {
        first' := g;
      }
      count' := count + 1;
    } else if count != 0 {
      ScanRun(m, head, parts, g, first, count, bad);
      head' := FlushRun(head, first, g - 1, count, cur, num, parts, m);
      bad' := ScanFlush(m, head, head', parts, g, first, count, bad);
      count' := 0;
    } else {
      ScanUnmapped(m, head, parts, g, first, bad);
    }
  }

  // ----- The cover of the pages to be written -----

  /** The pages written, those in active chunks and those in parked chunks are a disjoint cover of
      the target: together they hold every page of it exactly once. */
  ghost predicate Covered(target: set<nat>, done: set<nat>, active: seq<seq<Chunk>>, parked: seq<seq<Chunk>>,
      parts: nat)
    requires parts > 0
  {
    multiset(done) + (Pending(active, parts) + Pending(parked, parts)) == multiset(target)
  }

  lemma CoveredSwap(target: set<nat>, done: set<nat>, active: seq<seq<Chunk>>, parked: seq<seq<Chunk>>, parts: nat)
    requires parts > 0 && Covered(target, done, active, parked, parts)
    ensures Covered(target, done, parked, active, parts)
  {
    assert Pending(active, parts) + Pending(parked, parts) == Pending(parked, parts) + Pending(active, parts);
  }

  /** An active chunk holds pages of the target that are not yet written. */
  lemma CoveredChunk(target: set<nat>, done: set<nat>, active: seq<seq<Chunk>>, parked: seq<seq<Chunk>>, parts: nat,
      k: nat, j: nat)
    requires parts > 0 && Covered(target, done, active, parked, parts) && k < |active| && j < |active[k]|
    ensures done <= target && Lpns(active[k][j], parts) <= target && Lpns(active[k][j], parts) !! done
  {
    hide Pending;
    PendingHas(active, k, j, parts);
    CoveredDone(target, done, active, parked, parts);
    var s := Lpns(active[k][j], parts);
    forall l | l in s
      ensures l in target && l !in done
    {
      assert multiset(s)[l] == 1;
      assert Pending(active, parts)[l] >= 1;
      assert (multiset(done) + (Pending(active, parts) + Pending(parked, parts)))[l] == multiset(target)[l];
    }
  }

  lemma CoveredDone(target: set<nat>, done: set<nat>, active: seq<seq<Chunk>>, parked: seq<seq<Chunk>>, parts: nat)
    requires parts > 0 && Covered(target, done, active, parked, parts)
    ensures done <= target && |done| <= |target|
  {
    forall l | l in done
      ensures l in target
    {
      assert (multiset(done) + (Pending(active, parts) + Pending(parked, parts)))[l] == multiset(target)[l];
    }
    assert |multiset(done)| <= |multiset(done) + (Pending(active, parts) + Pending(parked, parts))|;
  }

  /** With nothing pending everything is written. */
  lemma CoveredEnd(target: set<nat>, done: set<nat>, active: seq<seq<Chunk>>, parked: seq<seq<Chunk>>, parts: nat)
    requires parts > 0 && Covered(target, done, active, parked, parts)
    requires forall k :: 0 <= k < |active| ==> active[k] == []
    requires forall k :: 0 <= k < |parked| ==> parked[k] == []
    ensures done == target
  {
    PendingEmpty(active, parts);
    PendingEmpty(parked, parts);
    assert multiset(done) == multiset(target);
    forall l
      ensures l in done <==> l in target
    {
      assert multiset(done)[l] == multiset(target)[l];
    }
  }

  /** Pages `w` of an active chunk were written; `c` is what is left of it. */
  lemma CoveredWrite(target: set<nat>, done: set<nat>, active: seq<seq<Chunk>>, parked: seq<seq<Chunk>>, parts: nat,
      k: nat, j: nat, c: Chunk)
    requires parts > 0 && Covered(target, done, active, parked, parts) && k < |active| && j < |active[k]|
    requires Lpns(c, parts) <= Lpns(active[k][j], parts)
    ensures var w := Lpns(active[k][j], parts) - Lpns(c, parts);
            Covered(target, done + w, active[k := active[k][j := c]], parked, parts)
  {
    hide Pending;
    CoveredChunk(target, done, active, parked, parts, k, j);
    PendingReplace(active, k, j, c, parts);
    var (a, r) := (Lpns(active[k][j], parts), Lpns(c, parts));
    var w := a - r;
    assert done + w - done == w;
    assert multiset(done + w) == multiset(done) + multiset(w);
    assert multiset(a) == multiset(w) + multiset(r) by { assert a == w + r; }
    var (p', p) := (Pending(active[k := active[k][j := c]], parts), Pending(active, parts));
    assert (multiset(done) + multiset(w)) + (p' + Pending(parked, parts)) == multiset(done) +
        (p + Pending(parked, parts)) by {
      forall l
        ensures p'[l] + multiset(w)[l] == p[l]
      {
        assert (p' + multiset(a))[l] == (p + multiset(r))[l];
        assert multiset(a)[l] == multiset(w)[l] + multiset(r)[l];
      }
    }
  }

  /** A finished chunk is dropped. */
  lemma CoveredDrop(target: set<nat>, done: set<nat>, active: seq<seq<Chunk>>, parked: seq<seq<Chunk>>, parts: nat,
      k: nat, j: nat)
    requires parts > 0 && Covered(target, done, active, parked, parts) && k < |active| && j < |active[k]|
    requires Lpns(active[k][j], parts) == {}
    ensures Covered(target, done, active[k := active[k][..j] + active[k][j + 1..]], parked, parts)
  {
    hide Pending;
    PendingRemove(active, k, j, parts);
    assert Pending(active[k := active[k][..j] + active[k][j + 1..]], parts) + multiset({}) ==
        Pending(active[k := active[k][..j] + active[k][j + 1..]], parts);
  }

  /** A chunk moves to the end of a list of the other kind; where it stands and its die do not matter. */
  lemma CoveredMove(target: set<nat>, done: set<nat>, active: seq<seq<Chunk>>, parked: seq<seq<Chunk>>, parts: nat,
      k: nat, j: nat, c: Chunk)
    requires parts > 0 && Covered(target, done, active, parked, parts) && k < |active| && j < |active[k]|
        && k < |parked|
    requires Lpns(c, parts) == Lpns(active[k][j], parts)
    ensures Covered(target, done, active[k := active[k][..j] + active[k][j + 1..]], parked[k := parked[k] + [c]], parts)
    ensures TotalLen(active[k := active[k][..j] + active[k][j + 1..]]) + TotalLen(parked[k := parked[k] + [c]]) ==
        TotalLen(active) + TotalLen(parked)
  {
    hide Pending, TotalLen;
    PendingRemove(active, k, j, parts);
    PendingAppend(parked, k, c, parts);
    var m := multiset(Lpns(c, parts));
    var (a, p) := (Pending(active[k := active[k][..j] + active[k][j + 1..]], parts), Pending(parked, parts));
    assert a + (p + m) == (a + m) + p;
  }

  // ----- Steps on one list -----

  ghost predicate NonEmpty(lists: seq<seq<Chunk>>)
  {
    forall k, j :: 0 <= k < |lists| && 0 <= j < |lists[k]| ==> lists[k][j].start <= lists[k][j].end
  }

  function Removed(lists: seq<seq<Chunk>>, k: nat, j: nat): seq<seq<Chunk>>
    requires k < |lists| && j < |lists[k]|
  {
    lists[k := lists[k][..j] + lists[k][j + 1..]]
  }

  function Appended(lists: seq<seq<Chunk>>, k: nat, c: Chunk): seq<seq<Chunk>>
    requires k < |lists|
  {
    lists[k := lists[k] + [c]]
  }

  /** Pages of a chunk were written and the rest of the chunk stays in its place. */
  lemma KeepStep(target: set<nat>, done: set<nat>, active: seq<seq<Chunk>>, parked: seq<seq<Chunk>>, num: nat,
      parts: nat, k: nat, j: nat, c: Chunk)
    requires parts > 0 && Covered(target, done, active, parked, parts) && k < |active| && j < |active[k]|
    requires Shaped(active, num, parts)
    requires c.idx == active[k][j].idx && c.end == active[k][j].end && c.start >= active[k][j].start
        && c.start % parts == c.idx
    ensures var w := Lpns(active[k][j], parts) - Lpns(c, parts);
            Covered(target, done + w, active[k := active[k][j := c]], parked, parts)
    ensures Shaped(active[k := active[k][j := c]], num, parts)
    ensures TotalLen(active[k := active[k][j := c]]) == TotalLen(active)
  {
    hide Covered, TotalLen;
    CoveredWrite(target, done, active, parked, parts, k, j, c);
    PendingReplace(active, k, j, c, parts);
    assert InSlot(active[k][j], k, num, parts);
  }

  lemma RemovedShape(lists: seq<seq<Chunk>>, num: nat, parts: nat, k: nat, j: nat)
    requires k < |lists| && j < |lists[k]| && Shaped(lists, num, parts)
    ensures Shaped(Removed(lists, k, j), num, parts)
    ensures NonEmpty(lists) ==> NonEmpty(Removed(lists, k, j))
  {
    var r := Removed(lists, k, j);
    forall a, b | 0 <= a < |r| && 0 <= b < |r[a]|
      ensures InSlot(r[a][b], a, num, parts)
      ensures NonEmpty(lists) ==> r[a][b].start <= r[a][b].end
    {
      var b' := if a == k && b >= j then b + 1 else b;
      assert r[a][b] == lists[a][b'];
    }
  }

  lemma AppendedShape(lists: seq<seq<Chunk>>, num: nat, parts: nat, k: nat, c: Chunk)
    requires k < |lists| && Shaped(lists, num, parts) && InSlot(c, k, num, parts)
    ensures Shaped(Appended(lists, k, c), num, parts)
    ensures NonEmpty(lists) && c.start <= c.end ==> NonEmpty(Appended(lists, k, c))
  {
  }

  /** All pages of a chunk were written and the chunk is dropped. */
  lemma DropStep(target: set<nat>, done: set<nat>, active: seq<seq<Chunk>>, parked: seq<seq<Chunk>>, num: nat,
      parts: nat, k: nat, j: nat)
    requires parts > 0 && Covered(target, done, active, parked, parts) && k < |active| && j < |active[k]|
    requires Shaped(active, num, parts)
    ensures Covered(target, done + Lpns(active[k][j], parts), Removed(active, k, j), parked, parts)
    ensures Shaped(Removed(active, k, j), num, parts)
    ensures TotalLen(Removed(active, k, j)) == TotalLen(active) - 1
    ensures NonEmpty(active) ==> NonEmpty(Removed(active, k, j))
  {
    hide Covered, TotalLen, Shaped, NonEmpty;
    RemovedShape(active, num, parts, k, j);
    var e := active[k][j].(start := active[k][j].end + 1);
    NoLpns(e, parts);
    CoveredWrite(target, done, active, parked, parts, k, j, e);
    assert Lpns(active[k][j], parts) - Lpns(e, parts) == Lpns(active[k][j], parts);
    var mid := active[k := active[k][j := e]];
    CoveredDrop(target, done + Lpns(active[k][j], parts), mid, parked, parts, k, j);
    assert Removed(mid, k, j) == Removed(active, k, j) by {
      assert mid[k][..j] + mid[k][j + 1..] == active[k][..j] + active[k][j + 1..];
    }
    PendingRemove(active, k, j, parts);
  }

  /** Pages of a chunk were written and the rest moves to the end of a list of the other kind. */
  lemma MoveStep(target: set<nat>, done: set<nat>, active: seq<seq<Chunk>>, parked: seq<seq<Chunk>>, num: nat,
      parts: nat, k: nat, j: nat, c: Chunk)
    requires parts > 0 && Covered(target, done, active, parked, parts) && k < |active| && j < |active[k]|
        && k < |parked|
    requires Shaped(active, num, parts) && Shaped(parked, num, parts)
    requires c.idx == active[k][j].idx && c.end == active[k][j].end && c.start >= active[k][j].start
        && c.start % parts == c.idx
    ensures var w := Lpns(active[k][j], parts) - Lpns(c, parts);
            Covered(target, done + w, Removed(active, k, j), Appended(parked, k, c), parts)
    ensures Shaped(Removed(active, k, j), num, parts) && Shaped(Appended(parked, k, c), num, parts)
    ensures TotalLen(Removed(active, k, j)) + TotalLen(Appended(parked, k, c)) == TotalLen(active) + TotalLen(parked)
    ensures NonEmpty(active) ==> NonEmpty(Removed(active, k, j))
    ensures NonEmpty(parked) && c.start <= c.end ==> NonEmpty(Appended(parked, k, c))
  {
    assert InSlot(active[k][j], k, num, parts);
    hide Covered, TotalLen, Shaped, NonEmpty;
    RemovedShape(active, num, parts, k, j);
    AppendedShape(parked, num, parts, k, c);
    CoveredWrite(target, done, active, parked, parts, k, j, c);
    PendingReplace(active, k, j, c, parts);
    var mid := active[k := active[k][j := c]];
    CoveredMove(target, done + (Lpns(active[k][j], parts) - Lpns(c, parts)), mid, parked, parts, k, j, c);
    assert Removed(mid, k, j) == Removed(active, k, j) by {
      assert mid[k][..j] + mid[k][j + 1..] == active[k][..j] + active[k][j + 1..];
    }
  }

  // ----- Sorting the lists by the size of the run -----

  ghost predicate SortedBySize(cs: seq<Chunk>)
  {
    forall i, j :: 0 <= i < j < |cs| ==> cs[i].size <= cs[j].size
  }

  /** Puts a chunk behind all chunks that are not larger. */
  function InsertBySize(c: Chunk, cs: seq<Chunk>): (r: seq<Chunk>)
    ensures multiset(r) == multiset{c} + multiset(cs)
  {
    if cs == [] || c.size >= cs[|cs| - 1].size then cs + [c]
    else
      assert cs == cs[..|cs| - 1] + [cs[|cs| - 1]];
      InsertBySize(c, cs[..|cs| - 1]) + [cs[|cs| - 1]]
  }

  lemma {:induction false} InsertKeepsOrder(c: Chunk, cs: seq<Chunk>)
    requires SortedBySize(cs)
    ensures SortedBySize(InsertBySize(c, cs))
    decreases |cs|
  {
    if cs != [] && c.size < cs[|cs| - 1].size {
      var (init, last) := (cs[..|cs| - 1], cs[|cs| - 1]);
      InsertKeepsOrder(c, init);
      var rest := InsertBySize(c, init);
      forall i | 0 <= i < |rest|
        ensures rest[i].size <= last.size
      {
        assert rest[i] in multiset(rest);
      }
    }
  }

  /** The chunks of a list that have a size, in order. */
  ghost function OfSize(cs: seq<Chunk>, size: nat): seq<Chunk>
  {
    if cs == [] then [] else OfSize(cs[..|cs| - 1], size) + If(cs[|cs| - 1], size)
  }

  ghost function If(c: Chunk, size: nat): seq<Chunk> { if c.size == size then [c] else [] }

  lemma OfSizeAppend(cs: seq<Chunk>, c: Chunk, size: nat)
    ensures OfSize(cs + [c], size) == OfSize(cs, size) + If(c, size)
  {
    assert (cs + [c])[..|cs|] == cs;
  }

  lemma SwapIf(c: Chunk, d: Chunk, size: nat)
    requires c.size != d.size
    ensures If(c, size) + If(d, size) == If(d, size) + If(c, size)
  {
  }

  /** A chunk is put behind those of its own size. */
  lemma {:induction false} InsertStable(c: Chunk, cs: seq<Chunk>, size: nat)
    ensures OfSize(InsertBySize(c, cs), size) == OfSize(cs, size) + If(c, size)
    decreases |cs|
  {
    hide OfSize, If, SortedBySize;
    if cs == [] || c.size >= cs[|cs| - 1].size {
      OfSizeAppend(cs, c, size);
    } else {
      var (init, last) := (cs[..|cs| - 1], cs[|cs| - 1]);
      InsertStable(c, init, size);
      OfSizeAppend(InsertBySize(c, init), last, size);
      OfSizeAppend(init, last, size);
      SwapIf(c, last, size);
      assert init + [last] == cs;
      var a := OfSize(init, size);
      assert (a + If(c, size)) + If(last, size) == a + (If(c, size) + If(last, size));
      assert (a + If(last, size)) + If(c, size) == a + (If(last, size) + If(c, size));
    }
  }

  lemma EmptySorted()
    ensures SortedBySize([])
  {
  }

  /** Sorts by size; chunks of one size keep their order. */
  method SortBySize(cs: seq<Chunk>) returns (r: seq<Chunk>)
    ensures multiset(r) == multiset(cs) && SortedBySize(r)
    ensures forall size: nat :: OfSize(r, size) == OfSize(cs, size)
  {
    hide OfSize, If, SortedBySize;
    r := [];
    EmptySorted();
    assert cs[..0] == [];
    for i := 0 to |cs|
      invariant multiset(r) == multiset(cs[..i]) && SortedBySize(r)
      invariant forall size: nat :: OfSize(r, size) == OfSize(cs[..i], size)
    {
      InsertKeepsOrder(cs[i], r);
      forall size: nat
        ensures OfSize(InsertBySize(cs[i], r), size) == OfSize(cs[..i + 1], size)
      {
        InsertStable(cs[i], r, size);
        OfSizeAppend(cs[..i], cs[i], size);
        assert cs[..i + 1] == cs[..i] + [cs[i]];
      }
      r := InsertBySize(cs[i], r);
      assert cs[..i + 1] == cs[..i] + [cs[i]];
    }
    assert cs[..|cs|] == cs;
  }

  /** Sorting every list changes neither what is pending nor where chunks are. */
  lemma {:induction false} PendingPermuted(xs: seq<seq<Chunk>>, ys: seq<seq<Chunk>>, parts: nat)
    requires parts > 0 && |xs| == |ys| && forall k :: 0 <= k < |xs| ==> multiset(xs[k]) == multiset(ys[k])
    ensures Pending(xs, parts) == Pending(ys, parts)
  {
    if xs != [] {
      LpnsPermuted(xs[0], ys[0], parts);
      PendingPermuted(xs[1..], ys[1..], parts);
    }
  }

  lemma ShapedPermuted(xs: seq<seq<Chunk>>, ys: seq<seq<Chunk>>, num: nat, parts: nat)
    requires Shaped(xs, num, parts) && |xs| == |ys| && forall k :: 0 <= k < |xs| ==> multiset(xs[k]) == multiset(ys[k])
    ensures Shaped(ys, num, parts)
  {
    forall k, j | 0 <= k < |ys| && 0 <= j < |ys[k]|
      ensures InSlot(ys[k][j], k, num, parts)
    {
      assert ys[k][j] in multiset(ys[k]);
      assert ys[k][j] in multiset(xs[k]);
      var i :| 0 <= i < |xs[k]| && xs[k][i] == ys[k][j];
    }
  }
}
