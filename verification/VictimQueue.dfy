/**
 The queue of victim lines: a binary min-heap on the number of valid pages of a line,
 kept in slots 1 .. size-1 of a fixed buffer, with a back pointer from every line to its slot.

 The heap stores line numbers. `vpc[l]` and `pos[l]` are the priority and the back pointer
 of line `l`; both are changed in place, by the heap and by its owner.

 The sift loops move a hole through the buffer. The predicates below therefore take the slot
 of the hole (0 for none, slot 0 being unused) and the line that is waiting to be put down.
 */
module VictimQueue {

  /** The slots below `size`, other than `hole`, hold exactly the members other than `out`,
      and the back pointers of those lines are exact. */
  ghost predicate Linked(d: seq<nat>, size: nat, pos: seq<nat>, members: set<nat>, hole: nat, out: int)
  {
    && |d| == |pos| + 1
    && 1 <= size <= |d|
    && |members| == size - 1
    && (forall m :: m in members ==> m < |pos|)
    && (forall j :: 1 <= j < size && j != hole ==> d[j] in members)
    && (forall j :: 1 <= j < size && j != hole ==> d[j] != out && pos[d[j]] == j)
    && (forall m :: m in members && m != out ==> 1 <= pos[m] < size && pos[m] != hole && d[pos[m]] == m)
  }

  /** Two back-pointer tables agree on lines that are not members. */
  ghost predicate SameOutside(pos: seq<nat>, before: seq<nat>, members: set<nat>)
  {
    |pos| == |before| && forall l :: 0 <= l < |pos| && l !in members ==> pos[l] == before[l]
  }

  /** The priority seen at slot `j` when slot `hole` is reserved for a line of priority `pri`. */
  ghost function PriAt(d: seq<nat>, vpc: seq<int>, hole: nat, pri: int, j: nat): int
  {
    if j == hole then pri else if j < |d| && d[j] < |vpc| then vpc[d[j]] else 0
  }

  /** Heap order on all edges, with slot `hole` read as a line of priority `pri`,
      except on the edge above slot `up` and on the edges below slot `down`. */
  ghost predicate Ordered(d: seq<nat>, size: nat, vpc: seq<int>, hole: nat, pri: int, up: nat, down: nat)
  {
    forall j :: 2 <= j < size && j != up && j / 2 != down ==>
      PriAt(d, vpc, hole, pri, j / 2) <= PriAt(d, vpc, hole, pri, j)
  }

  /** The slots below `i` are at or above the parent of `i`. */
  ghost predicate Grandparent(d: seq<nat>, size: nat, vpc: seq<int>, i: nat)
  {
    forall j :: 2 <= j < size && j / 2 == i && 1 < i ==>
      PriAt(d, vpc, 0, 0, i / 2) <= PriAt(d, vpc, 0, 0, j)
  }

  /** Slot `c` is a child of slot `i` with the least priority; 0 when slot `i` is a leaf. */
  ghost predicate IsLesserChild(d: seq<nat>, size: nat, vpc: seq<int>, i: nat, c: nat)
  {
    && (c == 0 <==> 2 * i >= size)
    && (c != 0 ==>
          && (c == 2 * i || (c == 2 * i + 1 && c < size))
          && PriAt(d, vpc, 0, 0, c) <= PriAt(d, vpc, 0, 0, 2 * i)
          && (2 * i + 1 < size ==> PriAt(d, vpc, 0, 0, c) <= PriAt(d, vpc, 0, 0, 2 * i + 1)))
  }

  /** In a heap the root has the least priority of all slots. */
  lemma {:induction false} RootIsLeast(d: seq<nat>, size: nat, vpc: seq<int>, j: nat)
    requires Ordered(d, size, vpc, 0, 0, 0, 0)
    requires 1 <= j < size
    ensures PriAt(d, vpc, 0, 0, 1) <= PriAt(d, vpc, 0, 0, j)
  {
    if j > 1 {
      RootIsLeast(d, size, vpc, j / 2);
    }
  }

  /** Moving the line in slot `j` into the hole keeps the links and moves the hole. */
  lemma ShiftLinked(d: seq<nat>, size: nat, pos: seq<nat>, members: set<nat>, i: nat, j: nat, out: nat)
    requires Linked(d, size, pos, members, i, out)
    requires 1 <= i < size && 1 <= j < size && i != j
    ensures d[j] < |pos| && Linked(d[i := d[j]], size, pos[d[j] := i], members, j, out)
  {
  }

  /** Putting the waiting line into the hole closes it. */
  lemma CloseLinked(d: seq<nat>, size: nat, pos: seq<nat>, members: set<nat>, i: nat, out: nat)
    requires Linked(d, size, pos, members, i, out)
    requires 1 <= i < size && out in members
    ensures Linked(d[i := out], size, pos[out := i], members, 0, -1)
  {
  }

  /** One upward step keeps the order everywhere but above the hole. */
  lemma ShiftUpOrdered(d: seq<nat>, size: nat, vpc: seq<int>, i: nat, pri: int)
    requires 1 < i < size <= |d|
    requires Ordered(d, size, vpc, i, pri, i, 0)
    requires Grandparent(d, size, vpc, i)
    requires PriAt(d, vpc, 0, 0, i / 2) > pri
    ensures Ordered(d[i := d[i / 2]], size, vpc, i / 2, pri, i / 2, 0)
    ensures Grandparent(d[i := d[i / 2]], size, vpc, i / 2)
  {
    var p := i / 2;
    var e := d[i := d[p]];
    assert forall j :: j != i && j != p ==> PriAt(e, vpc, p, pri, j) == PriAt(d, vpc, i, pri, j);
    assert PriAt(e, vpc, p, pri, i) == PriAt(d, vpc, 0, 0, p);
    forall j | 2 <= j < size && j != p
      ensures PriAt(e, vpc, p, pri, j / 2) <= PriAt(e, vpc, p, pri, j)
    {
      if j / 2 == p {
        assert PriAt(d, vpc, i, pri, p) == PriAt(d, vpc, 0, 0, p);
      } else if j / 2 == i {
        assert PriAt(d, vpc, 0, 0, p) <= PriAt(d, vpc, 0, 0, j);
      }
    }
    forall j | 2 <= j < size && j / 2 == p && 1 < p
      ensures PriAt(e, vpc, 0, 0, p / 2) <= PriAt(e, vpc, 0, 0, j)
    {
      assert PriAt(d, vpc, i, pri, p / 2) <= PriAt(d, vpc, i, pri, p);
      if j != i {
        assert PriAt(d, vpc, i, pri, p) <= PriAt(d, vpc, i, pri, j);
      }
    }
  }

  /** One downward step, to the lesser child, keeps the order everywhere but below the hole. */
  lemma ShiftDownOrdered(d: seq<nat>, size: nat, vpc: seq<int>, i: nat, c: nat, pri: int)
    requires 1 <= i < size <= |d| && c != 0 && IsLesserChild(d, size, vpc, i, c)
    requires Ordered(d, size, vpc, i, pri, 0, i)
    requires Grandparent(d, size, vpc, i)
    requires PriAt(d, vpc, 0, 0, c) < pri
    ensures Ordered(d[i := d[c]], size, vpc, c, pri, 0, c)
    ensures Grandparent(d[i := d[c]], size, vpc, c)
  {
    var e := d[i := d[c]];
    assert forall j :: j != i && j != c ==> PriAt(e, vpc, c, pri, j) == PriAt(d, vpc, i, pri, j);
    assert PriAt(e, vpc, c, pri, i) == PriAt(d, vpc, 0, 0, c);
    forall j | 2 <= j < size && j / 2 != c
      ensures PriAt(e, vpc, c, pri, j / 2) <= PriAt(e, vpc, c, pri, j)
    {
      if j / 2 == i && j != c {
        assert j == 2 * i || j == 2 * i + 1;
      }
      if j == i {
        assert PriAt(d, vpc, 0, 0, i / 2) <= PriAt(d, vpc, 0, 0, c);
      }
    }
    forall j | 2 <= j < size && j / 2 == c
      ensures PriAt(e, vpc, 0, 0, c / 2) <= PriAt(e, vpc, 0, 0, j)
    {
      assert PriAt(d, vpc, i, pri, c) <= PriAt(d, vpc, i, pri, j);
    }
  }

  /** Reserving a slot for the line that is in it changes nothing that is seen. */
  lemma SameOrder(d: seq<nat>, size: nat, vpc: seq<int>, i: nat, pri: int, up: nat, down: nat)
    requires 1 <= i < size <= |d| && d[i] < |vpc| && pri == vpc[d[i]]
    requires Ordered(d, size, vpc, 0, 0, up, down)
    ensures Ordered(d, size, vpc, i, pri, up, down)
  {
    assert forall j :: 1 <= j ==> PriAt(d, vpc, 0, 0, j) == PriAt(d, vpc, i, pri, j);
  }

  /** The upward loop may stop when the parent is not above the moving line. */
  lemma TopOrdered(d: seq<nat>, size: nat, vpc: seq<int>, i: nat, pri: int)
    requires 1 <= i < size <= |d|
    requires Ordered(d, size, vpc, i, pri, i, 0)
    requires 1 < i ==> PriAt(d, vpc, 0, 0, i / 2) <= pri
    ensures Ordered(d, size, vpc, i, pri, 0, 0)
  {
  }

  /** The downward loop may stop when the lesser child is not below the moving line. */
  lemma RestOrdered(d: seq<nat>, size: nat, vpc: seq<int>, i: nat, c: nat, pri: int)
    requires 1 <= i < size <= |d| && IsLesserChild(d, size, vpc, i, c)
    requires Ordered(d, size, vpc, i, pri, 0, i)
    requires c != 0 ==> pri <= PriAt(d, vpc, 0, 0, c)
    ensures Ordered(d, size, vpc, i, pri, 0, 0)
  {
    forall j | 2 <= j < size && j / 2 == i
      ensures PriAt(d, vpc, i, pri, i) <= PriAt(d, vpc, i, pri, j)
    {
      assert j == 2 * i || j == 2 * i + 1;
    }
  }

  /** Filling the hole with a line of the reserved priority leaves what is seen unchanged. */
  lemma CloseOrdered(d: seq<nat>, size: nat, vpc: seq<int>, i: nat, l: nat)
    requires 1 <= i < size <= |d| && l < |vpc|
    requires Ordered(d, size, vpc, i, vpc[l], 0, 0)
    ensures Ordered(d[i := l], size, vpc, 0, 0, 0, 0)
  {
    assert forall j :: 1 <= j < size ==> PriAt(d[i := l], vpc, 0, 0, j) == PriAt(d, vpc, i, vpc[l], j);
  }

  /** A new priority in slot `p` can only break the order next to slot `p`: above it when the
      priority drops, below it when the priority does not. */
  lemma Reprioritised(d: seq<nat>, size: nat, vpc: seq<int>, p: nat, pri: int)
    requires 1 <= p < size <= |d|
    requires forall j :: 1 <= j < size ==> d[j] < |vpc|
    requires forall j :: 1 <= j < size && j != p ==> d[j] != d[p]
    requires Ordered(d, size, vpc, 0, 0, 0, 0)
    ensures Grandparent(d, size, vpc[d[p] := pri], p)
    ensures vpc[d[p]] > pri ==> Ordered(d, size, vpc[d[p] := pri], 0, 0, p, 0)
    ensures vpc[d[p]] <= pri ==> Ordered(d, size, vpc[d[p] := pri], 0, 0, 0, p)
  {
    var w := vpc[d[p] := pri];
    assert forall j :: 1 <= j < size && j != p ==> PriAt(d, w, 0, 0, j) == PriAt(d, vpc, 0, 0, j);
    forall j | 2 <= j < size && j / 2 == p && 1 < p
      ensures PriAt(d, w, 0, 0, p / 2) <= PriAt(d, w, 0, 0, j)
    {
      assert PriAt(d, vpc, 0, 0, p / 2) <= PriAt(d, vpc, 0, 0, p);
      assert PriAt(d, vpc, 0, 0, p) <= PriAt(d, vpc, 0, 0, j);
    }
  }

  /** A set of numbers below `n` has at most `n` elements. */
  lemma {:induction false} BelowCard(s: set<nat>, n: nat)
    requires forall x :: x in s ==> x < n
    ensures |s| <= n
  {
    if n == 0 {
      assert s == {};
    } else {
      BelowCard(s - {n - 1}, n - 1);
    }
  }

  class Queue {
    const d: array<nat>
    var size: nat
    var vpc: seq<int>
    var pos: seq<nat>
    ghost var members: set<nat>

    /** Everything but the rule that lines outside the queue have back pointer 0. */
    ghost predicate Heap()
      reads this, d
    {
      && |vpc| == |pos|
      && Linked(d[..], size, pos, members, 0, -1)
      && Ordered(d[..], size, vpc, 0, 0, 0, 0)
    }

    /** The back pointer of a line is nonzero exactly when the line is queued. */
    ghost predicate Valid()
      reads this, d
    {
      Heap() && forall l :: 0 <= l < |pos| && l !in members ==> pos[l] == 0
    }

    constructor (lines: nat)
      ensures Valid() && fresh(d)
      ensures members == {} && |vpc| == lines && forall l :: 0 <= l < lines ==> vpc[l] == 0
    {
      d := new nat[lines + 1](_ => 0);
      size := 1;
      vpc := seq(lines, _ => 0);
      pos := seq(lines, _ => 0);
      members := {};
    }

    /** Stores a line in a slot and the slot in the line. */
    method Place(i: nat, l: nat)
      requires i < d.Length && l < |pos|
      modifies d, this`pos
      ensures d[..] == old(d[..])[i := l]
      ensures pos == old(pos)[l := i]
    {
      d[i] := l;
      pos := pos[l := i];
    }

    /** Carries the hole left by line `moving` up to where the line belongs. */
    method RaiseHole(i0: nat, moving: nat) returns (i: nat)
      requires 1 <= i0 < size && moving < |vpc| && |vpc| == |pos|
      requires Linked(d[..], size, pos, members, i0, moving)
      requires Ordered(d[..], size, vpc, i0, vpc[moving], i0, 0)
      requires Grandparent(d[..], size, vpc, i0)
      modifies d, this`pos
      ensures 1 <= i < size
      ensures Linked(d[..], size, pos, members, i, moving)
      ensures Ordered(d[..], size, vpc, i, vpc[moving], 0, 0)
      ensures SameOutside(pos, old(pos), members)
    {
      i := i0;
      var pri := vpc[moving];
      while i > 1 && vpc[d[i / 2]] > pri
        invariant 1 <= i < size
        invariant Linked(d[..], size, pos, members, i, moving)
        invariant Ordered(d[..], size, vpc, i, pri, i, 0)
        invariant Grandparent(d[..], size, vpc, i)
        invariant SameOutside(pos, old(pos), members)
      {
        var parent := i / 2;
        ShiftLinked(d[..], size, pos, members, i, parent, moving);
        ShiftUpOrdered(d[..], size, vpc, i, pri);
        Place(i, d[parent]);
        i := parent;
      }
      TopOrdered(d[..], size, vpc, i, pri);
    }

    /** Moves the line in slot `i0` towards the root. */
    method BubbleUp(i0: nat)
      requires 1 <= i0 < size <= d.Length && |vpc| == |pos| && d[i0] in members
      requires Linked(d[..], size, pos, members, i0, d[i0])
      requires Ordered(d[..], size, vpc, 0, 0, i0, 0)
      requires Grandparent(d[..], size, vpc, i0)
      modifies d, this`pos
      ensures Heap()
      ensures SameOutside(pos, old(pos), members)
    {
      var moving := d[i0];
      SameOrder(d[..], size, vpc, i0, vpc[moving], i0, 0);
      var i := RaiseHole(i0, moving);
      CloseLinked(d[..], size, pos, members, i, moving);
      CloseOrdered(d[..], size, vpc, i, moving);
      Place(i, moving);
    }

    /** The child of slot `i` with the smaller priority, or 0 when slot `i` is a leaf. */
    method LesserChild(i: nat) returns (c: nat)
      requires 1 <= i < size <= d.Length
      requires forall j :: 2 * i <= j <= 2 * i + 1 && j < size ==> d[j] < |vpc|
      ensures IsLesserChild(d[..], size, vpc, i, c)
    {
      c := 2 * i;
      if c >= size {
        return 0;
      }
      if c + 1 < size && vpc[d[c]] > vpc[d[c + 1]] {
        c := c + 1;
      }
    }

    /** One step of a sinking hole: moves the lesser child up when it is below line `moving`
        and returns its slot, or returns 0 when the hole is where the line belongs. */
    method SinkStep(i: nat, moving: nat) returns (next: nat)
      requires 1 <= i < size && moving < |vpc| && |vpc| == |pos|
      requires Linked(d[..], size, pos, members, i, moving)
      requires Ordered(d[..], size, vpc, i, vpc[moving], 0, i)
      requires Grandparent(d[..], size, vpc, i)
      modifies d, this`pos
      ensures SameOutside(pos, old(pos), members)
      ensures next == 0 ==> Linked(d[..], size, pos, members, i, moving)
      ensures next == 0 ==> Ordered(d[..], size, vpc, i, vpc[moving], 0, 0)
      ensures next != 0 ==> i < next < size && Linked(d[..], size, pos, members, next, moving)
      ensures next != 0 ==> Ordered(d[..], size, vpc, next, vpc[moving], 0, next)
      ensures next != 0 ==> Grandparent(d[..], size, vpc, next)
    {
      next := LesserChild(i);
      if next == 0 || vpc[moving] <= vpc[d[next]] {
        RestOrdered(d[..], size, vpc, i, next, vpc[moving]);
        return 0;
      }
      ShiftLinked(d[..], size, pos, members, i, next, moving);
      ShiftDownOrdered(d[..], size, vpc, i, next, vpc[moving]);
      Place(i, d[next]);
    }

    /** Carries the hole left by line `moving` down to where the line belongs. */
    method SinkHole(i0: nat, moving: nat) returns (i: nat)
      requires 1 <= i0 < size && moving < |vpc| && |vpc| == |pos|
      requires Linked(d[..], size, pos, members, i0, moving)
      requires Ordered(d[..], size, vpc, i0, vpc[moving], 0, i0)
      requires Grandparent(d[..], size, vpc, i0)
      modifies d, this`pos
      ensures 1 <= i < size
      ensures Linked(d[..], size, pos, members, i, moving)
      ensures Ordered(d[..], size, vpc, i, vpc[moving], 0, 0)
      ensures SameOutside(pos, old(pos), members)
    {
      i := i0;
      var next := SinkStep(i, moving);
      while next != 0
        invariant 1 <= i < size && (next != 0 ==> i < next < size)
        invariant Linked(d[..], size, pos, members, if next == 0 then i else next, moving)
        invariant next == 0 ==> Ordered(d[..], size, vpc, i, vpc[moving], 0, 0)
        invariant next != 0 ==> Ordered(d[..], size, vpc, next, vpc[moving], 0, next)
        invariant next != 0 ==> Grandparent(d[..], size, vpc, next)
        invariant SameOutside(pos, old(pos), members)
        decreases next != 0, size - i
      {
        i := next;
        next := SinkStep(i, moving);
      }
    }

    /** Moves the line in slot `i0` away from the root. */
    method PercolateDown(i0: nat)
      requires 1 <= i0 < size <= d.Length && |vpc| == |pos| && d[i0] in members
      requires Linked(d[..], size, pos, members, i0, d[i0])
      requires Ordered(d[..], size, vpc, 0, 0, 0, i0)
      requires Grandparent(d[..], size, vpc, i0)
      modifies d, this`pos
      ensures Heap()
      ensures SameOutside(pos, old(pos), members)
    {
      var moving := d[i0];
      SameOrder(d[..], size, vpc, i0, vpc[moving], 0, i0);
      var i := SinkHole(i0, moving);
      CloseLinked(d[..], size, pos, members, i, moving);
      CloseOrdered(d[..], size, vpc, i, moving);
      Place(i, moving);
    }

    /** Adds a line that is not queued. The buffer has one slot more than there are lines,
        so it never overflows. */
    method Insert(l: nat)
      requires Valid()
      requires l < |vpc| && l !in members
      modifies this`size, this`pos, this`members, d
      ensures Valid()
      ensures members == old(members) + {l}
    {
      BelowCard(members + {l}, |vpc|);
      var i := size;
      ghost var before := d[..];
      size := size + 1;
      d[i] := l;
      members := members + {l};
      assert d[..] == before[i := l];
      assert forall j :: 1 <= j < i ==> PriAt(d[..], vpc, 0, 0, j) == PriAt(before, vpc, 0, 0, j);
      BubbleUp(i);
    }

    /** The back pointer tells whether a line is queued. */
    lemma PosIffMember(l: nat)
      requires Valid() && l < |vpc|
      ensures |pos| == |vpc| && (pos[l] != 0 <==> l in members)
    {
    }

    /** Changes the count of a line that is not queued. */
    method SetVpc(l: nat, v: int)
      requires Valid()
      requires l < |vpc| && l !in members
      modifies this`vpc
      ensures Valid()
      ensures vpc == old(vpc)[l := v]
    {
      ghost var before := vpc;
      vpc := vpc[l := v];
      assert forall j :: 1 <= j < size ==> PriAt(d[..], vpc, 0, 0, j) == PriAt(d[..], before, 0, 0, j);
    }

    /** Clears the back pointer of a line that has left the queue. */
    method ClearPos(l: nat)
      requires Heap() && l < |pos| && l !in members
      requires forall x :: 0 <= x < |pos| && x !in members && x != l ==> pos[x] == 0
      modifies this`pos
      ensures Valid()
    {
      pos := pos[l := 0];
    }

    /** Gives a queued line a new priority, in either direction. */
    method ChangePriority(newPri: int, l: nat)
      requires Valid()
      requires l in members
      modifies this`vpc, this`pos, d
      ensures Valid()
      ensures l < |old(vpc)| && vpc == old(vpc)[l := newPri]
    {
      var oldPri := vpc[l];
      var p := pos[l];
      Reprioritised(d[..], size, vpc, p, newPri);
      vpc := vpc[l := newPri];
      if oldPri > newPri {
        BubbleUp(p);
      } else {
        PercolateDown(p);
      }
    }

    /** A line with the fewest valid pages, when there is one. */
    method Peek() returns (found: bool, l: nat)
      requires Valid()
      ensures found <==> members != {}
      ensures forall m :: m in members ==> m < |vpc|
      ensures found ==> l in members && forall m :: m in members ==> vpc[l] <= vpc[m]
      ensures found ==> d.Length > 1 && l == d[1]
    {
      if size == 1 {
        return false, 0;
      }
      l := d[1];
      found := true;
      assert l in members;
      forall m | m in members
        ensures vpc[l] <= vpc[m]
      {
        RootIsLeast(d[..], size, vpc, pos[m]);
      }
    }

    /** Removes the root, if there is one. Its back pointer is left as it was: the caller resets it. */
    method Pop() returns (found: bool, l: nat)
      requires Valid()
      modifies this`size, this`pos, this`members, d
      ensures Heap()
      ensures found <==> old(members) != {}
      ensures !found ==> Valid() && members == {}
      ensures found ==> d.Length > 1 && old(d[1]) == l && l in old(members) && members == old(members) - {l}
      ensures found ==> forall x :: 0 <= x < |pos| && x !in members && x != l ==> pos[x] == 0
    {
      found, l := size > 1, 0;
      if !found {
        return;
      }
      l := d[1];
      ghost var before := d[..];
      size := size - 1;
      members := members - {l};
      d[1] := d[size];
      if size > 1 {
        assert d[..] == before[1 := before[size]];
        assert forall j :: 2 <= j < size ==> PriAt(d[..], vpc, 0, 0, j) == PriAt(before, vpc, 0, 0, j);
        PercolateDown(1);
      } else {
        assert d[..] == before;
      }
    }
  }
}
