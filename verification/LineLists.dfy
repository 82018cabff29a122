/**
 The census of lines. Every line plays exactly one part: it is on the free list or on the full
 list, it is queued as a victim, or it is the line of one of the two write pointers. While the
 collector works, its victim (`hole`) plays none of them.
 */
module LineLists {
  import opened Arithmetic
  import opened Sequences
  import opened Geometry
  import opened PageTables

  datatype LineState = LineState(free: seq<nat>, full: seq<nat>, victims: set<nat>, user: nat, gc: nat)

  /** A list with one line taken out. */
  function Without(s: seq<nat>, x: nat): seq<nat>
  {
    if s == [] then [] else if s[0] == x then s[1..] else [s[0]] + Without(s[1..], x)
  }

  lemma {:induction false} WithoutOne(s: seq<nat>, x: nat)
    requires NoDup(s) && x in s
    ensures NoDup(Without(s, x)) && |Without(s, x)| == |s| - 1
    ensures forall y :: y in Without(s, x) <==> y in s && y != x
  {
    if s[0] != x {
      WithoutOne(s[1..], x);
      var rest := Without(s[1..], x);
      assert s == [s[0]] + s[1..];
      assert s[0] !in s[1..];
      assert forall y :: y in [s[0]] + rest <==> y == s[0] || y in rest;
    } else {
      assert s == [s[0]] + s[1..];
      assert s[0] !in s[1..];
    }
  }

  function One(b: bool): nat { if b then 1 else 0 }

  /** How many parts line `l` plays. */
  ghost function Parts(ls: LineState, hole: int, l: nat): nat
  {
    One(l in ls.free) + One(l in ls.full) + One(l in ls.victims) + One(l == ls.user) + One(l == ls.gc) + One(l == hole)
  }

  ghost predicate Census(g: Geo, ls: LineState, hole: int)
  {
    && NoDup(ls.free) && NoDup(ls.full)
    && (forall l :: l in ls.free ==> l < g.lines)
    && (forall l :: l in ls.full ==> l < g.lines)
    && (forall l :: l in ls.victims ==> l < g.lines)
    && ls.user < g.lines && ls.gc < g.lines
    && (forall l {:trigger Parts(ls, hole, l)} :: 0 <= l < g.lines ==> Parts(ls, hole, l) == 1)
  }

  /** Free lines hold only free pages, full lines only valid ones, and victims have no free page
      and at least one invalid one. */
  ghost predicate Roles(g: Geo, status: map<Ppa, PageStatus>, ls: LineState)
  {
    && (forall l :: l in ls.free ==> LineAll(g, status, l, Free))
    && (forall l :: l in ls.full ==> LineAll(g, status, l, Valid))
    && (forall l :: l in ls.victims ==> LineNone(g, status, l, Free) && !LineAll(g, status, l, Valid))
  }

  lemma OnePart(g: Geo, ls: LineState, hole: int, l: nat)
    requires Census(g, ls, hole) && l < g.lines
    ensures Parts(ls, hole, l) == 1
  {
  }

  /** The line of an overwritten page: a full line becomes a victim, any other line keeps its part. */
  lemma InvalidateRoles(g: Geo, status: map<Ppa, PageStatus>, ls: LineState, p: Ppa)
    requires StatusTotal(g, status) && Census(g, ls, -1) && Roles(g, status, ls)
    requires p in status && status[p] == Valid
    ensures p.blk.line !in ls.free
    ensures p.blk.line !in ls.full ==> Roles(g, status[p := Invalid], ls)
    ensures p.blk.line in ls.full ==>
              Roles(g, status[p := Invalid], ls.(full := Without(ls.full, p.blk.line), victims := ls.victims +
                  {p.blk.line}))
  {
    var l := p.blk.line;
    assert p in LinePages(g, l);
    if l in ls.full {
      WithoutOne(ls.full, l);
      assert LineAll(g, status, l, Valid);
      OnePart(g, ls, -1, l);
    }
    var status' := status[p := Invalid];
    assert !LineAll(g, status', l, Valid) by { assert p in status' && status'[p] == Invalid; }
    assert forall m, st :: m != l && LineAll(g, status, m, st) ==> LineAll(g, status', m, st);
    forall m | m in ls.victims && m != l
      ensures LineNone(g, status', m, Free) && !LineAll(g, status', m, Valid)
    {
      var x :| x in LinePages(g, m) && x in status && status[x] != Valid;
      assert x in status' && status'[x] != Valid;
    }
  }

  lemma InvalidateCensus(g: Geo, ls: LineState, l: nat)
    requires Census(g, ls, -1) && l in ls.full
    ensures Census(g, ls.(full := Without(ls.full, l), victims := ls.victims + {l}), -1)
  {
    var ls' := ls.(full := Without(ls.full, l), victims := ls.victims + {l});
    WithoutOne(ls.full, l);
    forall m | 0 <= m < g.lines
      ensures Parts(ls', -1, m) == 1
    {
      assert Parts(ls, -1, m) == 1;
      assert Parts(ls, -1, l) == 1;
    }
  }

  /** A page of a write pointer's line is written: no list is affected. */
  lemma ValidateRoles(g: Geo, status: map<Ppa, PageStatus>, ls: LineState, hole: int, p: Ppa)
    requires StatusTotal(g, status) && Census(g, ls, hole) && Roles(g, status, ls)
    requires p in status && status[p] == Free && (p.blk.line == ls.user || p.blk.line == ls.gc)
    ensures Roles(g, status[p := Valid], ls)
  {
    var l := p.blk.line;
    OnePart(g, ls, hole, l);
    var status' := status[p := Valid];
    assert forall m, st :: m != l && LineAll(g, status, m, st) ==> LineAll(g, status', m, st);
    forall m | m in ls.victims
      ensures LineNone(g, status', m, Free) && !LineAll(g, status', m, Valid)
    {
      var x :| x in LinePages(g, m) && x in status && status[x] != Valid;
      assert x in status' && status'[x] != Valid;
    }
  }

  /** Retiring a write pointer's used-up line and taking the first free line instead. */
  ghost function Replaced(ls: LineState, user: bool, full: bool): LineState
    requires ls.free != []
  {
    var cur := if user then ls.user else ls.gc;
    LineState(ls.free[1..], WithFull(ls.full, cur, full), WithVictim(ls.victims, cur, full),
              if user then ls.free[0] else ls.user, if user then ls.gc else ls.free[0])
  }

  /** A line one of whose pages turned invalid is no longer full: if it was, it becomes a victim. */
  function LeaveFull(lines: seq<nat>, l: nat): seq<nat> { if l in lines then Without(lines, l) else lines }
  ghost function JoinVictims(victims: set<nat>, lines: seq<nat>, l: nat): set<nat>
  {
    if l in lines then victims + {l} else victims
  }

  /** A used-up line goes to the full lines if it is `full`, else to the victims. */
  ghost function WithFull(lines: seq<nat>, l: nat, full: bool): seq<nat> { if full then lines + [l] else lines }
  ghost function WithVictim(lines: set<nat>, l: nat, full: bool): set<nat> { if full then lines else lines + {l} }

  lemma ReplacedCensus(g: Geo, ls: LineState, hole: int, user: bool, full: bool)
    requires Census(g, ls, hole) && ls.free != []
    ensures Census(g, Replaced(ls, user, full), hole)
  {
    var ls' := Replaced(ls, user, full);
    var cur := if user then ls.user else ls.gc;
    assert ls.free == [ls.free[0]] + ls.free[1..];
    assert ls.free[0] !in ls.free[1..];
    assert forall l :: l in ls.free <==> l == ls.free[0] || l in ls.free[1..];
    assert forall l :: l in ls.full + [cur] <==> l in ls.full || l == cur;
    assert Parts(ls, hole, cur) == 1 && Parts(ls, hole, ls.free[0]) == 1;
    forall m | 0 <= m < g.lines
      ensures Parts(ls', hole, m) == 1
    {
      assert Parts(ls, hole, m) == 1;
    }
  }

  lemma ReplacedRoles(g: Geo, status: map<Ppa, PageStatus>, ls: LineState, user: bool, full: bool)
    requires Roles(g, status, ls) && ls.free != []
    requires LineNone(g, status, if user then ls.user else ls.gc, Free)
    requires full <==> LineAll(g, status, if user then ls.user else ls.gc, Valid)
    ensures Roles(g, status, Replaced(ls, user, full))
    ensures LineAll(g, status, ls.free[0], Free)
  {
  }

  /** Taking a victim out of the queue. */
  lemma SelectCensus(g: Geo, ls: LineState, v: nat)
    requires Census(g, ls, -1) && v in ls.victims
    ensures Census(g, ls.(victims := ls.victims - {v}), v)
  {
    var ls' := ls.(victims := ls.victims - {v});
    forall m | 0 <= m < g.lines
      ensures Parts(ls', v, m) == 1
    {
      assert Parts(ls, -1, m) == 1;
    }
  }

  /** Erasing pages of the collected line concerns no list. */
  lemma EraseRoles(g: Geo, status: map<Ppa, PageStatus>, ls: LineState, hole: nat, s: set<Ppa>)
    requires StatusTotal(g, status) && Census(g, ls, hole) && Roles(g, status, ls)
    requires s <= LinePages(g, hole) && hole < g.lines
    ensures Roles(g, Erased(status, s), ls)
  {
    OnePart(g, ls, hole, hole);
    var status' := Erased(status, s);
    assert forall m, st :: m != hole && LineAll(g, status, m, st) ==> LineAll(g, status', m, st);
    forall m | m in ls.victims
      ensures LineNone(g, status', m, Free) && !LineAll(g, status', m, Valid)
    {
      var x :| x in LinePages(g, m) && x in status && status[x] != Valid;
      assert x in status' && status'[x] != Valid;
    }
  }

  /** Putting the collected line at the end of the free list. */
  lemma FreedCensus(g: Geo, ls: LineState, hole: nat)
    requires Census(g, ls, hole) && hole < g.lines
    ensures Census(g, ls.(free := ls.free + [hole]), -1)
  {
    var ls' := ls.(free := ls.free + [hole]);
    assert Parts(ls, hole, hole) == 1;
    forall m | 0 <= m < g.lines
      ensures Parts(ls', -1, m) == 1
    {
      assert Parts(ls, hole, m) == 1;
    }
  }

  // ----- Free space -----

  /** The pages that can still be written: those of free lines and of the two open lines. */
  ghost function FreePages(g: Geo, status: map<Ppa, PageStatus>, ls: LineState): nat
  {
    |ls.free| * g.pgsPerLine + LineNum(g, status, ls.user, Free) + LineNum(g, status, ls.gc, Free)
  }

  /** Writing a page of an open line costs one. */
  lemma WriteCostsOne(g: Geo, status: map<Ppa, PageStatus>, ls: LineState, p: Ppa)
    requires p in status && status[p] == Free && ValidPpa(g, p) && ls.user != ls.gc
    requires p.blk.line == ls.user || p.blk.line == ls.gc
    ensures FreePages(g, status[p := Valid], ls) == FreePages(g, status, ls) - 1
  {
    var l := p.blk.line;
    var m := if l == ls.user then ls.gc else ls.user;
    NumSet(LinePages(g, l), status, p, Valid, Free);
    NumSame(LinePages(g, m), status, status[p := Valid], Free);
  }

  /** Replacing a used-up line by a free one costs nothing. */
  lemma ReplaceCostsNothing(g: Geo, status: map<Ppa, PageStatus>, ls: LineState, user: bool, full: bool)
    requires g.Derived() && StatusTotal(g, status)
    requires ls.free != [] && ls.user < g.lines && ls.gc < g.lines && ls.free[0] < g.lines
    requires LineNone(g, status, if user then ls.user else ls.gc, Free)
    requires LineAll(g, status, ls.free[0], Free)
    ensures FreePages(g, status, Replaced(ls, user, full)) == FreePages(g, status, ls)
  {
    LineCounts(g, status, if user then ls.user else ls.gc);
    LineCounts(g, status, ls.free[0]);
    MulStep(|ls.free|, g.pgsPerLine);
  }

  /**
   If at most two lines are free and no victim is queued, all other lines but the two open ones
   are full of valid pages, so at least that many logical pages are mapped.
   */
  lemma NoVictimMeansFull(g: Geo, mt: map<nat, Ppa>, rmap: map<Ppa, nat>, status: map<Ppa, PageStatus>, ls: LineState)
    requires g.Ok() && StatusTotal(g, status) && MapsAgree(mt, rmap, status, {})
    requires Census(g, ls, -1) && Roles(g, status, ls)
    requires |ls.free| <= 2 && ls.victims == {} && g.lines >= 4
    ensures (g.lines - 4) * g.pgsPerLine <= |mt.Keys|
  {
    FullLinesMapped(g, mt, rmap, status, Elems(ls.full));
    FullLineCount(g, ls);
    MulLe(g.lines - 4, |Elems(ls.full)|, g.pgsPerLine);
  }

  lemma FullLineCount(g: Geo, ls: LineState)
    requires Census(g, ls, -1)
    requires |ls.free| <= 2 && ls.victims == {}
    ensures |Elems(ls.full)| >= g.lines - 4
  {
    var (frees, fulls) := (Elems(ls.free), Elems(ls.full));
    var all := Range(g.lines);
    forall l | l in all
      ensures l in ((frees + fulls) + {ls.user}) + {ls.gc}
    {
      assert Parts(ls, -1, l) == 1;
    }
    ElemsCard(ls.free);
    RangeCard(g.lines);
    SubsetCard(all, ((frees + fulls) + {ls.user}) + {ls.gc});
    UnionCard(frees, fulls);
    UnionCard(frees + fulls, {ls.user});
    UnionCard((frees + fulls) + {ls.user}, {ls.gc});
  }

  lemma UnionCard(a: set<nat>, b: set<nat>)
    ensures |a + b| <= |a| + |b|
  {
    assert a + b == a + (b - a);
  }

  lemma {:induction false} SubsetCard(a: set<nat>, b: set<nat>)
    requires a <= b
    ensures |a| <= |b|
  {
    if a != {} {
      var x :| x in a;
      SubsetCard(a - {x}, b - {x});
    }
  }

  ghost function Elems(s: seq<nat>): (r: set<nat>)
    ensures forall l :: l in r <==> l in s
  {
    set l | l in s
  }

  lemma {:induction false} ElemsCard(s: seq<nat>)
    ensures |Elems(s)| <= |s|
  {
    if s == [] {
      assert Elems(s) == {};
    } else {
      ElemsCard(s[1..]);
      assert s == [s[0]] + s[1..];
      assert Elems(s) == {s[0]} + Elems(s[1..]);
      UnionCard({s[0]}, Elems(s[1..]));
    }
  }

  ghost function Range(n: nat): (r: set<nat>)
    ensures forall l :: l in r <==> 0 <= l < n
  {
    if n == 0 then {} else Range(n - 1) + {n - 1}
  }

  lemma {:induction false} RangeCard(n: nat)
    ensures |Range(n)| == n
  {
    if n > 0 {
      RangeCard(n - 1);
    }
  }
}
