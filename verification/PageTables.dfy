/**
 The page-level tables of the flash translation layer and what ties them together:
 the forward map, the reverse map and the page states, and the counts derived from the states.

 A table indexed by an address is a map keyed by the address (Geometry.PgIdxInjective shows that
 the index arithmetic is one to one). An unmapped logical page is absent from the forward map;
 a page whose reverse entry is the invalid number is absent from the reverse map.
 */
module PageTables {
  import opened Arithmetic
  import opened Geometry

  datatype PageStatus = Free | Invalid | Valid

  ghost predicate StatusTotal(g: Geo, status: map<Ppa, PageStatus>)
  {
    forall p :: p in status <==> ValidPpa(g, p)
  }

  /**
   Logical page `l` maps to page `p` exactly when `p` is valid and its reverse entry is `l`; an
   invalid page has no reverse entry. A free page may keep a stale reverse entry: neither moving
   a page nor erasing its block clears it.

   `moved` holds the pages of a line under collection that were already copied away: they are
   exempt from the first rule, and nothing maps to them.
   */
  ghost predicate MapsAgree(mt: map<nat, Ppa>, rmap: map<Ppa, nat>, status: map<Ppa, PageStatus>, moved: set<Ppa>)
  {
    && (forall l :: l in mt ==> mt[l] in status && status[mt[l]] == Valid && mt[l] !in moved)
    && (forall l :: l in mt ==> mt[l] in rmap && rmap[mt[l]] == l)
    && (forall p :: p in status && p !in moved && status[p] == Valid ==> p in rmap && rmap[p] in mt && mt[rmap[p]] == p)
    && (forall p :: p in status && status[p] == Invalid ==> p !in rmap)
  }

  /** Overwriting: the old page becomes invalid and loses its reverse entry. */
  lemma UnmapAgrees(mt: map<nat, Ppa>, rmap: map<Ppa, nat>, status: map<Ppa, PageStatus>, l: nat)
    requires MapsAgree(mt, rmap, status, {})
    requires l in mt
    ensures MapsAgree(mt - {l}, rmap - {mt[l]}, status[mt[l] := Invalid], {})
  {
  }

  /** Placing an unmapped logical page on a free page. */
  lemma PlaceAgrees(mt: map<nat, Ppa>, rmap: map<Ppa, nat>, status: map<Ppa, PageStatus>, moved: set<Ppa>, l: nat,
      q: Ppa)
    requires MapsAgree(mt, rmap, status, moved)
    requires l !in mt && q in status && status[q] == Free && q !in moved
    ensures MapsAgree(mt[l := q], rmap[q := l], status[q := Valid], moved)
  {
  }

  /** Taking a valid page out of the line under collection. */
  lemma LiftAgrees(mt: map<nat, Ppa>, rmap: map<Ppa, nat>, status: map<Ppa, PageStatus>, moved: set<Ppa>, p: Ppa)
    requires MapsAgree(mt, rmap, status, moved)
    requires p in status && p !in moved && status[p] == Valid
    ensures p in rmap && rmap[p] in mt && mt[rmap[p]] == p
    ensures MapsAgree(mt - {rmap[p]}, rmap, status, moved + {p})
  {
  }

  /** The pages of a set, set free. */
  ghost function Erased(status: map<Ppa, PageStatus>, s: set<Ppa>): (r: map<Ppa, PageStatus>)
    ensures r.Keys == status.Keys
    ensures forall p :: p in status ==> r[p] == if p in s then Free else status[p]
  {
    map p | p in status :: if p in s then Free else status[p]
  }

  /** Erasing pages that were already copied away. */
  lemma EraseAgrees(mt: map<nat, Ppa>, rmap: map<Ppa, nat>, status: map<Ppa, PageStatus>, moved: set<Ppa>, s: set<Ppa>)
    requires MapsAgree(mt, rmap, status, moved)
    requires s <= moved
    ensures MapsAgree(mt, rmap, Erased(status, s), moved)
  {
  }

  /** Once all moved pages are free the exemption ends. */
  lemma AllErasedAgrees(mt: map<nat, Ppa>, rmap: map<Ppa, nat>, status: map<Ppa, PageStatus>, moved: set<Ppa>)
    requires MapsAgree(mt, rmap, status, moved)
    requires forall p :: p in moved && p in status ==> status[p] == Free
    ensures MapsAgree(mt, rmap, status, {})
  {
  }

  // ----- Counting pages -----

  /** The pages of a set that are in a given state. */
  ghost function Pick(s: set<Ppa>, status: map<Ppa, PageStatus>, st: PageStatus): (r: set<Ppa>)
    ensures forall p :: p in r <==> p in s && p in status && status[p] == st
  {
    set p | p in s && p in status && status[p] == st
  }

  ghost function Num(s: set<Ppa>, status: map<Ppa, PageStatus>, st: PageStatus): nat
  {
    |Pick(s, status, st)|
  }

  lemma NumSet(s: set<Ppa>, status: map<Ppa, PageStatus>, p: Ppa, to: PageStatus, st: PageStatus)
    requires p in s && p in status && status[p] != to
    ensures Num(s, status[p := to], st) ==
            Num(s, status, st) + (if st == to then 1 else if st == status[p] then -1 else 0)
  {
    var (before, after) := (Pick(s, status, st), Pick(s, status[p := to], st));
    if st == to {
      assert after == before + {p};
    } else if st == status[p] {
      assert before == after + {p};
    } else {
      assert after == before;
    }
  }

  lemma NumSame(s: set<Ppa>, status: map<Ppa, PageStatus>, status': map<Ppa, PageStatus>, st: PageStatus)
    requires forall p :: p in s ==> (p in status <==> p in status')
    requires forall p :: p in s && p in status ==> status[p] == status'[p]
    ensures Num(s, status', st) == Num(s, status, st)
  {
    assert Pick(s, status', st) == Pick(s, status, st);
  }

  /** Every page of a set is free, invalid or valid. */
  lemma NumTotal(s: set<Ppa>, status: map<Ppa, PageStatus>)
    requires forall p :: p in s ==> p in status
    ensures Num(s, status, Free) + Num(s, status, Invalid) + Num(s, status, Valid) == |s|
  {
    var (f, i, v) := (Pick(s, status, Free), Pick(s, status, Invalid), Pick(s, status, Valid));
    assert |f + i| == |f| + |i|;
    assert |(f + i) + v| == |f + i| + |v|;
    assert (f + i) + v == s;
  }

  lemma NumZero(s: set<Ppa>, status: map<Ppa, PageStatus>, st: PageStatus)
    ensures Num(s, status, st) == 0 <==> forall p :: p in s && p in status ==> status[p] != st
  {
    if Num(s, status, st) == 0 {
      assert Pick(s, status, st) == {};
    } else {
      assert Pick(s, status, st) != {};
    }
  }

  // ----- Lines -----

  /** Every page of line `l` is in state `st`. */
  ghost predicate LineAll(g: Geo, status: map<Ppa, PageStatus>, l: nat, st: PageStatus)
  {
    forall p :: p in LinePages(g, l) && p in status ==> status[p] == st
  }

  ghost predicate LineNone(g: Geo, status: map<Ppa, PageStatus>, l: nat, st: PageStatus)
  {
    forall p :: p in LinePages(g, l) && p in status ==> status[p] != st
  }

  ghost function LineNum(g: Geo, status: map<Ppa, PageStatus>, l: nat, st: PageStatus): nat
  {
    Num(LinePages(g, l), status, st)
  }

  /** The three counts of a line add up to its size; each is 0 exactly when no page is in the
      state, and the size exactly when all are. */
  lemma LineCounts(g: Geo, status: map<Ppa, PageStatus>, l: nat)
    requires g.Derived() && StatusTotal(g, status) && l < g.lines
    ensures LineNum(g, status, l, Free) + LineNum(g, status, l, Invalid) + LineNum(g, status, l, Valid) == g.pgsPerLine
    ensures LineNum(g, status, l, Free) == 0 <==> LineNone(g, status, l, Free)
    ensures LineNum(g, status, l, Valid) == g.pgsPerLine <==> LineAll(g, status, l, Valid)
    ensures LineNum(g, status, l, Free) == g.pgsPerLine <==> LineAll(g, status, l, Free)
  {
    var s := LinePages(g, l);
    LinePageCount(g, l);
    NumTotal(s, status);
    NumZero(s, status, Free);
    NumZero(s, status, Valid);
    NumZero(s, status, Invalid);
  }

  /** The line counters equal the true counts, except on line `hole`. */
  ghost predicate LinesCounted(g: Geo, status: map<Ppa, PageStatus>, vpc: seq<int>, ipc: seq<int>, hole: int)
  {
    && |vpc| == |ipc| == g.lines
    && (forall l :: 0 <= l < g.lines && l != hole ==> vpc[l] == LineNum(g, status, l, Valid))
    && (forall l :: 0 <= l < g.lines && l != hole ==> ipc[l] == LineNum(g, status, l, Invalid))
  }

  /** The block counters equal the true counts. */
  ghost predicate BlksCounted(g: Geo, status: map<Ppa, PageStatus>, bvpc: map<Blk, int>, bipc: map<Blk, int>)
  {
    && (forall b :: ValidBlk(g, b) ==> b in bvpc && bvpc[b] == Num(BlkPages(g, b), status, Valid))
    && (forall b :: ValidBlk(g, b) ==> b in bipc && bipc[b] == Num(BlkPages(g, b), status, Invalid))
  }

  /** Bounds on the counters of a block. */
  lemma BlkCountBounds(g: Geo, status: map<Ppa, PageStatus>, p: Ppa)
    requires StatusTotal(g, status) && ValidPpa(g, p)
    ensures Num(BlkPages(g, p.blk), status, Invalid) + Num(BlkPages(g, p.blk), status, Valid) <= g.pgsPerBlk
    ensures status[p] == Valid ==> Num(BlkPages(g, p.blk), status, Valid) > 0
    ensures status[p] == Free ==>
              Num(BlkPages(g, p.blk), status, Invalid) + Num(BlkPages(g, p.blk), status, Valid) < g.pgsPerBlk
  {
    var s := BlkPages(g, p.blk);
    BlkPageCount(p.blk, g.pgsPerBlk);
    NumTotal(s, status);
    NumZero(s, status, Valid);
    NumZero(s, status, Free);
  }

  /** A page of a line outside `hole` turns valid or invalid: its line counters follow. */
  lemma LineCountStep(g: Geo, status: map<Ppa, PageStatus>, vpc: seq<int>, ipc: seq<int>, hole: int, p: Ppa,
      to: PageStatus)
    requires LinesCounted(g, status, vpc, ipc, hole)
    requires ValidPpa(g, p) && p in status && p.blk.line != hole
    requires (status[p] == Valid && to == Invalid) || (status[p] == Free && to == Valid)
    ensures to == Invalid ==>
              LinesCounted(g, status[p := to], vpc[p.blk.line := vpc[p.blk.line] - 1],
                  ipc[p.blk.line := ipc[p.blk.line] + 1], hole)
    ensures to == Valid ==> LinesCounted(g, status[p := to], vpc[p.blk.line := vpc[p.blk.line] + 1], ipc, hole)
  {
    forall l, st | 0 <= l < g.lines
      ensures LineNum(g, status[p := to], l, st) ==
              if l == p.blk.line then LineNum(g, status, l, st) +
                  (if st == to then 1 else if st == status[p] then -1 else 0)
              else LineNum(g, status, l, st)
    {
      if l == p.blk.line {
        NumSet(LinePages(g, l), status, p, to, st);
      } else {
        NumSame(LinePages(g, l), status, status[p := to], st);
      }
    }
  }

  lemma BlkCountStep(g: Geo, status: map<Ppa, PageStatus>, bvpc: map<Blk, int>, bipc: map<Blk, int>, p: Ppa,
      to: PageStatus)
    requires BlksCounted(g, status, bvpc, bipc)
    requires ValidPpa(g, p) && p in status
    requires (status[p] == Valid && to == Invalid) || (status[p] == Free && to == Valid)
    ensures to == Invalid ==>
        BlksCounted(g, status[p := to], bvpc[p.blk := bvpc[p.blk] - 1], bipc[p.blk := bipc[p.blk] + 1])
    ensures to == Valid ==> BlksCounted(g, status[p := to], bvpc[p.blk := bvpc[p.blk] + 1], bipc)
  {
    forall b, st
      ensures Num(BlkPages(g, b), status[p := to], st) ==
              if b == p.blk then Num(BlkPages(g, b), status, st) +
                  (if st == to then 1 else if st == status[p] then -1 else 0)
              else Num(BlkPages(g, b), status, st)
    {
      if b == p.blk {
        NumSet(BlkPages(g, b), status, p, to, st);
      } else {
        NumSame(BlkPages(g, b), status, status[p := to], st);
      }
    }
  }

  /** Erasing a whole block clears its two counters. */
  lemma BlkErased(g: Geo, status: map<Ppa, PageStatus>, bvpc: map<Blk, int>, bipc: map<Blk, int>, e: Blk)
    requires BlksCounted(g, status, bvpc, bipc)
    ensures BlksCounted(g, Erased(status, BlkPages(g, e)), bvpc[e := 0], bipc[e := 0])
  {
    var status' := Erased(status, BlkPages(g, e));
    forall b, st | st != Free
      ensures Num(BlkPages(g, b), status', st) == if b == e then 0 else Num(BlkPages(g, b), status, st)
    {
      if b == e {
        NumZero(BlkPages(g, b), status', st);
      } else {
        NumSame(BlkPages(g, b), status, status', st);
      }
    }
  }

  /** Erasing pages of line `hole` leaves the counts of the other lines alone. */
  lemma LineErased(g: Geo, status: map<Ppa, PageStatus>, vpc: seq<int>, ipc: seq<int>, hole: nat, s: set<Ppa>)
    requires LinesCounted(g, status, vpc, ipc, hole)
    requires s <= LinePages(g, hole)
    ensures LinesCounted(g, Erased(status, s), vpc, ipc, hole)
  {
    forall l, st | 0 <= l < g.lines && l != hole
      ensures LineNum(g, Erased(status, s), l, st) == LineNum(g, status, l, st)
    {
      NumSame(LinePages(g, l), status, Erased(status, s), st);
    }
  }

  // ----- How many logical pages are mapped -----

  /** The pages that the forward map points to, restricted to a set of lines. */
  ghost function PagesOfLines(g: Geo, ls: set<nat>): (s: set<Ppa>)
    ensures forall p :: p in s <==> ValidDie(g, p.blk.die) && p.pg < g.pgsPerBlk && p.blk.line in ls
  {
    set l, c: nat, u: nat, i: nat | l in ls && 0 <= c < g.nchs && 0 <= u < g.luns && 0 <= i < g.pgsPerBlk ::
      Ppa(Blk(Die(c, u), l), i)
  }

  lemma {:induction false} PagesOfLinesCount(g: Geo, ls: set<nat>)
    requires g.Derived()
    ensures |PagesOfLines(g, ls)| == |ls| * g.pgsPerLine
  {
    if ls == {} {
      assert PagesOfLines(g, ls) == {};
    } else {
      var l :| l in ls;
      PagesOfLinesCount(g, ls - {l});
      LinePageCount(g, l);
      SplitLine(g, ls, l);
      assert |ls| == |ls - {l}| + 1;
      MulStep(|ls|, g.pgsPerLine);
    }
  }

  lemma SplitLine(g: Geo, ls: set<nat>, l: nat)
    requires l in ls
    ensures |PagesOfLines(g, ls)| == |PagesOfLines(g, ls - {l})| + |LinePages(g, l)|
  {
    assert PagesOfLines(g, ls) == PagesOfLines(g, ls - {l}) + LinePages(g, l);
    assert PagesOfLines(g, ls - {l}) !! LinePages(g, l);
  }

  /** An injective image is as large as its source. */
  lemma {:induction false} ImageCard(s: set<Ppa>, rmap: map<Ppa, nat>, mt: map<nat, Ppa>)
    requires forall p :: p in s ==> p in rmap && rmap[p] in mt && mt[rmap[p]] == p
    ensures |s| <= |mt.Keys|
    decreases s
  {
    if s == {} {
    } else {
      var p :| p in s;
      var mt' := mt - {rmap[p]};
      ImageCard(s - {p}, rmap, mt');
      assert mt.Keys == mt'.Keys + {rmap[p]};
    }
  }

  /** Full lines hold one distinct logical page on every page, so there are no more of their
      pages than mapped logical pages. */
  lemma FullLinesMapped(g: Geo, mt: map<nat, Ppa>, rmap: map<Ppa, nat>, status: map<Ppa, PageStatus>, ls: set<nat>)
    requires g.Derived() && StatusTotal(g, status) && MapsAgree(mt, rmap, status, {})
    requires forall l :: l in ls ==> l < g.lines && LineAll(g, status, l, Valid)
    ensures |ls| * g.pgsPerLine <= |mt.Keys|
  {
    var s := PagesOfLines(g, ls);
    PagesOfLinesCount(g, ls);
    forall p | p in s
      ensures p in rmap && rmap[p] in mt && mt[rmap[p]] == p
    {
      assert LineAll(g, status, p.blk.line, Valid);
      assert p in LinePages(g, p.blk.line);
    }
    ImageCard(s, rmap, mt);
  }
}
