/**
 The bookkeeping of pages, blocks and lines as one value, the steps that change it, and the
 invariant that every step keeps. The class of the translation layer refines these steps.
 */
module Bookkeeping {
  import opened Arithmetic
  import opened Geometry
  import opened PageTables
  import opened LineLists

  datatype Book = Book(
    status: map<Ppa, PageStatus>,
    bvpc: map<Blk, int>,     // valid pages of a block
    bipc: map<Blk, int>,     // invalid pages of a block
    vpc: seq<int>,           // valid pages of a line
    ipc: seq<int>,           // invalid pages of a line
    ls: LineState
  )

  /** Counters equal the true counts and lines play their parts; line `hole` is under collection. */
  ghost predicate BookOk(g: Geo, b: Book, hole: int)
  {
    && StatusTotal(g, b.status)
    && BlksCounted(g, b.status, b.bvpc, b.bipc)
    && LinesCounted(g, b.status, b.vpc, b.ipc, hole)
    && Census(g, b.ls, hole)
    && Roles(g, b.status, b.ls)
  }

  ghost predicate HasFree(g: Geo, b: Book, l: nat) { !LineNone(g, b.status, l, Free) }

  ghost function Space(g: Geo, b: Book): nat { FreePages(g, b.status, b.ls) }

  /** What may be done with a page of the device. */
  lemma PageInRange(g: Geo, b: Book, hole: int, p: Ppa)
    requires BookOk(g, b, hole)
    ensures p in b.status <==> ValidPpa(g, p)
    ensures |b.vpc| == |b.ipc| == g.lines
    ensures ValidPpa(g, p) ==> p.blk in b.bvpc && p.blk in b.bipc
  {
  }

  /** The counters of a page's block and line are the true counts. */
  lemma Counted(g: Geo, b: Book, hole: int, p: Ppa)
    requires BookOk(g, b, hole) && ValidPpa(g, p) && p.blk.line != hole
    ensures p.blk in b.bvpc && b.bvpc[p.blk] == Num(BlkPages(g, p.blk), b.status, Valid)
    ensures p.blk in b.bipc && b.bipc[p.blk] == Num(BlkPages(g, p.blk), b.status, Invalid)
    ensures |b.vpc| == g.lines && b.vpc[p.blk.line] == LineNum(g, b.status, p.blk.line, Valid)
    ensures |b.ipc| == g.lines && b.ipc[p.blk.line] == LineNum(g, b.status, p.blk.line, Invalid)
  {
  }

  lemma RoleOf(g: Geo, b: Book, hole: int, l: nat)
    requires BookOk(g, b, hole)
    ensures l in b.ls.free ==> LineAll(g, b.status, l, Free)
    ensures l in b.ls.full ==> LineAll(g, b.status, l, Valid)
    ensures l in b.ls.victims ==> LineNone(g, b.status, l, Free) && !LineAll(g, b.status, l, Valid)
  {
  }

  lemma StatusStep(g: Geo, status: map<Ppa, PageStatus>, p: Ppa, to: PageStatus)
    requires StatusTotal(g, status) && p in status
    ensures StatusTotal(g, status[p := to])
  {
  }

  lemma ErasedTotal(g: Geo, status: map<Ppa, PageStatus>, s: set<Ppa>)
    requires StatusTotal(g, status)
    ensures StatusTotal(g, Erased(status, s))
  {
  }

  /** The lines of the write pointers are different, and are in no list. */
  lemma OpenLines(g: Geo, b: Book, hole: int)
    requires BookOk(g, b, hole)
    ensures b.ls.user < g.lines && b.ls.gc < g.lines && b.ls.user != b.ls.gc
    ensures b.ls.user !in b.ls.victims && b.ls.gc !in b.ls.victims
    ensures b.ls.user != hole && b.ls.gc != hole
    ensures |b.vpc| == |b.ipc| == g.lines
  {
    OnePart(g, b.ls, hole, b.ls.user);
    OnePart(g, b.ls, hole, b.ls.gc);
  }

  // ----- A valid page turns invalid -----

  ghost function Invalidated(b: Book, p: Ppa): Book
    requires p in b.status && p.blk in b.bvpc && p.blk in b.bipc && p.blk.line < |b.vpc| == |b.ipc|
  {
    var l := p.blk.line;
    Book(b.status[p := Invalid],
         b.bvpc[p.blk := b.bvpc[p.blk] - 1], b.bipc[p.blk := b.bipc[p.blk] + 1],
         b.vpc[l := b.vpc[l] - 1], b.ipc[l := b.ipc[l] + 1],
         b.ls.(full := LeaveFull(b.ls.full, l), victims := JoinVictims(b.ls.victims, b.ls.full, l)))
  }

  /** The guards of the source's assertions hold, and a line is full exactly when its count says so. */
  lemma InvalidateGuards(g: Geo, b: Book, p: Ppa)
    requires g.Ok() && BookOk(g, b, -1) && p in b.status && b.status[p] == Valid
    requires HasFree(g, b, b.ls.user) && HasFree(g, b, b.ls.gc)
    ensures ValidPpa(g, p) && p.blk in b.bvpc && p.blk in b.bipc && |b.vpc| == |b.ipc| == g.lines
    ensures 0 <= b.bipc[p.blk] < g.pgsPerBlk && 0 < b.bvpc[p.blk] <= g.pgsPerBlk
    ensures 0 <= b.ipc[p.blk.line] < g.pgsPerLine && 0 < b.vpc[p.blk.line] <= g.pgsPerLine
    ensures b.vpc[p.blk.line] == g.pgsPerLine ==> b.ipc[p.blk.line] == 0
    ensures b.vpc[p.blk.line] == g.pgsPerLine <==> p.blk.line in b.ls.full
    ensures p.blk.line in b.ls.full ==> p.blk.line !in b.ls.victims
  {
    hide StatusTotal, BlksCounted, LinesCounted, Census, Roles;
    var l := p.blk.line;
    PageInRange(g, b, -1, p);
    Counted(g, b, -1, p);
    BlkCountBounds(g, b.status, p);
    LineCounts(g, b.status, l);
    OnePart(g, b.ls, -1, l);
    RoleOf(g, b, -1, l);
    assert p in LinePages(g, l);
    NumZero(LinePages(g, l), b.status, Valid);
  }

  lemma InvalidateKeeps(g: Geo, b: Book, p: Ppa)
    requires BookOk(g, b, -1) && p in b.status && b.status[p] == Valid
    ensures ValidPpa(g, p) && p.blk in b.bvpc && p.blk in b.bipc && |b.vpc| == |b.ipc| == g.lines
    ensures BookOk(g, Invalidated(b, p), -1)
    ensures Space(g, Invalidated(b, p)) == Space(g, b)
  {
    hide StatusTotal, BlksCounted, LinesCounted, Census, Roles;
    PageInRange(g, b, -1, p);
    StatusStep(g, b.status, p, Invalid);
    InvalidateRoles(g, b.status, b.ls, p);
    BlkCountStep(g, b.status, b.bvpc, b.bipc, p, Invalid);
    LineCountStep(g, b.status, b.vpc, b.ipc, -1, p, Invalid);
    if p.blk.line in b.ls.full {
      InvalidateCensus(g, b.ls, p.blk.line);
    }
    InvalidateCostsNothing(g, b.status, p, b.ls.user);
    InvalidateCostsNothing(g, b.status, p, b.ls.gc);
  }

  /** A page that turns invalid was not free. */
  lemma InvalidateCostsNothing(g: Geo, status: map<Ppa, PageStatus>, p: Ppa, l: nat)
    requires p in status && status[p] == Valid
    ensures LineNum(g, status[p := Invalid], l, Free) == LineNum(g, status, l, Free)
  {
    assert Pick(LinePages(g, l), status[p := Invalid], Free) == Pick(LinePages(g, l), status, Free);
  }

  // ----- A free page of an open line turns valid -----

  ghost function Validated(b: Book, p: Ppa): Book
    requires p in b.status && p.blk in b.bvpc && p.blk.line < |b.vpc|
  {
    b.(status := b.status[p := Valid], bvpc := b.bvpc[p.blk := b.bvpc[p.blk] + 1],
       vpc := b.vpc[p.blk.line := b.vpc[p.blk.line] + 1])
  }

  lemma ValidateGuards(g: Geo, b: Book, hole: int, p: Ppa)
    requires g.Ok() && BookOk(g, b, hole)
    requires p in b.status && b.status[p] == Free && (p.blk.line == b.ls.user || p.blk.line == b.ls.gc)
    ensures ValidPpa(g, p) && p.blk in b.bvpc && |b.vpc| == g.lines
    ensures 0 <= b.bvpc[p.blk] < g.pgsPerBlk && 0 <= b.vpc[p.blk.line] < g.pgsPerLine
  {
    hide StatusTotal, BlksCounted, LinesCounted, Census, Roles;
    PageInRange(g, b, hole, p);
    OpenLines(g, b, hole);
    Counted(g, b, hole, p);
    BlkCountBounds(g, b.status, p);
    LineCounts(g, b.status, p.blk.line);
    NumZero(LinePages(g, p.blk.line), b.status, Free);
  }

  lemma ValidateKeeps(g: Geo, b: Book, hole: int, p: Ppa)
    requires g.Ok() && BookOk(g, b, hole)
    requires p in b.status && b.status[p] == Free && (p.blk.line == b.ls.user || p.blk.line == b.ls.gc)
    ensures ValidPpa(g, p) && p.blk in b.bvpc && |b.vpc| == g.lines
    ensures BookOk(g, Validated(b, p), hole)
    ensures Space(g, Validated(b, p)) == Space(g, b) - 1
  {
    hide StatusTotal, BlksCounted, LinesCounted, Census, Roles;
    PageInRange(g, b, hole, p);
    OpenLines(g, b, hole);
    ValidateRoles(g, b.status, b.ls, hole, p);
    BlkCountStep(g, b.status, b.bvpc, b.bipc, p, Valid);
    LineCountStep(g, b.status, b.vpc, b.ipc, hole, p, Valid);
    WriteCostsOne(g, b.status, b.ls, p);
    StatusStep(g, b.status, p, Valid);
  }

  // ----- A used-up open line is retired and replaced -----

  /** A used-up line goes to the full list when all its pages are valid, else it becomes a victim. */
  lemma ReplaceKeeps(g: Geo, b: Book, hole: int, user: bool)
    requires g.Ok() && BookOk(g, b, hole) && b.ls.free != []
    requires !HasFree(g, b, if user then b.ls.user else b.ls.gc)
    ensures b.ls.free[0] < g.lines && |b.vpc| == |b.ipc| == g.lines
    ensures var cur := if user then b.ls.user else b.ls.gc;
            && cur < g.lines && cur !in b.ls.victims
            && (b.vpc[cur] == g.pgsPerLine ==> b.ipc[cur] == 0)
            && (b.vpc[cur] != g.pgsPerLine ==> 0 <= b.vpc[cur] < g.pgsPerLine && b.ipc[cur] > 0)
            && BookOk(g, b.(ls := Replaced(b.ls, user, b.vpc[cur] == g.pgsPerLine)), hole)
            && Space(g, b.(ls := Replaced(b.ls, user, b.vpc[cur] == g.pgsPerLine))) == Space(g, b)
    ensures LineAll(g, b.status, b.ls.free[0], Free)
  {
    OpenLines(g, b, hole);
    var cur := if user then b.ls.user else b.ls.gc;
    LineCounts(g, b.status, cur);
    var full := b.vpc[cur] == g.pgsPerLine;
    ReplacedCensus(g, b.ls, hole, user, full);
    ReplacedRoles(g, b.status, b.ls, user, full);
    assert b.ls.free[0] in b.ls.free;
    ReplaceCostsNothing(g, b.status, b.ls, user, full);
  }

  // ----- Collection of a line -----

  /** Taking a victim: it has no free page, and its counters are exact. */
  lemma SelectGuards(g: Geo, b: Book, v: nat)
    requires g.Ok() && BookOk(g, b, -1) && v in b.ls.victims
    ensures v < g.lines == |b.vpc| == |b.ipc|
    ensures LineNone(g, b.status, v, Free)
    ensures b.ipc[v] > 0 && b.vpc[v] >= 0 && b.vpc[v] + b.ipc[v] == g.pgsPerLine
    ensures b.vpc[v] == LineNum(g, b.status, v, Valid)
  {
    LineCounts(g, b.status, v);
  }

  lemma SelectKeeps(g: Geo, b: Book, v: nat)
    requires BookOk(g, b, -1) && v in b.ls.victims
    ensures BookOk(g, b.(ls := b.ls.(victims := b.ls.victims - {v})), v)
  {
    SelectCensus(g, b.ls, v);
  }

  ghost function BlkFreed(g: Geo, b: Book, e: Blk): Book
  {
    b.(status := Erased(b.status, BlkPages(g, e)), bvpc := b.bvpc[e := 0], bipc := b.bipc[e := 0])
  }

  lemma BlkFreedKeeps(g: Geo, b: Book, e: Blk)
    requires BookOk(g, b, e.line) && ValidBlk(g, e)
    ensures BookOk(g, BlkFreed(g, b, e), e.line)
    ensures Space(g, BlkFreed(g, b, e)) == Space(g, b)
  {
    hide StatusTotal, BlksCounted, LinesCounted, Census, Roles;
    var s := BlkPages(g, e);
    OpenLines(g, b, e.line);
    assert s <= LinePages(g, e.line);
    ErasedTotal(g, b.status, s);
    BlkErased(g, b.status, b.bvpc, b.bipc, e);
    LineErased(g, b.status, b.vpc, b.ipc, e.line, s);
    EraseRoles(g, b.status, b.ls, e.line, s);
    NumSame(LinePages(g, b.ls.user), b.status, Erased(b.status, s), Free);
    NumSame(LinePages(g, b.ls.gc), b.status, Erased(b.status, s), Free);
  }

  ghost function LineFreed(b: Book, v: nat): Book
    requires v < |b.vpc| == |b.ipc|
  {
    b.(vpc := b.vpc[v := 0], ipc := b.ipc[v := 0], ls := b.ls.(free := b.ls.free + [v]))
  }

  lemma LineFreedKeeps(g: Geo, b: Book, v: nat)
    requires g.Ok() && BookOk(g, b, v) && v < g.lines
    requires LineAll(g, b.status, v, Free)
    ensures |b.vpc| == |b.ipc| == g.lines && v !in b.ls.victims
    ensures BookOk(g, LineFreed(b, v), -1)
    ensures Space(g, LineFreed(b, v)) == Space(g, b) + g.pgsPerLine
  {
    FreedCensus(g, b.ls, v);
    OnePart(g, b.ls, v, v);
    NumZero(LinePages(g, v), b.status, Valid);
    NumZero(LinePages(g, v), b.status, Invalid);
    MulStep(|b.ls.free| + 1, g.pgsPerLine);
  }

  // ----- The initial state -----

  /** Every page is free, and the two write pointers took lines 0 and 1. */
  function Fresh(g: Geo): Book
  {
    Book(map c: nat, u: nat, l: nat, i: nat | 0 <= c < g.nchs && 0 <= u < g.luns && 0 <= l < g.lines
        && 0 <= i < g.pgsPerBlk
           :: Ppa(Blk(Die(c, u), l), i) := Free,
         map c: nat, u: nat, l: nat | 0 <= c < g.nchs && 0 <= u < g.luns && 0 <= l < g.lines :: Blk(Die(c, u), l) := 0,
         map c: nat, u: nat, l: nat | 0 <= c < g.nchs && 0 <= u < g.luns && 0 <= l < g.lines :: Blk(Die(c, u), l) := 0,
         seq(g.lines, _ => 0), seq(g.lines, _ => 0),
         LineState(if g.lines < 2 then [] else seq(g.lines - 2, i => i + 2), [], {}, 0, 1))
  }

  lemma FreshPages(g: Geo, p: Ppa)
    ensures p in Fresh(g).status <==> ValidPpa(g, p)
    ensures p in Fresh(g).status ==> Fresh(g).status[p] == Free
    ensures ValidBlk(g, p.blk) ==> p.blk in Fresh(g).bvpc && p.blk in Fresh(g).bipc
    ensures ValidBlk(g, p.blk) ==> Fresh(g).bvpc[p.blk] == 0 && Fresh(g).bipc[p.blk] == 0
  {
    var b := Fresh(g);
    if ValidPpa(g, p) {
      assert Ppa(Blk(Die(p.blk.die.ch, p.blk.die.lun), p.blk.line), p.pg) in b.status;
    }
    if ValidBlk(g, p.blk) {
      assert Blk(Die(p.blk.die.ch, p.blk.die.lun), p.blk.line) in b.bvpc;
    }
  }

  lemma FreshOk(g: Geo)
    requires g.Ok()
    ensures BookOk(g, Fresh(g), -1)
  {
    var b := Fresh(g);
    forall p
      ensures p in b.status <==> ValidPpa(g, p)
      ensures p in b.status ==> b.status[p] == Free
    {
      FreshPages(g, p);
    }
    forall e, st | st != Free
      ensures Num(BlkPages(g, e), b.status, st) == 0
    {
      NumZero(BlkPages(g, e), b.status, st);
    }
    forall e | ValidBlk(g, e)
      ensures e in b.bvpc && e in b.bipc && b.bvpc[e] == 0 && b.bipc[e] == 0
    {
      FreshPages(g, Ppa(e, 0));
    }
    forall l: nat, st | st != Free
      ensures LineNum(g, b.status, l, st) == 0
    {
      NumZero(LinePages(g, l), b.status, st);
    }
    forall l | 0 <= l < g.lines
      ensures Parts(b.ls, -1, l) == 1
    {
      if 2 <= l {
        assert b.ls.free[l - 2] == l;
      }
    }
  }

  /** All lines are free to write at first. */
  lemma FreshSpace(g: Geo)
    requires g.Ok()
    ensures Space(g, Fresh(g)) == g.lines * g.pgsPerLine
  {
    FreshOk(g);
    var b := Fresh(g);
    forall l: nat | l < g.lines
      ensures LineNum(g, b.status, l, Free) == g.pgsPerLine
    {
      LineCounts(g, b.status, l);
      forall p | p in LinePages(g, l) && p in b.status
        ensures b.status[p] == Free
      {
        FreshPages(g, p);
      }
    }
    MulStep(g.lines, g.pgsPerLine);
    MulStep(g.lines - 1, g.pgsPerLine);
  }
}
