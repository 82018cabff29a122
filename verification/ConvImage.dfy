/**
 What a dump holds of a partition of the translation layer, and the round trip of a whole namespace:
 tables are written in the order of page numbers, lines by their numbers.
 */
module ConvImage {
  import opened Arithmetic
  import opened Geometry
  import opened ConvSnapshot
  import LineLists
  import PageTables
  import Bookkeeping
  import ConvFtl
  import VictimQueue

  /** What a dump holds besides: erase counts and pointers of blocks, and the sectors of pages. */
  datatype Extra = Extra(erase: nat -> int, blkWp: nat -> int, sec: nat -> seq<int>)

  // ----- Addresses in the order of the file -----

  function DieAt(g: Geo, k: nat): Die { if g.luns == 0 then Die(0, 0) else Die(k / g.luns, k % g.luns) }

  function BlkAt(g: Geo, k: nat): Blk { if g.lines == 0 then Blk(Die(0, 0), 0)
      else Blk(DieAt(g, k / g.lines), k % g.lines) }

  function PpaAt(g: Geo, k: nat): Ppa
  {
    if g.pgsPerBlk == 0 then Ppa(BlkAt(g, 0), 0) else Ppa(BlkAt(g, k / g.pgsPerBlk), k % g.pgsPerBlk)
  }

  /** The page at the index of a page is that page. */
  lemma PpaAtIdx(g: Geo, p: Ppa)
    requires ValidPpa(g, p)
    ensures PpaAt(g, PgIdx(g, p)) == p
  {
    var (ch, lun, line) := (p.blk.die.ch, p.blk.die.lun, p.blk.line);
    var d := ch * g.luns + lun;
    var b := d * g.lines + line;
    NestedIdx(ch, lun, line, g.pgsPerBlk, g.lines, g.luns);
    DivUnique(PgIdx(g, p), g.pgsPerBlk, b, p.pg);
    DivUnique(b, g.lines, d, line);
    DivUnique(d, g.luns, ch, lun);
  }

  lemma NestedIdx(a: nat, b: nat, c: nat, ne: nat, nc: nat, nb: nat)
    ensures a * (ne * nc * nb) + b * (ne * nc) + c * ne == ((a * nb + b) * nc + c) * ne
  {
  }

  // ----- The image -----

  function Get(s: seq<int>, i: nat): int { if i < |s| then s[i] else 0 }

  function StatusCode(s: PageTables.PageStatus): int
  {
    match s
    case Free => 0
    case Invalid => 1
    case Valid => 2
  }

  function PageImage(f: ConvFtl.Ftl, x: Extra, k: nat): Page
    reads f
  {
    var p := PpaAt(f.g, k);
    Page(if p in f.status then StatusCode(f.status[p]) else 0, x.sec(k))
  }

  function BlockImage(f: ConvFtl.Ftl, x: Extra, k: nat): Block
    reads f
  {
    var b := BlkAt(f.g, k);
    Block(if b in f.blkIpc then f.blkIpc[b] else 0, if b in f.blkVpc then f.blkVpc[b] else 0, x.erase(k), x.blkWp(k),
          seq(f.g.pgsPerBlk, i requires 0 <= i reads f => PageImage(f, x, k * f.g.pgsPerBlk + i)))
  }

  function LineImages(f: ConvFtl.Ftl): (s: seq<Line>)
    reads f, f.vq
    ensures |s| == f.g.lines
    ensures forall i :: 0 <= i < |s| ==>
              s[i].id == i && s[i] == Line(i, Get(f.lineIpc, i), Get(f.vq.vpc, i), Get(f.vq.pos, i))
  {
    seq(f.g.lines, i requires 0 <= i reads f, f.vq => Line(i, Get(f.lineIpc, i), Get(f.vq.vpc, i), Get(f.vq.pos, i)))
  }

  function HeapImage(f: ConvFtl.Ftl): Heap
    reads f, f.vq, f.vq.d
  {
    var q := f.vq;
    Heap(q.size, f.g.lines + 1, f.g.lines + 1, if 1 <= q.size <= q.d.Length then q.d[1..q.size] else [])
  }

  function MapImage(f: ConvFtl.Ftl): (s: seq<int>)
    reads f
    ensures |s| == f.g.ttPgs
  {
    seq(f.g.ttPgs, l reads f => if l in f.maptbl then PgIdx(f.g, f.maptbl[l]) else UNMAPPED_PPA)
  }

  function RmapImage(f: ConvFtl.Ftl): (s: seq<int>)
    reads f
    ensures |s| == f.g.ttPgs
    ensures forall k :: 0 <= k < |s| ==> s[k] == if PpaAt(f.g, k) in f.rmap then f.rmap[PpaAt(f.g, k)] else INVALID_LPN
  {
    seq(f.g.ttPgs, k requires 0 <= k reads f =>
      if PpaAt(f.g, k) in f.rmap then f.rmap[PpaAt(f.g, k)] else INVALID_LPN)
  }

  function CounterImage(f: ConvFtl.Ftl): (s: seq<int>)
    reads f
    ensures |s| == f.g.nchs * f.g.luns
  {
    seq(f.g.nchs * f.g.luns, k requires 0 <= k reads f =>
      if DieAt(f.g, k) in f.pageCounter then f.pageCounter[DieAt(f.g, k)] else 0)
  }

  function Blocks(g: Geo): nat { g.nchs * g.luns * g.lines }

  /** What is saved of a partition. */
  function Image(f: ConvFtl.Ftl, x: Extra): (p: Part)
    reads f, f.vq, f.vq.d
    ensures |p.blks| == Blocks(f.g)
  {
    Part(seq(Blocks(f.g), k requires 0 <= k reads f => BlockImage(f, x, k)),
         Pointer(f.wpLine, f.wpDie.ch, f.wpDie.lun, f.wpPg, f.wpLine, 0),
         Pointer(f.gcLine, f.gcAt.ch, f.gcAt.lun, f.gcAt.pg, f.gcLine, 0),
         MapImage(f), RmapImage(f), CounterImage(f),
         Counts(f.freeCnt, f.victimCnt, f.fullCnt), LineImages(f), HeapImage(f), f.freeLines, f.fullLines)
  }

  function ShapeOf(g: Geo): Shape { Shape(Blocks(g), g.ttPgs, g.nchs * g.luns) }

  /** A consistent partition can be saved: the counters are exact and the lists hold its lines. */
  lemma ConsistentIsSavable(f: ConvFtl.Ftl, x: Extra)
    requires f.Consistent()
    ensures Savable(Image(f, x), ShapeOf(f.g))
  {
    hide VictimQueue.Ordered, Bookkeeping.Space, LineLists.Roles, PageTables.BlksCounted, PageTables.LinesCounted,
         PageTables.MapsAgree, PageTables.StatusTotal, Geo.Derived, PgIdx, ConvFtl.Ftl.UserOk, BlockImage, RmapImage,
         MapImage, CounterImage, LineImages, Blocks;
    var (q, p) := (f.vq, Image(f, x));
    assert VictimQueue.Linked(q.d[..], q.size, q.pos, q.members, 0, -1);
    forall i | 0 <= i < |p.heap.d|
      ensures p.heap.d[i] < |p.lines|
    {
      assert q.d[..][i + 1] in q.members;
    }
    forall i | 0 <= i < |p.free|
      ensures p.free[i] < |p.lines|
    {
      assert f.freeLines[i] in f.Snap().ls.free;
    }
    forall i | 0 <= i < |p.full|
      ensures p.full[i] < |p.lines|
    {
      assert f.fullLines[i] in f.Snap().ls.full;
    }
  }

  /** The data of every mapped logical page is saved: the two tables agree. */
  lemma MappedIsStored(f: ConvFtl.Ftl, l: nat, q: nat, n: nat)
    requires f.Consistent() && l in f.maptbl
    ensures l * n + q in Stored(RmapImage(f), q, n)
  {
    hide VictimQueue.Queue.Valid, Bookkeeping.Space, LineLists.Roles, LineLists.Census, PageTables.BlksCounted,
         PageTables.LinesCounted, PgIdx, ConvFtl.Ftl.UserOk, PpaAt;
    var a := f.maptbl[l];
    PgIdxInjective(f.g, a, a);
    PpaAtIdx(f.g, a);
    assert RmapImage(f)[PgIdx(f.g, a)] == l;
  }

  function Images(fs: seq<ConvFtl.Ftl>, x: nat -> Extra): (ps: seq<Part>)
    reads fs, set f | f in fs :: f.vq, set f | f in fs :: f.vq.d
    ensures |ps| == |fs| && forall i :: 0 <= i < |fs| ==> ps[i] == Image(fs[i], x(i))
  {
    seq(|fs|, i requires 0 <= i < |fs| reads fs, set f | f in fs :: f.vq,
        set f | f in fs :: f.vq.d => Image(fs[i], x(i)))
  }

  /**
   Saving a namespace of consistent partitions and loading the file: all tables, counters, lists, queues
   and write pointers come back as they were, the data of every mapped logical page of every
   partition is the same, and data is zero where no page has a reverse entry.
   */
  method SaveAndLoadNamespace(fs: seq<ConvFtl.Ftl>, x: nat -> Extra, addr: nat -> nat -> int, st: map<int, int>,
      geo: Geo)
    returns (r: seq<Part>, t: map<int, int>)
    requires forall i :: 0 <= i < |fs| ==> fs[i].Consistent() && fs[i].g == geo
    ensures r == Images(fs, x)
    ensures forall i, l :: 0 <= i < |fs| && l in fs[i].maptbl ==> Content(t, l * |fs| + i) == Content(st, l * |fs| + i)
    ensures forall k :: k !in AllStored(Images(fs, x), |fs|) ==> Content(t, k) == 0
  {
    hide ConvFtl.Ftl.Consistent, Savable, Image, Stored;
    var ps := Images(fs, x);
    forall i | 0 <= i < |fs|
      ensures Savable(ps[i], ShapeOf(geo))
    {
      ConsistentIsSavable(fs[i], x(i));
    }
    r, t := SaveAndLoad(ps, addr, st, ShapeOf(geo));
    forall i, l | 0 <= i < |fs| && l in fs[i].maptbl
      ensures Content(t, l * |fs| + i) == Content(st, l * |fs| + i)
    {
      MappedDataBack(fs, x, st, t, i, l);
    }
  }

  lemma MappedDataBack(fs: seq<ConvFtl.Ftl>, x: nat -> Extra, st: map<int, int>, t: map<int, int>, i: nat, l: nat)
    requires i < |fs| && fs[i].Consistent() && l in fs[i].maptbl
    requires Faithful(t, st) && t.Keys == AllStored(Images(fs, x), |fs|)
    ensures Content(t, l * |fs| + i) == Content(st, l * |fs| + i)
  {
    hide ConvFtl.Ftl.Consistent, Stored, Image, RmapImage, AllStored;
    MappedIsStored(fs[i], l, i, |fs|);
    ImageRmap(fs[i], x(i));
    KeyBack(Images(fs, x), st, t, i, l * |fs| + i);
  }

  lemma ImageRmap(f: ConvFtl.Ftl, x: Extra)
    ensures Image(f, x).rmap == RmapImage(f)
  {
  }

  lemma KeyBack(ps: seq<Part>, st: map<int, int>, t: map<int, int>, i: nat, key: int)
    requires i < |ps| && Faithful(t, st) && t.Keys == AllStored(ps, |ps|) && key in Stored(ps[i].rmap, i, |ps|)
    ensures Content(t, key) == Content(st, key)
  {
    hide Stored;
    StoredIn(ps, i, |ps|, key);
  }
}
