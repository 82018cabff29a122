/**
 Saving and loading a conventional device: for each partition the flash, the write pointers, the
 tables, the lines, the victim queue and the line lists, and the data of every page that has a
 reverse entry. Lines are saved by their numbers and found again by searching for them.
 */
module ConvSnapshot {
  import opened DumpFile

  const INVALID_LPN: int := -1
  const UNMAPPED_PPA: int := -1

  datatype Page = Page(status: int, sec: seq<int>)
  datatype Block = Block(ipc: int, vpc: int, eraseCnt: int, wp: int, pgs: seq<Page>)
  datatype Line = Line(id: int, ipc: int, vpc: int, pos: int)
  datatype Pointer = Pointer(line: nat, ch: int, lun: int, pg: int, blk: int, pl: int)
  datatype Counts = Counts(free: int, victim: int, full: int)
  datatype Heap = Heap(size: int, avail: int, step: int, d: seq<nat>)

  datatype Part = Part(
    blks: seq<Block>,
    wp: Pointer,
    gcWp: Pointer,
    maptbl: seq<int>,
    rmap: seq<int>,
    counters: seq<int>,
    counts: Counts,
    lines: seq<Line>,
    heap: Heap,
    free: seq<nat>,
    full: seq<nat>)

  /** The shape of a partition: blocks, logical pages and dies. */
  datatype Shape = Shape(blks: nat, pgs: nat, dies: nat)

  // ----- What can be saved -----

  ghost predicate DistinctIds(lines: seq<Line>)
  {
    forall i, j :: 0 <= i < j < |lines| ==> lines[i].id != lines[j].id
  }

  ghost predicate Known(s: seq<nat>, lines: seq<Line>) { forall i :: 0 <= i < |s| ==> s[i] < |lines| }

  /** Line numbers are distinct, lists and queue hold lines, and the three counters count them. */
  ghost predicate Savable(p: Part, sh: Shape)
  {
    && DistinctIds(p.lines)
    && Known(p.heap.d, p.lines) && Known(p.free, p.lines) && Known(p.full, p.lines)
    && p.counts == Counts(|p.free|, |p.heap.d|, |p.full|)
    && p.wp.line < |p.lines| && p.gcWp.line < |p.lines|
    && |p.blks| == sh.blks && |p.maptbl| == |p.rmap| == sh.pgs && |p.counters| == sh.dies
  }

  // ----- The layout -----

  function PageCells(pg: Page): seq<int> { [|pg.sec|, pg.status] + pg.sec }

  function PagesCells(pgs: seq<Page>): seq<int>
  {
    if pgs == [] then [] else PageCells(pgs[0]) + PagesCells(pgs[1..])
  }

  function BlockCells(b: Block): seq<int> { [|b.pgs|, b.ipc, b.vpc, b.eraseCnt, b.wp] + PagesCells(b.pgs) }

  function BlocksCells(bs: seq<Block>): seq<int>
  {
    if bs == [] then [] else BlockCells(bs[0]) + BlocksCells(bs[1..])
  }

  /** A write pointer is written as it is in memory, with the address of its line, then the line number. */
  function PointerCells(w: Pointer, lines: seq<Line>, addr: nat -> int): seq<int>
    requires w.line < |lines|
  {
    [addr(w.line), w.ch, w.lun, w.pg, w.blk, w.pl, lines[w.line].id]
  }

  function LineCells(l: Line): seq<int> { [l.id, l.ipc, l.vpc, l.pos] }

  function LinesCells(ls: seq<Line>): seq<int>
  {
    if ls == [] then [] else LineCells(ls[0]) + LinesCells(ls[1..])
  }

  function Ids(s: seq<nat>, lines: seq<Line>): (r: seq<int>)
    requires Known(s, lines)
    ensures |r| == |s|
  {
    seq(|s|, i requires 0 <= i < |s| => lines[s[i]].id)
  }

  /** The content of a logical page; what was never stored is zero. */
  function Content(st: map<int, int>, l: int): int { if l in st then st[l] else 0 }

  /** The data of the pages from `i` on that have a reverse entry, in partition `q` of `n`. */
  function DataCells(rmap: seq<int>, q: nat, n: nat, st: map<int, int>): seq<int>
  {
    if rmap == [] then []
    else (if rmap[0] == INVALID_LPN then [] else [Content(st, rmap[0] * n + q)]) + DataCells(rmap[1..], q, n, st)
  }

  function FlashCells(p: Part, addr: nat -> int): seq<int>
    requires p.wp.line < |p.lines| && p.gcWp.line < |p.lines|
  {
    BlocksCells(p.blks) + (PointerCells(p.wp, p.lines, addr) + PointerCells(p.gcWp, p.lines, addr))
  }

  function TableCells(p: Part): seq<int> { p.maptbl + (p.rmap + p.counters) }

  function CountCells(p: Part): seq<int>
  {
    [|p.lines|, p.counts.free, p.counts.victim, p.counts.full] +
        (LinesCells(p.lines) + [p.heap.size, p.heap.avail, p.heap.step])
  }

  function ListCells(p: Part): seq<int>
    requires Known(p.heap.d, p.lines) && Known(p.free, p.lines) && Known(p.full, p.lines)
  {
    Ids(p.heap.d, p.lines) + (Ids(p.free, p.lines) + Ids(p.full, p.lines))
  }

  function PartCells(p: Part, addr: nat -> int, q: nat, n: nat, st: map<int, int>, sh: Shape): seq<int>
    requires Savable(p, sh)
  {
    FlashCells(p, addr) + (TableCells(p) + (CountCells(p) + (ListCells(p) + DataCells(p.rmap, q, n, st))))
  }

  // ----- Writing -----

  method SavePages(pgs: seq<Page>, f: File)
    modifies f`cells
    ensures f.cells == old(f.cells) + PagesCells(pgs)
  {
    hide PageCells;
    assert pgs[0..] == pgs;
    for i := 0 to |pgs|
      invariant f.cells + PagesCells(pgs[i..]) == old(f.cells) + PagesCells(pgs)
    {
      assert pgs[i..][1..] == pgs[i + 1..];
      f.PutNext(PageCells(pgs[i]), PagesCells(pgs[i + 1..]), old(f.cells) + PagesCells(pgs));
    }
  }

  method SaveBlocks(bs: seq<Block>, f: File)
    modifies f`cells
    ensures f.cells == old(f.cells) + BlocksCells(bs)
  {
    hide PagesCells;
    ghost var target := f.cells + BlocksCells(bs);
    assert bs[0..] == bs;
    for i := 0 to |bs|
      invariant f.cells + BlocksCells(bs[i..]) == target
    {
      assert bs[i..][1..] == bs[i + 1..];
      ghost var c := f.cells;
      f.PutAll([|bs[i].pgs|, bs[i].ipc, bs[i].vpc, bs[i].eraseCnt, bs[i].wp]);
      SavePages(bs[i].pgs, f);
      assert f.cells == c + BlockCells(bs[i]);
      assert f.cells + BlocksCells(bs[i + 1..]) == c + (BlockCells(bs[i]) + BlocksCells(bs[i + 1..]));
    }
  }

  method SaveLines(ls: seq<Line>, f: File)
    modifies f`cells
    ensures f.cells == old(f.cells) + LinesCells(ls)
  {
    hide LineCells;
    assert ls[0..] == ls;
    for i := 0 to |ls|
      invariant f.cells + LinesCells(ls[i..]) == old(f.cells) + LinesCells(ls)
    {
      assert ls[i..][1..] == ls[i + 1..];
      f.PutNext(LineCells(ls[i]), LinesCells(ls[i + 1..]), old(f.cells) + LinesCells(ls));
    }
  }

  /** Writes the numbers of the lines of a list. */
  method SaveIds(s: seq<nat>, lines: seq<Line>, f: File)
    requires Known(s, lines)
    modifies f`cells
    ensures f.cells == old(f.cells) + Ids(s, lines)
  {
    for i := 0 to |s|
      invariant f.cells == old(f.cells) + Ids(s, lines)[..i]
    {
      assert Ids(s, lines)[..i + 1] == Ids(s, lines)[..i] + [lines[s[i]].id];
      f.Put(lines[s[i]].id);
    }
    assert Ids(s, lines)[..|s|] == Ids(s, lines);
  }

  method SaveData(rmap: seq<int>, q: nat, n: nat, st: map<int, int>, f: File)
    modifies f`cells
    ensures f.cells == old(f.cells) + DataCells(rmap, q, n, st)
  {
    hide Content;
    assert rmap[0..] == rmap;
    for i := 0 to |rmap|
      invariant f.cells + DataCells(rmap[i..], q, n, st) == old(f.cells) + DataCells(rmap, q, n, st)
    {
      assert rmap[i..][1..] == rmap[i + 1..];
      if rmap[i] != INVALID_LPN {
        f.PutNext([Content(st, rmap[i] * n + q)], DataCells(rmap[i + 1..], q, n, st), old(f.cells) +
            DataCells(rmap, q, n, st));
      } else {
        assert DataCells(rmap[i..], q, n, st) == DataCells(rmap[i + 1..], q, n, st);
      }
    }
  }

  lemma Join3(x: seq<int>, a: seq<int>, b: seq<int>, c: seq<int>)
    ensures x + a + b + c == x + (a + (b + c))
  {
  }

  method SaveFlash(p: Part, addr: nat -> int, f: File)
    requires p.wp.line < |p.lines| && p.gcWp.line < |p.lines|
    modifies f`cells
    ensures f.cells == old(f.cells) + FlashCells(p, addr)
  {
    hide BlocksCells, PointerCells;
    SaveBlocks(p.blks, f);
    f.PutAll(PointerCells(p.wp, p.lines, addr));
    f.PutAll(PointerCells(p.gcWp, p.lines, addr));
    Join3(old(f.cells), BlocksCells(p.blks), PointerCells(p.wp, p.lines, addr), PointerCells(p.gcWp, p.lines, addr));
  }

  method SaveTables(p: Part, f: File)
    modifies f`cells
    ensures f.cells == old(f.cells) + TableCells(p)
  {
    f.PutAll(p.maptbl);
    f.PutAll(p.rmap);
    f.PutAll(p.counters);
    Join3(old(f.cells), p.maptbl, p.rmap, p.counters);
  }

  method SaveCounts(p: Part, f: File)
    modifies f`cells
    ensures f.cells == old(f.cells) + CountCells(p)
  {
    hide LinesCells;
    f.PutAll([|p.lines|, p.counts.free, p.counts.victim, p.counts.full]);
    SaveLines(p.lines, f);
    f.PutAll([p.heap.size, p.heap.avail, p.heap.step]);
    Join3(old(f.cells), [|p.lines|, p.counts.free, p.counts.victim, p.counts.full], LinesCells(p.lines),
        [p.heap.size, p.heap.avail, p.heap.step]);
  }

  /** As many lines of the queue are written as the counter of victims says. */
  method SaveLists(p: Part, f: File)
    requires Known(p.heap.d, p.lines) && Known(p.free, p.lines) && Known(p.full, p.lines)
        && p.counts.victim == |p.heap.d|
    modifies f`cells
    ensures f.cells == old(f.cells) + ListCells(p)
  {
    hide Ids;
    assert p.heap.d[..p.counts.victim] == p.heap.d;
    SaveIds(p.heap.d[..p.counts.victim], p.lines, f);
    SaveIds(p.free, p.lines, f);
    SaveIds(p.full, p.lines, f);
    Join3(old(f.cells), Ids(p.heap.d, p.lines), Ids(p.free, p.lines), Ids(p.full, p.lines));
  }

  method SavePart(p: Part, addr: nat -> int, q: nat, n: nat, st: map<int, int>, f: File, ghost sh: Shape)
    requires Savable(p, sh)
    modifies f`cells
    ensures f.cells == old(f.cells) + PartCells(p, addr, q, n, st, sh)
  {
    hide FlashCells, TableCells, CountCells, ListCells, DataCells, Content;
    ghost var (flash, tables, counts, lists, data) := (FlashCells(p, addr), TableCells(p), CountCells(p),
        ListCells(p), DataCells(p.rmap, q, n, st));
    SaveFlash(p, addr, f);
    SaveTables(p, f);
    SaveCounts(p, f);
    SaveLists(p, f);
    SaveData(p.rmap, q, n, st, f);
    Join3(old(f.cells) + flash + tables, counts, lists, data);
    Join3(old(f.cells), flash, tables, counts + (lists + data));
  }

  // ----- Reading -----

  method LoadPages(n: nat, f: File, ghost pgs: seq<Page>, ghost rest: seq<int>) returns (r: seq<Page>)
    requires n == |pgs| && At(f.cells, f.pos, PagesCells(pgs) + rest)
    modifies f`pos
    ensures r == pgs && At(f.cells, f.pos, rest) && f.pos == old(f.pos) + |PagesCells(pgs)|
  {
    hide At;
    r := [];
    ghost var end := f.pos + |PagesCells(pgs)|;
    assert pgs[0..] == pgs;
    for i := 0 to n
      invariant r == pgs[..i] && At(f.cells, f.pos, PagesCells(pgs[i..]) + rest)
          && f.pos + |PagesCells(pgs[i..])| == end
    {
      assert pgs[i..][1..] == pgs[i + 1..];
      ghost var tail := PagesCells(pgs[i + 1..]) + rest;
      assert PagesCells(pgs[i..]) + rest == [|pgs[i].sec|, pgs[i].status] + (pgs[i].sec + tail);
      var t := f.GetNext(2, [|pgs[i].sec|, pgs[i].status], pgs[i].sec + tail);
      var sec := f.GetNext(t[0], pgs[i].sec, tail);
      r := r + [Page(t[1], sec)];
    }
    assert PagesCells(pgs[n..]) + rest == rest;
  }

  method LoadBlocks(n: nat, f: File, ghost bs: seq<Block>, ghost rest: seq<int>) returns (r: seq<Block>)
    requires n == |bs| && At(f.cells, f.pos, BlocksCells(bs) + rest)
    modifies f`pos
    ensures r == bs && At(f.cells, f.pos, rest) && f.pos == old(f.pos) + |BlocksCells(bs)|
  {
    hide At, PagesCells;
    r := [];
    ghost var end := f.pos + |BlocksCells(bs)|;
    assert bs[0..] == bs;
    for i := 0 to n
      invariant r == bs[..i] && At(f.cells, f.pos, BlocksCells(bs[i..]) + rest) && f.pos + |BlocksCells(bs[i..])| == end
    {
      assert bs[i..][1..] == bs[i + 1..];
      ghost var tail := BlocksCells(bs[i + 1..]) + rest;
      ghost var h := [|bs[i].pgs|, bs[i].ipc, bs[i].vpc, bs[i].eraseCnt, bs[i].wp];
      assert BlocksCells(bs[i..]) + rest == h + (PagesCells(bs[i].pgs) + tail);
      var t := f.GetNext(5, h, PagesCells(bs[i].pgs) + tail);
      var pgs := LoadPages(t[0], f, bs[i].pgs, tail);
      r := r + [Block(t[1], t[2], t[3], t[4], pgs)];
    }
    assert BlocksCells(bs[n..]) + rest == rest;
  }

  method LoadLines(n: nat, f: File, ghost ls: seq<Line>, ghost rest: seq<int>) returns (r: seq<Line>)
    requires n == |ls| && At(f.cells, f.pos, LinesCells(ls) + rest)
    modifies f`pos
    ensures r == ls && At(f.cells, f.pos, rest) && f.pos == old(f.pos) + |LinesCells(ls)|
  {
    hide At;
    r := [];
    ghost var end := f.pos + |LinesCells(ls)|;
    assert ls[0..] == ls;
    for i := 0 to n
      invariant r == ls[..i] && At(f.cells, f.pos, LinesCells(ls[i..]) + rest) && f.pos + |LinesCells(ls[i..])| == end
    {
      assert ls[i..][1..] == ls[i + 1..];
      ghost var tail := LinesCells(ls[i + 1..]) + rest;
      assert LinesCells(ls[i..]) + rest == LineCells(ls[i]) + tail;
      var t := f.GetNext(4, LineCells(ls[i]), tail);
      r := r + [Line(t[0], t[1], t[2], t[3])];
    }
    assert LinesCells(ls[n..]) + rest == rest;
  }

  /** The first line with a number, or the number of lines when there is none. */
  method FindLine(lines: seq<Line>, id: int) returns (w: nat)
    ensures w <= |lines| && (w < |lines| ==> lines[w].id == id)
    ensures forall k :: 0 <= k < w ==> lines[k].id != id
  {
    w := 0;
    while w < |lines|
      invariant w <= |lines| && forall k :: 0 <= k < w ==> lines[k].id != id
    {
      if lines[w].id == id {
        return;
      }
      w := w + 1;
    }
  }

  /** Distinct numbers name their lines: a list of numbers gives back the list of lines, in order. */
  method FindLines(lines: seq<Line>, ids: seq<int>, ghost s: seq<nat>) returns (r: seq<nat>)
    requires DistinctIds(lines) && Known(s, lines) && ids == Ids(s, lines)
    ensures r == s
  {
    r := [];
    for i := 0 to |ids|
      invariant r == s[..i]
    {
      var w := FindLine(lines, ids[i]);
      assert ids[i] == lines[s[i]].id;
      assert w == s[i];
      if w < |lines| {
        r := r + [w];
      }
    }
  }

  /** The logical pages of the namespace whose data is in the file. */
  ghost function Stored(rmap: seq<int>, q: nat, n: nat): set<int>
  {
    set i | 0 <= i < |rmap| && rmap[i] != INVALID_LPN :: rmap[i] * n + q
  }

  ghost predicate Faithful(t: map<int, int>, st: map<int, int>)
  {
    forall k :: k in t ==> t[k] == Content(st, k)
  }

  /** Puts the data back where the reverse entries say; several entries of one page agree. */
  method LoadData(rmap: seq<int>, q: nat, n: nat, f: File, t: map<int, int>, ghost st: map<int, int>,
      ghost rest: seq<int>) returns (t': map<int, int>)
    requires At(f.cells, f.pos, DataCells(rmap, q, n, st) + rest) && Faithful(t, st)
    modifies f`pos
    ensures At(f.cells, f.pos, rest) && Faithful(t', st) && t'.Keys == t.Keys + Stored(rmap, q, n)
  {
    hide At, Content, Stored;
    t' := t;
    StoredNone(q, n);
    assert rmap[0..] == rmap && rmap[..0] == [];
    for i := 0 to |rmap|
      invariant At(f.cells, f.pos, DataCells(rmap[i..], q, n, st) + rest)
      invariant Faithful(t', st) && t'.Keys == t.Keys + Stored(rmap[..i], q, n)
    {
      StoredStep(rmap, i, q, n);
      assert rmap[i..][1..] == rmap[i + 1..];
      ghost var tail := DataCells(rmap[i + 1..], q, n, st) + rest;
      if rmap[i] != INVALID_LPN {
        ghost var c := Content(st, rmap[i] * n + q);
        assert DataCells(rmap[i..], q, n, st) + rest == [c] + tail;
        var d := f.GetNext(1, [c], tail);
        t' := t'[rmap[i] * n + q := d[0]];
      } else {
        assert DataCells(rmap[i..], q, n, st) + rest == tail;
      }
    }
    assert rmap[..|rmap|] == rmap;
    assert DataCells(rmap[|rmap|..], q, n, st) + rest == rest;
  }

  lemma StoredNone(q: nat, n: nat)
    ensures Stored([], q, n) == {}
  {
  }

  lemma StoredStep(rmap: seq<int>, i: nat, q: nat, n: nat)
    requires i < |rmap|
    ensures Stored(rmap[..i + 1], q, n) == Stored(rmap[..i], q, n) + if rmap[i] == INVALID_LPN then {}
        else {rmap[i] * n + q}
  {
    var (a, b) := (rmap[..i + 1], rmap[..i]);
    forall k | 0 <= k < i
      ensures a[k] == b[k]
    {
    }
    assert a[i] == rmap[i];
  }

  /** A write pointer as read, with the number of its line. */
  method LoadPointer(f: File, ghost w: Pointer, ghost lines: seq<Line>, ghost addr: nat -> int,
      ghost rest: seq<int>) returns (r: Pointer, id: int)
    requires w.line < |lines| && At(f.cells, f.pos, PointerCells(w, lines, addr) + rest)
    modifies f`pos
    ensures At(f.cells, f.pos, rest) && r.(line := w.line) == w && id == lines[w.line].id
  {
    hide At;
    var t := f.GetNext(7, PointerCells(w, lines, addr), rest);
    r, id := Pointer(0, t[1], t[2], t[3], t[4], t[5]), t[6];
  }

  method LoadFlash(blks: nat, f: File, ghost p: Part, ghost addr: nat -> int, ghost rest: seq<int>)
    returns (bs: seq<Block>, wp: Pointer, wpId: int, gcWp: Pointer, gcId: int)
    requires p.wp.line < |p.lines| && p.gcWp.line < |p.lines| && blks == |p.blks|
    requires At(f.cells, f.pos, FlashCells(p, addr) + rest)
    modifies f`pos
    ensures At(f.cells, f.pos, rest)
    ensures bs == p.blks && wp.(line := p.wp.line) == p.wp && gcWp.(line := p.gcWp.line) == p.gcWp
    ensures wpId == p.lines[p.wp.line].id && gcId == p.lines[p.gcWp.line].id
  {
    hide At, BlocksCells, PointerCells;
    ghost var (a, b, c) := (BlocksCells(p.blks), PointerCells(p.wp, p.lines, addr),
        PointerCells(p.gcWp, p.lines, addr));
    Assoc3(a, b, c, rest);
    bs := LoadBlocks(blks, f, p.blks, b + (c + rest));
    wp, wpId := LoadPointer(f, p.wp, p.lines, addr, c + rest);
    gcWp, gcId := LoadPointer(f, p.gcWp, p.lines, addr, rest);
  }

  lemma Assoc3(a: seq<int>, b: seq<int>, c: seq<int>, rest: seq<int>)
    ensures (a + (b + c)) + rest == a + (b + (c + rest))
  {
  }

  method LoadTables(pgs: nat, dies: nat, f: File, ghost p: Part, ghost rest: seq<int>) returns (mt: seq<int>,
      rm: seq<int>, ctr: seq<int>)
    requires |p.maptbl| == |p.rmap| == pgs && |p.counters| == dies && At(f.cells, f.pos, TableCells(p) + rest)
    modifies f`pos
    ensures At(f.cells, f.pos, rest) && mt == p.maptbl && rm == p.rmap && ctr == p.counters
  {
    hide At;
    Assoc3(p.maptbl, p.rmap, p.counters, rest);
    mt := f.GetNext(pgs, p.maptbl, p.rmap + (p.counters + rest));
    rm := f.GetNext(pgs, p.rmap, p.counters + rest);
    ctr := f.GetNext(dies, p.counters, rest);
  }

  method LoadCounts(f: File, ghost p: Part, ghost rest: seq<int>) returns (counts: Counts, lines: seq<Line>,
      size: int, avail: int, step: int)
    requires At(f.cells, f.pos, CountCells(p) + rest)
    modifies f`pos
    ensures At(f.cells, f.pos, rest) && counts == p.counts && lines == p.lines
    ensures size == p.heap.size && avail == p.heap.avail && step == p.heap.step
  {
    hide At, LinesCells;
    ghost var (h, t) := ([|p.lines|, p.counts.free, p.counts.victim, p.counts.full],
        [p.heap.size, p.heap.avail, p.heap.step]);
    Assoc3(h, LinesCells(p.lines), t, rest);
    var a := f.GetNext(4, h, LinesCells(p.lines) + (t + rest));
    lines := LoadLines(a[0], f, p.lines, t + rest);
    var b := f.GetNext(3, t, rest);
    counts := Counts(a[1], a[2], a[3]);
    size, avail, step := b[0], b[1], b[2];
  }

  /** As many line numbers are read for each list as its counter says. */
  method LoadLists(lines: seq<Line>, counts: Counts, f: File, ghost p: Part, ghost rest: seq<int>)
    returns (d: seq<nat>, free: seq<nat>, full: seq<nat>)
    requires DistinctIds(lines) && lines == p.lines && counts == Counts(|p.free|, |p.heap.d|, |p.full|)
    requires Known(p.heap.d, p.lines) && Known(p.free, p.lines) && Known(p.full, p.lines)
    requires At(f.cells, f.pos, ListCells(p) + rest)
    modifies f`pos
    ensures At(f.cells, f.pos, rest) && d == p.heap.d && free == p.free && full == p.full
  {
    hide At, DistinctIds;
    ghost var (a, b, c) := (Ids(p.heap.d, p.lines), Ids(p.free, p.lines), Ids(p.full, p.lines));
    Assoc3(a, b, c, rest);
    var ids := f.GetNext(counts.victim, a, b + (c + rest));
    d := FindLines(lines, ids, p.heap.d);
    ids := f.GetNext(counts.free, b, c + rest);
    free := FindLines(lines, ids, p.free);
    ids := f.GetNext(counts.full, c, rest);
    full := FindLines(lines, ids, p.full);
  }

  method LoadPart(sh: Shape, q: nat, n: nat, f: File, t: map<int, int>, ghost p: Part, ghost addr: nat -> int,
      ghost st: map<int, int>, ghost rest: seq<int>)
    returns (r: Part, t': map<int, int>)
    requires Savable(p, sh) && At(f.cells, f.pos, PartCells(p, addr, q, n, st, sh) + rest) && Faithful(t, st)
    modifies f`pos
    ensures r == p && At(f.cells, f.pos, rest)
    ensures Faithful(t', st) && t'.Keys == t.Keys + Stored(p.rmap, q, n)
  {
    hide At, FlashCells, TableCells, CountCells, ListCells, DataCells, Stored, Faithful, Content;
    ghost var (b, c, d, e) := (TableCells(p), CountCells(p), ListCells(p), DataCells(p.rmap, q, n, st));
    Assoc5(FlashCells(p, addr), b, c, d, e, rest);
    var bs, wp, wpId, gcWp, gcId := LoadFlash(sh.blks, f, p, addr, b + (c + (d + (e + rest))));
    var mt, rm, ctr := LoadTables(sh.pgs, sh.dies, f, p, c + (d + (e + rest)));
    var counts, lines, size, avail, step := LoadCounts(f, p, d + (e + rest));
    var heap, free, full := LoadLists(lines, counts, f, p, e + rest);
    var i := FindLine(lines, wpId);
    wp := wp.(line := i);
    i := FindLine(lines, gcId);
    gcWp := gcWp.(line := i);
    t' := LoadData(rm, q, n, f, t, st, rest);
    r := Part(bs, wp, gcWp, mt, rm, ctr, counts, lines, Heap(size, avail, step, heap), free, full);
  }

  lemma Assoc5(a: seq<int>, b: seq<int>, c: seq<int>, d: seq<int>, e: seq<int>, rest: seq<int>)
    ensures (a + (b + (c + (d + e)))) + rest == a + (b + (c + (d + (e + rest))))
  {
    Assoc3(a, b, c + (d + e), rest);
    Assoc3(c, d, e, rest);
  }

  // ----- The whole device -----

  /** The cells of the partitions from `q` on. */
  function DeviceCells(ps: seq<Part>, q: nat, addr: nat -> nat -> int, st: map<int, int>, sh: Shape): seq<int>
    requires forall i :: 0 <= i < |ps| ==> Savable(ps[i], sh)
    decreases |ps| - q
  {
    if q >= |ps| then [] else PartCells(ps[q], addr(q), q, |ps|, st, sh) + DeviceCells(ps, q + 1, addr, st, sh)
  }

  method SaveDevice(ps: seq<Part>, addr: nat -> nat -> int, st: map<int, int>, ghost sh: Shape) returns (f: File)
    requires forall i :: 0 <= i < |ps| ==> Savable(ps[i], sh)
    ensures fresh(f) && f.pos == 0 && f.cells == DeviceCells(ps, 0, addr, st, sh)
  {
    hide Savable, PartCells;
    f := new File();
    for q := 0 to |ps|
      invariant f.pos == 0 && f.cells + DeviceCells(ps, q, addr, st, sh) == DeviceCells(ps, 0, addr, st, sh)
    {
      SavePart(ps[q], addr(q), q, |ps|, st, f, sh);
    }
  }

  ghost function AllStored(ps: seq<Part>, q: nat): set<int>
    requires q <= |ps|
  {
    if q == 0 then {} else AllStored(ps, q - 1) + Stored(ps[q - 1].rmap, q - 1, |ps|)
  }

  /**
   Saving a device and loading the file: every table, counter, list, queue and write pointer comes back
   as it was, whatever the addresses of the lines were, and exactly the data of the pages with a
   reverse entry; all other data is zero.
   */
  method SaveAndLoad(ps: seq<Part>, addr: nat -> nat -> int, st: map<int, int>, sh: Shape) returns (r: seq<Part>,
      t: map<int, int>)
    requires forall i :: 0 <= i < |ps| ==> Savable(ps[i], sh)
    ensures r == ps
    ensures Faithful(t, st) && t.Keys == AllStored(ps, |ps|)
  {
    hide Savable, PartCells, Stored, Content;
    var f := SaveDevice(ps, addr, st, sh);
    r, t := [], map[];
    assert At(f.cells, f.pos, DeviceCells(ps, 0, addr, st, sh));
    for q := 0 to |ps|
      invariant r == ps[..q] && At(f.cells, f.pos, DeviceCells(ps, q, addr, st, sh))
      invariant Faithful(t, st) && t.Keys == AllStored(ps, q)
    {
      var p;
      p, t := LoadPart(sh, q, |ps|, f, t, ps[q], addr(q), st, DeviceCells(ps, q + 1, addr, st, sh));
      r := r + [p];
    }
  }

  lemma {:induction false} StoredIn(ps: seq<Part>, i: nat, q: nat, l: int)
    requires i < q <= |ps| && l in Stored(ps[i].rmap, i, |ps|)
    ensures l in AllStored(ps, q)
  {
    if i < q - 1 {
      StoredIn(ps, i, q - 1, l);
    }
  }
}
