/**
 The two write pointers of the flash translation layer.

 The collector's pointer walks a line in a fixed order: one one-shot page on every die in turn,
 then the next one-shot page. The user pointer keeps a page counter for every die and looks for
 the next die whose block is not used up. Each hands out every page of a line exactly once.
 */
module WritePointers {
  import opened Arithmetic
  import opened Geometry
  import opened PageTables

  // ----- The collector's pointer -----

  datatype GcPos = GcPos(ch: nat, lun: nat, pg: nat)

  ghost predicate ValidGcPos(g: Geo, at: GcPos) { at.ch < g.nchs && at.lun < g.luns && at.pg < g.pgsPerBlk }

  function PageAt(at: GcPos, line: nat): Ppa { Ppa(Blk(Die(at.ch, at.lun), line), at.pg) }

  /** The collector's pointer passed page `p` before it came to `at`. */
  ghost predicate Before(g: Geo, p: Ppa, at: GcPos)
    requires g.pgsPerOneshot > 0
  {
    var (row, cur) := (p.pg / g.pgsPerOneshot, at.pg / g.pgsPerOneshot);
    || row < cur
    || (row == cur && (|| p.blk.die.lun < at.lun
                       || (p.blk.die.lun == at.lun && (|| p.blk.die.ch < at.ch
                                                       || (p.blk.die.ch == at.ch && p.pg < at.pg)))))
  }

  /** The step of the collector's pointer inside a line; `done` when the line is used up. */
  function GcNext(g: Geo, at: GcPos): (r: (GcPos, bool))
    requires g.pgsPerOneshot > 0
  {
    var pg := at.pg + 1;
    if pg % g.pgsPerOneshot != 0 then (at.(pg := pg), false)
    else
      var back := if pg >= g.pgsPerOneshot then pg - g.pgsPerOneshot else 0;
      var ch := at.ch + 1;
      if ch != g.nchs then (GcPos(ch, at.lun, back), false)
      else
        var lun := at.lun + 1;
        if lun != g.luns then (GcPos(0, lun, back), false)
        else
          var next := back + g.pgsPerOneshot;
          if next != g.pgsPerBlk then (GcPos(0, 0, next), false)
          else (GcPos(0, 0, 0), true)
  }

  /** Page numbers below the block size are in rows below the number of one-shot pages. */
  lemma RowBound(g: Geo, x: nat)
    requires g.Ok() && x < g.pgsPerBlk
    ensures x / g.pgsPerOneshot < g.oneshotsPerBlk
    ensures x + 1 == g.pgsPerBlk ==> x / g.pgsPerOneshot == g.oneshotsPerBlk - 1
  {
    var n := g.pgsPerOneshot;
    assert g.pgsPerBlk == g.oneshotsPerBlk * n;
    if x / n >= g.oneshotsPerBlk {
      MulLe(g.oneshotsPerBlk, x / n, n);
    }
    if x + 1 == g.pgsPerBlk {
      MulStep(g.oneshotsPerBlk, n);
      DivUnique(x, n, g.oneshotsPerBlk - 1, n - 1);
    }
  }

  lemma BlkIsWholeRows(g: Geo)
    requires g.Ok()
    ensures g.pgsPerBlk % g.pgsPerOneshot == 0
  {
    DivUnique(g.pgsPerBlk, g.pgsPerOneshot, g.oneshotsPerBlk, 0);
  }

  /** The pointer stays inside the line. */
  lemma GcNextValid(g: Geo, at: GcPos)
    requires g.Ok() && ValidGcPos(g, at)
    ensures ValidGcPos(g, GcNext(g, at).0)
  {
    RowStep(at.pg, g.pgsPerOneshot);
    BlkIsWholeRows(g);
    if at.pg + 1 == g.pgsPerBlk {
      assert (at.pg + 1) % g.pgsPerOneshot == 0;
    }
  }

  /** A step of the pointer passes exactly the page it stood on; when the line is used up,
      every page was passed. */
  lemma GcNextPasses(g: Geo, at: GcPos, p: Ppa)
    requires g.Ok() && ValidGcPos(g, at)
    requires ValidDie(g, p.blk.die) && p.pg < g.pgsPerBlk
    ensures !GcNext(g, at).1 ==> (Before(g, p, GcNext(g, at).0) <==> Before(g, p, at) || p == PageAt(at, p.blk.line))
    ensures GcNext(g, at).1 ==> Before(g, p, at) || p == PageAt(at, p.blk.line)
  {
    var n := g.pgsPerOneshot;
    RowStep(at.pg, n);
    RowBound(g, p.pg);
    RowBound(g, at.pg);
    if p.pg / n == at.pg / n {
      SameRow(p.pg, at.pg, n);
      if (at.pg + 1) % n == 0 {
        SameRow(p.pg, at.pg + 1 - n, n);
      }
    }
    if (at.pg + 1) % n == 0 && p.pg / n == (at.pg + 1) / n {
      SameRow(p.pg, at.pg + 1, n);
    }
  }

  /** The free pages of the collector's line are those its pointer has not passed. While a page
      is being written (`busy`) the page under the pointer is in use too. */
  ghost predicate GcLine(g: Geo, status: map<Ppa, PageStatus>, line: nat, at: GcPos, busy: bool)
    requires g.pgsPerOneshot > 0
  {
    forall p :: p in LinePages(g, line) && p in status ==>
      (status[p] == Free <==> !(Before(g, p, at) || (busy && p == PageAt(at, line))))
  }

  /** The collector's pointer stands on a free page. */
  lemma GcPageFree(g: Geo, status: map<Ppa, PageStatus>, line: nat, at: GcPos)
    requires g.Ok() && StatusTotal(g, status) && ValidGcPos(g, at) && line < g.lines
    requires GcLine(g, status, line, at, false)
    ensures PageAt(at, line) in status && status[PageAt(at, line)] == Free
  {
    assert PageAt(at, line) in LinePages(g, line);
  }

  lemma GcLineWrite(g: Geo, status: map<Ppa, PageStatus>, line: nat, at: GcPos)
    requires g.Ok() && GcLine(g, status, line, at, false)
    ensures GcLine(g, status[PageAt(at, line) := Valid], line, at, true)
  {
  }

  /** A page that neither becomes nor ceases to be free does not concern a pointer. */
  lemma GcLineKeeps(g: Geo, status: map<Ppa, PageStatus>, line: nat, at: GcPos, busy: bool, p: Ppa, to: PageStatus)
    requires g.Ok() && GcLine(g, status, line, at, busy)
    requires p.blk.line != line || (p in status && status[p] != Free && to != Free)
    ensures GcLine(g, status[p := to], line, at, busy)
  {
  }

  lemma GcLineErase(g: Geo, status: map<Ppa, PageStatus>, line: nat, at: GcPos, busy: bool, e: Blk)
    requires g.Ok() && GcLine(g, status, line, at, busy) && e.line != line
    ensures GcLine(g, Erased(status, BlkPages(g, e)), line, at, busy)
  {
  }

  /** The pointer moves on to the next free page, or the line has none left. */
  lemma GcLineStep(g: Geo, status: map<Ppa, PageStatus>, line: nat, at: GcPos)
    requires g.Ok() && ValidGcPos(g, at) && GcLine(g, status, line, at, true)
    ensures !GcNext(g, at).1 ==> GcLine(g, status, line, GcNext(g, at).0, false)
    ensures GcNext(g, at).1 ==> LineNone(g, status, line, Free)
  {
    forall p | p in LinePages(g, line)
      ensures !GcNext(g, at).1 ==> (Before(g, p, GcNext(g, at).0) <==> Before(g, p, at) || p == PageAt(at, line))
      ensures GcNext(g, at).1 ==> Before(g, p, at) || p == PageAt(at, line)
    {
      GcNextPasses(g, at, p);
    }
  }

  /** A new line starts with all its pages free. */
  lemma GcLineStart(g: Geo, status: map<Ppa, PageStatus>, line: nat)
    requires g.Ok() && LineAll(g, status, line, Free)
    ensures GcLine(g, status, line, GcPos(0, 0, 0), false)
  {
    forall p
      ensures !Before(g, p, GcPos(0, 0, 0))
    {
      GcStart(g, p);
    }
  }

  lemma GcStart(g: Geo, p: Ppa)
    requires g.pgsPerOneshot > 0
    ensures !Before(g, p, GcPos(0, 0, 0))
  {
    DivUnique(0, g.pgsPerOneshot, 0, 0);
  }

  // ----- The user pointer -----

  /** The free pages of the user line are those at or above the counter of their die. */
  ghost predicate UserLine(g: Geo, status: map<Ppa, PageStatus>, line: nat, ctr: map<Die, nat>)
  {
    && (forall d :: ValidDie(g, d) ==> d in ctr && ctr[d] <= g.pgsPerBlk)
    && (forall p :: p in LinePages(g, line) && p in status ==> (status[p] == Free <==> p.pg >= ctr[p.blk.die]))
  }

  /** The table of page counters has an entry for every die. */
  ghost predicate CtrTotal(g: Geo, ctr: map<Die, nat>)
  {
    forall d :: d in ctr <==> ValidDie(g, d)
  }

  lemma UserPageFree(g: Geo, status: map<Ppa, PageStatus>, line: nat, ctr: map<Die, nat>, d: Die)
    requires StatusTotal(g, status) && UserLine(g, status, line, ctr)
    requires ValidDie(g, d) && d in ctr && ctr[d] < g.pgsPerBlk && line < g.lines
    ensures Ppa(Blk(d, line), ctr[d]) in status && status[Ppa(Blk(d, line), ctr[d])] == Free
    ensures !LineNone(g, status, line, Free)
  {
    assert Ppa(Blk(d, line), ctr[d]) in LinePages(g, line);
  }

  lemma UserLineWrite(g: Geo, status: map<Ppa, PageStatus>, line: nat, ctr: map<Die, nat>, d: Die)
    requires UserLine(g, status, line, ctr)
    requires d in ctr && ctr[d] < g.pgsPerBlk
    ensures UserLine(g, status[Ppa(Blk(d, line), ctr[d]) := Valid], line, ctr[d := ctr[d] + 1])
  {
  }

  lemma UserLineKeeps(g: Geo, status: map<Ppa, PageStatus>, line: nat, ctr: map<Die, nat>, p: Ppa, to: PageStatus)
    requires UserLine(g, status, line, ctr)
    requires p.blk.line != line || (p in status && status[p] != Free && to != Free)
    ensures UserLine(g, status[p := to], line, ctr)
  {
  }

  lemma UserLineErase(g: Geo, status: map<Ppa, PageStatus>, line: nat, ctr: map<Die, nat>, e: Blk)
    requires UserLine(g, status, line, ctr) && e.line != line
    ensures UserLine(g, Erased(status, BlkPages(g, e)), line, ctr)
  {
  }

  /** When every block of the line is used up no free page is left, and only then. */
  lemma UserLineDone(g: Geo, status: map<Ppa, PageStatus>, line: nat, ctr: map<Die, nat>)
    requires StatusTotal(g, status) && UserLine(g, status, line, ctr) && line < g.lines && CtrTotal(g, ctr)
    ensures (forall d :: d in ctr ==> ctr[d] >= g.pgsPerBlk) <==> LineNone(g, status, line, Free)
  {
    if d :| d in ctr && ctr[d] < g.pgsPerBlk {
      UserPageFree(g, status, line, ctr, d);
    }
  }

  lemma UserLineStart(g: Geo, status: map<Ppa, PageStatus>, line: nat, ctr: map<Die, nat>)
    requires LineAll(g, status, line, Free) && CtrTotal(g, ctr)
    requires forall d :: d in ctr ==> ctr[d] == 0
    ensures UserLine(g, status, line, ctr)
  {
  }

  /** Die `d` comes after `s` in the order of the scan: channel by channel, then the next row of dies. */
  predicate After(s: Die, d: Die) { d.lun > s.lun || (d.lun == s.lun && d.ch > s.ch) }

  /** The dies visited by a scan that started after `s` and stands on `e`, going round at most once. */
  ghost predicate Visited(s: Die, e: Die, wrapped: bool, d: Die)
  {
    if wrapped then After(s, d) || !After(e, d) else After(s, d) && !After(e, d)
  }

  /** Going round from `s` to `d`, die `e` is passed on the way. From a die to itself all others are. */
  ghost predicate Between(s: Die, e: Die, d: Die)
  {
    if After(s, d) then After(s, e) && After(e, d) else After(s, e) || After(e, d)
  }

  /** Going round from `s`, die `d` is the first whose block has free pages. */
  ghost predicate FirstOpen(g: Geo, ctr: map<Die, nat>, s: Die, d: Die)
  {
    && ValidDie(g, d) && d in ctr && ctr[d] < g.pgsPerBlk
    && forall e :: ValidDie(g, e) && e in ctr && Between(s, e, d) ==> ctr[e] >= g.pgsPerBlk
  }

  /** No block of the line has a free page left. */
  ghost predicate UsedUp(g: Geo, ctr: map<Die, nat>)
  {
    forall e :: ValidDie(g, e) && e in ctr ==> ctr[e] >= g.pgsPerBlk
  }

  /** The scan for a die whose block has free pages. It starts with the die after `s`, goes round
      once, and ends with the first such die; it fails exactly when every block is used up. */
  method ScanDies(g: Geo, ctr: map<Die, nat>, s: Die) returns (found: bool, d: Die)
    requires g.Ok() && ValidDie(g, s)
    requires forall e :: ValidDie(g, e) ==> e in ctr
    ensures ValidDie(g, d)
    ensures found ==> FirstOpen(g, ctr, s, d)
    ensures found <==> !UsedUp(g, ctr)
    ensures !found ==> d == s
  {
    d := s;
    ghost var wrapped := false;
    while true
      invariant ValidDie(g, d)
      invariant wrapped ==> !After(s, d) && d != s
      invariant !wrapped ==> !After(d, s)
      invariant forall e :: ValidDie(g, e) && Visited(s, d, wrapped, e) ==> ctr[e] >= g.pgsPerBlk
      decreases !wrapped, g.luns - d.lun, g.nchs - d.ch
    {
      var ch, lun := d.ch + 1, d.lun;
      if ch == g.nchs {
        ch := 0;
        lun := lun + 1;
        if lun == g.luns {
          lun := 0;
          wrapped := true;
        }
      }
      d := Die(ch, lun);
      if ctr[d] < g.pgsPerBlk {
        found := true;
        return;
      }
      if d == s {
        found := false;
        return;
      }
    }
  }

  // ----- Striping -----

  /**
   The pages of the user line are spread evenly: with `b` pages of every die written before this round,
   the dies before `cur` have one one-shot page more, the dies after it none, and `cur` has less than one.
   */
  ghost predicate Striped(g: Geo, ctr: map<Die, nat>, cur: Die)
  {
    && g.pgsPerOneshot > 0 && cur in ctr
    && var b := ctr[cur] - ctr[cur] % g.pgsPerOneshot;
       forall d :: d in ctr && d != cur ==> ctr[d] == if After(d, cur) then b + g.pgsPerOneshot else b
  }

  /** Of any two dies of the user line neither is more than one one-shot page ahead. */
  lemma StripedEven(g: Geo, ctr: map<Die, nat>, cur: Die, d: Die, e: Die)
    requires Striped(g, ctr, cur) && d in ctr && e in ctr
    ensures ctr[d] / g.pgsPerOneshot <= ctr[e] / g.pgsPerOneshot + 1
  {
    hide After;
    var os := g.pgsPerOneshot;
    WholeRow(ctr[cur], os);
    var b := ctr[cur] - ctr[cur] % os;
    assert ctr[d] == b || ctr[d] == b + os || ctr[d] == ctr[cur];
    assert ctr[e] == b || ctr[e] == b + os || ctr[e] == ctr[cur];
  }

  /** How the user pointer goes on from die `s` at the end of a one-shot page: to the first die with free
      pages, or to the first die of the first free line when the line is used up. */
  ghost predicate GoesOn(g: Geo, ctr: map<Die, nat>, s: Die, line: nat, free: seq<nat>,
                         ctr': map<Die, nat>, d: Die, line': nat)
  {
    if UsedUp(g, ctr) then
      && d == Die(0, 0) && free != [] && line' == free[0]
      && ctr'.Keys == ctr.Keys && forall e :: e in ctr' ==> ctr'[e] == 0
    else
      FirstOpen(g, ctr, s, d) && line' == line && ctr' == ctr
  }

  /** How the user pointer goes on after a page on die `s`, when it does not choose to stay. */
  ghost predicate Steps(g: Geo, ctr: map<Die, nat>, s: Die, line: nat, free: seq<nat>,
                        ctr': map<Die, nat>, d: Die, line': nat)
    requires s in ctr && g.pgsPerOneshot > 0
  {
    var c := ctr[s := ctr[s] + 1];
    if c[s] % g.pgsPerOneshot != 0 then d == s && line' == line && ctr' == c
    else GoesOn(g, c, s, line, free, ctr', d, line')
  }

  /** With all dies up to `s` one one-shot page ahead of `b`, the first one with free pages goes on striped. */
  lemma StripeTurn(g: Geo, c: map<Die, nat>, s: Die, d: Die, b: nat)
    requires g.Ok() && (forall e :: e in c ==> ValidDie(g, e)) && b + g.pgsPerOneshot <= g.pgsPerBlk
    requires b % g.pgsPerOneshot == 0 && (b + g.pgsPerOneshot) % g.pgsPerOneshot == 0
    requires forall e :: e in c ==> c[e] == if After(s, e) then b else b + g.pgsPerOneshot
    requires FirstOpen(g, c, s, d)
    ensures Striped(g, c, d)
  {
  }

  /** A new line is striped from its first die on. */
  lemma StripeStart(g: Geo, c: map<Die, nat>)
    requires g.pgsPerOneshot > 0 && Die(0, 0) in c && forall e :: e in c ==> c[e] == 0
    ensures Striped(g, c, Die(0, 0))
  {
    DivUnique(0, g.pgsPerOneshot, 0, 0);
  }

  /** A page that does not end its one-shot page keeps the line striped. */
  lemma StripeStay(g: Geo, ctr: map<Die, nat>, s: Die)
    requires Striped(g, ctr, s) && (ctr[s] + 1) % g.pgsPerOneshot != 0
    ensures Striped(g, ctr[s := ctr[s] + 1], s)
  {
    hide After;
    NextInRow(ctr[s], g.pgsPerOneshot);
  }

  /** Such steps keep the line striped. */
  lemma StripeStep(g: Geo, ctr: map<Die, nat>, s: Die, line: nat, free: seq<nat>, ctr': map<Die, nat>, d: Die,
                   line': nat)
    requires g.Ok() && (forall e :: e in ctr <==> ValidDie(g, e)) && s in ctr
    requires forall e :: e in ctr ==> ctr[e] <= g.pgsPerBlk
    requires ctr[s] < g.pgsPerBlk && Striped(g, ctr, s) && Steps(g, ctr, s, line, free, ctr', d, line')
    ensures Striped(g, ctr', d)
  {
    hide FirstOpen, UsedUp, Striped;
    var (os, x) := (g.pgsPerOneshot, ctr[s]);
    var c := ctr[s := x + 1];
    if (x + 1) % os != 0 {
      StripeStay(g, ctr, s);
    } else if UsedUp(g, c) {
      StripeStart(g, ctr');
    } else {
      StripeAhead(g, ctr, s);
      WholeRow(x, os);
      StripeTurn(g, c, s, d, x - x % os);
    }
  }

  /** The page that ends the one-shot page puts die `s` ahead as those before it. */
  lemma StripeAhead(g: Geo, ctr: map<Die, nat>, s: Die)
    requires Striped(g, ctr, s) && (ctr[s] + 1) % g.pgsPerOneshot == 0
    ensures var (c, b) := (ctr[s := ctr[s] + 1], ctr[s] - ctr[s] % g.pgsPerOneshot);
            c[s] == b + g.pgsPerOneshot && forall e :: e in c ==> c[e] == if After(s, e) then b else c[s]
  {
    NextInRow(ctr[s], g.pgsPerOneshot);
  }

  /** The multiples around a number. */
  lemma WholeRow(x: nat, n: nat)
    requires n > 0
    ensures var b := x - x % n;
            b % n == 0 && (b + n) % n == 0 && b / n == x / n && (b + n) / n == x / n + 1
  {
    var k := x / n;
    assert x - x % n == k * n;
    DivUnique(k * n, n, k, 0);
    MulStep(k + 1, n);
    DivUnique(k * n + n, n, k + 1, 0);
  }

  /** All counters back to zero, asserting that every block was used up. */
  method ResetCounters(g: Geo, ctr: map<Die, nat>) returns (r: map<Die, nat>)
    requires CtrTotal(g, ctr)
    requires forall d :: d in ctr ==> ctr[d] == g.pgsPerBlk
    ensures CtrTotal(g, r)
    ensures forall d :: d in r ==> r[d] == 0
  {
    r := ctr;
    for i := 0 to g.nchs
      invariant CtrTotal(g, r)
      invariant forall d :: d in r ==> r[d] == if d.ch < i then 0 else g.pgsPerBlk
    {
      for j := 0 to g.luns
        invariant CtrTotal(g, r)
        invariant forall d :: d in r ==> r[d] == if d.ch < i || (d.ch == i && d.lun < j) then 0 else g.pgsPerBlk
      {
        assert r[Die(i, j)] == g.pgsPerBlk;
        r := r[Die(i, j) := 0];
      }
    }
  }

  /** The counters of a new device. */
  function ZeroCounters(g: Geo): (r: map<Die, nat>)
    ensures CtrTotal(g, r)
    ensures forall d :: d in r ==> r[d] == 0
  {
    var r: map<Die, nat> := map c: nat, u: nat | 0 <= c < g.nchs && 0 <= u < g.luns :: Die(c, u) := 0;
    assert forall d :: ValidDie(g, d) ==> Die(d.ch, d.lun) in r;
    r
  }
}
