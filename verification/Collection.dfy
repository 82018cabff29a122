/**
 What garbage collection of a line does to the page tables, one page at a time.
 */
module Collection {
  import opened Geometry
  import opened PageTables
  import opened LineLists
  import opened Bookkeeping

  /** The pages of line `v` that were not yet visited are all in use. */
  ghost predicate Unvisited(g: Geo, status: map<Ppa, PageStatus>, v: nat, moved: set<Ppa>)
  {
    && moved <= LinePages(g, v)
    && forall p :: p in LinePages(g, v) && p !in moved && p in status ==> status[p] != Free
  }

  /** Valid pages of line `v` that are still to be copied. */
  ghost function Todo(g: Geo, status: map<Ppa, PageStatus>, v: nat, moved: set<Ppa>): nat
  {
    Num(LinePages(g, v) - moved, status, Valid)
  }

  /**
   What the host can see of a collection of line `v` that started with tables `mt0` and `status0`:
   the same logical pages are mapped; those that lived on a page in `moved` now live on a page
   outside the line that was free before, and all others have not moved. Outside the line nothing
   else has changed but that free pages became valid.
   */
  ghost predicate Relocated(mt0: map<nat, Ppa>, status0: map<Ppa, PageStatus>, mt: map<nat, Ppa>,
                            status: map<Ppa, PageStatus>, v: nat, moved: set<Ppa>)
  {
    && mt.Keys == mt0.Keys
    && (forall l :: l in mt0 && mt0[l] !in moved ==> mt[l] == mt0[l])
    && (forall l :: l in mt0 && mt0[l] in moved ==> mt[l].blk.line != v && mt[l] in status0 && status0[mt[l]] == Free)
    && (forall p :: p in status && p.blk.line != v ==>
          p in status0 && (status[p] == status0[p] || (status0[p] == Free && status[p] == Valid)))
  }

  /** Copying one valid page of the line to a free page elsewhere. */
  lemma MoveRelocates(mt0: map<nat, Ppa>, status0: map<Ppa, PageStatus>, mt: map<nat, Ppa>, rmap: map<Ppa, nat>,
                      status: map<Ppa, PageStatus>, v: nat, moved: set<Ppa>, p: Ppa, q: Ppa)
    requires Relocated(mt0, status0, mt, status, v, moved)
    requires MapsAgree(mt, rmap, status, moved)
    requires p in status && p !in moved && status[p] == Valid && p.blk.line == v
    requires q in status && status[q] == Free && q.blk.line != v
    ensures p in rmap && Relocated(mt0, status0, mt[rmap[p] := q], status[q := Valid], v, moved + {p})
  {
    var l := rmap[p];
    assert mt[l] == p;
    assert mt0[l] == p;
    assert mt[l := q].Keys == mt.Keys;
    forall k | k in mt0 && mt0[k] in moved + {p}
      ensures mt[l := q][k].blk.line != v && mt[l := q][k] in status0 && status0[mt[l := q][k]] == Free
    {
      assert mt0[k] == p ==> mt[k] == p;
      assert mt[k] == p ==> rmap[p] == k;
    }
  }

  lemma EraseRelocates(g: Geo, mt0: map<nat, Ppa>, status0: map<Ppa, PageStatus>, mt: map<nat, Ppa>,
                       status: map<Ppa, PageStatus>, v: nat, moved: set<Ppa>, e: Blk)
    requires Relocated(mt0, status0, mt, status, v, moved) && e.line == v
    ensures Relocated(mt0, status0, mt, Erased(status, BlkPages(g, e)), v, moved)
  {
  }

  /** Visiting a page takes it off the list of pages still to be copied if it is valid. */
  lemma TodoVisit(g: Geo, status: map<Ppa, PageStatus>, v: nat, moved: set<Ppa>, p: Ppa)
    requires p in LinePages(g, v) && p !in moved && p in status
    ensures Todo(g, status, v, moved + {p}) == Todo(g, status, v, moved) - (if status[p] == Valid then 1 else 0)
  {
    var (s, t) := (LinePages(g, v) - moved, LinePages(g, v) - (moved + {p}));
    assert s == t + {p};
    if status[p] == Valid {
      assert Pick(s, status, Valid) == Pick(t, status, Valid) + {p};
    } else {
      assert Pick(s, status, Valid) == Pick(t, status, Valid);
    }
  }

  /** Passing over pages that are not valid changes nothing. */
  lemma PassOver(g: Geo, mt0: map<nat, Ppa>, status0: map<Ppa, PageStatus>, mt: map<nat, Ppa>, rmap: map<Ppa, nat>,
                 status: map<Ppa, PageStatus>, v: nat, moved: set<Ppa>, s: set<Ppa>)
    requires Relocated(mt0, status0, mt, status, v, moved) && MapsAgree(mt, rmap, status, moved)
        && Unvisited(g, status, v, moved)
    requires s <= LinePages(g, v) && forall p :: p in s ==> p in status && status[p] != Valid
    ensures Relocated(mt0, status0, mt, status, v, moved + s)
    ensures MapsAgree(mt, rmap, status, moved + s)
    ensures Unvisited(g, status, v, moved + s)
    ensures Todo(g, status, v, moved + s) == Todo(g, status, v, moved)
  {
    PassOverMaps(mt0, status0, mt, rmap, status, v, moved, s);
    assert Pick(LinePages(g, v) - (moved + s), status, Valid) == Pick(LinePages(g, v) - moved, status, Valid);
  }

  lemma PassOverMaps(mt0: map<nat, Ppa>, status0: map<Ppa, PageStatus>, mt: map<nat, Ppa>, rmap: map<Ppa, nat>,
                     status: map<Ppa, PageStatus>, v: nat, moved: set<Ppa>, s: set<Ppa>)
    requires Relocated(mt0, status0, mt, status, v, moved) && MapsAgree(mt, rmap, status, moved)
    requires forall p :: p in s ==> p in status && status[p] != Valid
    ensures Relocated(mt0, status0, mt, status, v, moved + s) && MapsAgree(mt, rmap, status, moved + s)
  {
    forall l | l in mt
      ensures mt[l] !in s
    {
      assert status[mt[l]] == Valid;
    }
  }

  /** A page outside the line, or one already visited, does not count. */
  lemma TodoSame(g: Geo, status: map<Ppa, PageStatus>, status': map<Ppa, PageStatus>, v: nat, moved: set<Ppa>)
    requires status'.Keys == status.Keys
    requires forall p :: p in LinePages(g, v) && p !in moved && p in status ==> status'[p] == status[p]
    ensures Todo(g, status', v, moved) == Todo(g, status, v, moved)
  {
    NumSame(LinePages(g, v) - moved, status, status', Valid);
  }

  lemma TodoAll(g: Geo, status: map<Ppa, PageStatus>, v: nat)
    ensures Todo(g, status, v, {}) == LineNum(g, status, v, Valid)
    ensures Todo(g, status, v, LinePages(g, v)) == 0
  {
    assert LinePages(g, v) - {} == LinePages(g, v);
    assert Pick(LinePages(g, v) - LinePages(g, v), status, Valid) == {};
  }

  /** While the collector has room and its line is used up, a line is free. */
  lemma RoomMeansLine(g: Geo, b: Book, hole: int)
    requires g.Ok() && BookOk(g, b, hole)
    requires Space(g, b) > LineNum(g, b.status, b.ls.user, Free)
    ensures HasFree(g, b, b.ls.gc) || b.ls.free != []
  {
    hide StatusTotal, BlksCounted, LinesCounted, Census, Roles, Geo.Derived, LineNone, LineNum;
    OpenLines(g, b, hole);
    LineCounts(g, b.status, b.ls.gc);
  }

  // ----- Order of the visit -----

  /** Dies visited before (ch, lun): channel by channel, die by die. */
  predicate Passed(d: Die, ch: nat, lun: nat) { d.ch < ch || (d.ch == ch && d.lun < lun) }

  /**
   The visit of line `v` has dealt with all pages below `base` on every die, and with the pages of
   the flash page at `base` on the dies before (ch, lun). In the last round the blocks of
   those dies are erased.
   */
  ghost predicate Progress(g: Geo, status: map<Ppa, PageStatus>, v: nat, moved: set<Ppa>, base: nat, last: bool,
      ch: nat, lun: nat)
  {
    && (forall p :: p in moved <==>
          p in LinePages(g, v) && (p.pg < base || (p.pg < base + g.pgsPerFlashpg && Passed(p.blk.die, ch, lun))))
    && (last ==> forall p :: p in LinePages(g, v) && p in status && Passed(p.blk.die, ch, lun) ==> status[p] == Free)
  }

  lemma ProgressStart(g: Geo, status: map<Ppa, PageStatus>, v: nat, last: bool)
    ensures Progress(g, status, v, {}, 0, last, 0, 0)
  {
  }

  /** After the last die of a channel comes the first die of the next channel. */
  lemma ProgressChannel(g: Geo, status: map<Ppa, PageStatus>, v: nat, moved: set<Ppa>, base: nat, last: bool, ch: nat)
    requires Progress(g, status, v, moved, base, last, ch, g.luns)
    ensures Progress(g, status, v, moved, base, last, ch + 1, 0)
  {
    assert forall p :: p in LinePages(g, v) ==> (Passed(p.blk.die, ch, g.luns) <==> Passed(p.blk.die, ch + 1, 0));
  }

  /** After the last channel comes the next flash page. */
  lemma ProgressRound(g: Geo, status: map<Ppa, PageStatus>, v: nat, moved: set<Ppa>, base: nat, last': bool)
    requires Progress(g, status, v, moved, base, false, g.nchs, 0)
    ensures Progress(g, status, v, moved, base + g.pgsPerFlashpg, last', 0, 0)
  {
    assert forall p :: p in LinePages(g, v) ==> Passed(p.blk.die, g.nchs, 0);
  }

  /** After the last flash page everything is visited and erased. */
  lemma ProgressEnd(g: Geo, status: map<Ppa, PageStatus>, v: nat, moved: set<Ppa>, base: nat)
    requires Progress(g, status, v, moved, base, true, g.nchs, 0)
    requires base + g.pgsPerFlashpg == g.pgsPerBlk
    ensures moved == LinePages(g, v) && LineAll(g, status, v, Free)
  {
    assert forall p :: p in LinePages(g, v) ==> Passed(p.blk.die, g.nchs, 0);
  }

  /** The pages of one flash page. */
  ghost function FlashPages(b: Blk, base: nat, n: nat): (s: set<Ppa>)
    ensures forall p :: p in s <==> p.blk == b && base <= p.pg < base + n
  {
    set i: nat | base <= i < base + n :: Ppa(b, i)
  }

  /** One die further: its flash page is visited; in the last round its block is erased. */
  lemma ProgressDie(g: Geo, status: map<Ppa, PageStatus>, status': map<Ppa, PageStatus>, v: nat, moved: set<Ppa>,
                    base: nat, last: bool, ch: nat, lun: nat)
    requires Progress(g, status, v, moved, base, last, ch, lun)
    requires ch < g.nchs && lun < g.luns && base + g.pgsPerFlashpg <= g.pgsPerBlk
    requires last ==> forall p :: p in LinePages(g, v) && p in status && status[p] == Free ==>
                        p in status' && status'[p] == Free
    requires last ==> forall p :: p in BlkPages(g, Blk(Die(ch, lun), v)) && p in status' ==> status'[p] == Free
    requires status'.Keys == status.Keys
    ensures Progress(g, status', v, moved + FlashPages(Blk(Die(ch, lun), v), base, g.pgsPerFlashpg), base, last, ch,
        lun + 1)
  {
    var e := Blk(Die(ch, lun), v);
    forall p | p in LinePages(g, v)
      ensures Passed(p.blk.die, ch, lun + 1) <==> Passed(p.blk.die, ch, lun) || p.blk == e
    {
    }
    if last {
      forall p | p in LinePages(g, v) && p in status' && Passed(p.blk.die, ch, lun + 1)
        ensures status'[p] == Free
      {
        if p.blk == e {
          assert p in BlkPages(g, e);
        }
      }
    }
  }

  /** The flash page about to be visited was not visited before. */
  lemma ProgressFresh(g: Geo, status: map<Ppa, PageStatus>, v: nat, moved: set<Ppa>, base: nat, last: bool, ch: nat,
      lun: nat)
    requires Progress(g, status, v, moved, base, last, ch, lun)
    requires ch < g.nchs && lun < g.luns && base + g.pgsPerFlashpg <= g.pgsPerBlk
    ensures moved !! FlashPages(Blk(Die(ch, lun), v), base, g.pgsPerFlashpg)
    ensures FlashPages(Blk(Die(ch, lun), v), base, g.pgsPerFlashpg) <= LinePages(g, v)
    ensures base + g.pgsPerFlashpg == g.pgsPerBlk ==>
              BlkPages(g, Blk(Die(ch, lun), v)) <= moved + FlashPages(Blk(Die(ch, lun), v), base, g.pgsPerFlashpg)
  {
  }
}
