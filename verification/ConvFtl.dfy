/**
 One partition of the conventional flash translation layer: page-level mapping, greedy garbage
 collection paced by write credits, and the two write pointers.

 Proofs inside the methods are calls of lemmas about the values of the fields; the definitions
 of the invariants are hidden there and only their names are used.
 */
module ConvFtl {
  import opened Arithmetic
  import opened Geometry
  import opened PageTables
  import opened WritePointers
  import opened LineLists
  import opened Bookkeeping
  import opened Collection
  import VictimQueue

  /** Collection starts when no more than this many lines are free: one for the host, one for the collector. */
  const GC_THRES_LINES_HIGH: nat := 2

  /** Every die but `cur` stands at the start of a one-shot page. */
  ghost predicate WholeRows(g: Geo, ctr: map<Die, nat>, cur: Die)
    requires g.pgsPerOneshot > 0
  {
    forall d :: d in ctr && d != cur ==> ctr[d] % g.pgsPerOneshot == 0
  }

  ghost predicate KeysBelow(mt: map<nat, Ppa>, n: nat) { forall l :: l in mt ==> l < n }

  /** The values a collection started with and what it keeps constant. */
  datatype GcStart = GcStart(
    mt: map<nat, Ppa>,
    status: map<Ppa, PageStatus>,
    view: map<nat, nat>,
    surplus: int,
    userFree: int)

  /** What the host reads: every mapped logical page has the stamp of the physical page it is on. */
  ghost function ViewOf(mt: map<nat, Ppa>, stamps: Ppa -> nat): map<nat, nat>
  {
    map l | l in mt :: stamps(mt[l])
  }

  lemma SameKeys(mt: map<nat, Ppa>, stamps: Ppa -> nat, mt': map<nat, Ppa>, stamps': Ppa -> nat)
    requires ViewOf(mt, stamps) == ViewOf(mt', stamps')
    ensures mt.Keys == mt'.Keys
  {
    assert ViewOf(mt, stamps).Keys == mt.Keys && ViewOf(mt', stamps').Keys == mt'.Keys;
  }

  /** The stamps after page `q` was written. */
  ghost function Stamped(stamps: Ppa -> nat, q: Ppa, stamp: nat): Ppa -> nat
  {
    (p: Ppa) => if p == q then stamp else stamps(p)
  }

  /** What a write changes: the tables, the stamps, the counts of invalid pages, and the free lines. */
  datatype Tables = Tables(
    mt: map<nat, Ppa>,
    status: map<Ppa, PageStatus>,
    stamps: Ppa -> nat,
    ipc: seq<int>,
    free: seq<nat>)

  /** The states of the pages after the old page of a logical page was dropped, if it had one. */
  ghost function Dropped(mt: map<nat, Ppa>, status: map<Ppa, PageStatus>, lpn: nat): map<Ppa, PageStatus>
  {
    if lpn in mt then status[mt[lpn] := Invalid] else status
  }

  /** The invalid pages of the lines after the old page of a logical page was dropped. */
  ghost function OneMore(mt: map<nat, Ppa>, ipc: seq<int>, lpn: nat): seq<int>
  {
    if lpn in mt && mt[lpn].blk.line < |ipc| then
      ipc[mt[lpn].blk.line := ipc[mt[lpn].blk.line] + 1]
    else ipc
  }

  /** The free lines after a page on die `d`: one is taken when that was the last page of the last block. */
  ghost function FreeAfter(g: Geo, ctr: map<Die, nat>, d: Die, free: seq<nat>): seq<nat>
  {
    if && g.pgsPerOneshot > 0 && d in ctr && free != []
       && (ctr[d] + 1) % g.pgsPerOneshot == 0 && UsedUp(g, ctr[d := ctr[d] + 1]) then free[1..] else free
  }

  /** Logical page `lpn` was stored on page `here`; its old page is invalid, and no other page has changed. */
  ghost function AfterStore(g: Geo, t: Tables, ctr: map<Die, nat>, here: Ppa, lpn: nat, stamp: nat): Tables
  {
    Tables(t.mt[lpn := here], Dropped(t.mt, t.status, lpn)[here := Valid], Stamped(t.stamps, here, stamp),
           OneMore(t.mt, t.ipc, lpn), FreeAfter(g, ctr, here.blk.die, t.free))
  }

  /**
   The credits after a page was stored with `credits` left before it, when a refill is worth `refill`, and the line
   `v` that was collected (-1 for none). One credit is paid. A line is collected exactly when it was the last one and
   too few lines are free; that moves only the pages of the line, to pages that were free. New credits are given
   exactly when the last one was paid: as many as the latest collection has won.
   */
  ghost predicate WriteResult(g: Geo, t: Tables, credits: int, refill: int, t': Tables, credits': int, refill': int,
                              v: int)
  {
    && (v >= 0 <==> credits == 1 && |t.free| <= GC_THRES_LINES_HIGH)
    && (v < 0 ==> t' == t && refill' == refill)
    && (v >= 0 ==> v < g.lines && Relocated(t.mt, t.status, t'.mt, t'.status, v, LinePages(g, v))
                   && LineAll(g, t'.status, v, Free))
    && (v >= 0 ==> v < |t.ipc| && refill' == t.ipc[v])
    && credits' == (if credits == 1 then refill' else credits - 1)
  }

  // ----- Runs of writes -----

  /** What the host reads after writes: of every logical page the stamp of the last write. */
  ghost function Overwritten(view: map<nat, nat>, lpns: seq<nat>, marks: seq<nat>): map<nat, nat>
    requires |marks| == |lpns|
  {
    if lpns == [] then view
    else
      var n := |lpns| - 1;
      Overwritten(view, lpns[..n], marks[..n])[lpns[n] := marks[n]]
  }

  /** A page that is not written is read as before; of one that is, the last write decides. */
  lemma {:induction false} LastWriteDecides(view: map<nat, nat>, lpns: seq<nat>, marks: seq<nat>, l: nat, i: nat)
    requires |marks| == |lpns|
    ensures l !in lpns ==>
        (l in Overwritten(view, lpns, marks) <==> l in view)
        && (l in view ==> Overwritten(view, lpns, marks)[l] == view[l])
    ensures i < |lpns| && lpns[i] == l && l !in lpns[i + 1..] ==>
        l in Overwritten(view, lpns, marks) && Overwritten(view, lpns, marks)[l] == marks[i]
  {
    if lpns != [] {
      var n := |lpns| - 1;
      assert lpns == lpns[..n] + [lpns[n]];
      LastWriteDecides(view, lpns[..n], marks[..n], l, if i < n then i else 0);
      if i < n {
        assert lpns[i + 1..] == lpns[..n][i + 1..] + [lpns[n]];
      }
    }
  }

  /** Every mapped page other than the written ones is where it was, or its line is among those collected. */
  ghost predicate Stays(mt: map<nat, Ppa>, mt': map<nat, Ppa>, lpns: seq<nat>, vs: seq<int>)
  {
    forall l :: l in mt && l !in lpns ==> l in mt' && (mt'[l] == mt[l] || (mt[l].blk.line as int) in vs)
  }

  /** One write: as Stays, and a page that moved went to a page that was free. */
  ghost predicate StaysOne(mt: map<nat, Ppa>, status: map<Ppa, PageStatus>, mt': map<nat, Ppa>, lpn: nat, v: int)
  {
    && (forall l :: l in mt && l != lpn ==>
          l in mt' && (mt'[l] == mt[l] ||
                       (mt[l].blk.line == v && mt'[l] in status && status[mt'[l]] == Free)))
    && lpn in mt' && mt'[lpn] in status && status[mt'[lpn]] == Free
  }

  /** What a write with its refill says of the places of the logical pages. */
  lemma WriteMoves(g: Geo, t: Tables, ctr: map<Die, nat>, here: Ppa, lpn: nat, stamp: nat, credits: int, refill: int,
                   t': Tables, credits': int, refill': int, v: int)
    requires here in t.status && t.status[here] == Free
    requires WriteResult(g, AfterStore(g, t, ctr, here, lpn, stamp), credits, refill, t', credits', refill', v)
    ensures StaysOne(t.mt, t.status, t'.mt, lpn, v)
    ensures lpn in t.mt && t.mt[lpn] in t.status && t.status[t.mt[lpn]] != Free && ValidPpa(g, t.mt[lpn]) ==>
        t.mt[lpn] in t'.status ==> t'.status[t.mt[lpn]] != Valid
    ensures PaysOff(credits, refill, credits', refill', v)
  {
    hide FreeAfter, OneMore, Stamped;
  }

  lemma StaysMore(mt0: map<nat, Ppa>, mt: map<nat, Ppa>, status: map<Ppa, PageStatus>, mt': map<nat, Ppa>,
                  lpns: seq<nat>, vs: seq<int>, lpn: nat, v: int)
    requires Stays(mt0, mt, lpns, vs) && StaysOne(mt, status, mt', lpn, v)
    ensures Stays(mt0, mt', lpns + [lpn], vs + [v])
  {
  }

  /** Credits before and after a write: one is paid, and after the last one a refill is given. A line can only be
      collected then, and only a collection changes the worth of a refill. */
  ghost predicate PaysOff(credits: int, refill: int, credits': int, refill': int, v: int)
  {
    && (v >= 0 ==> credits == 1)
    && (v < 0 ==> refill' == refill)
    && credits' == if credits == 1 then refill' else credits - 1
  }

  /** Credits `cs` and worth of a refill `rs` before each write and at the end, and the lines collected `vs`. */
  ghost predicate Pacing(cs: seq<int>, rs: seq<int>, vs: seq<int>)
  {
    && |cs| == |rs| == |vs| + 1
    && forall i :: 0 <= i < |vs| ==> PaysOff(cs[i], rs[i], cs[i + 1], rs[i + 1], vs[i])
  }

  lemma PacingMore(cs: seq<int>, rs: seq<int>, vs: seq<int>, c: int, r: int, v: int)
    requires Pacing(cs, rs, vs) && PaysOff(cs[|vs|], rs[|vs|], c, r, v)
    ensures Pacing(cs + [c], rs + [r], vs + [v])
  {
  }

  /**
   From one refill, at write `i`, to the next, at write `j`, as many pages are written as the first one gave, and no
   line is collected in between.
   */
  lemma {:induction false} BetweenRefills(cs: seq<int>, rs: seq<int>, vs: seq<int>, i: nat, j: nat)
    requires Pacing(cs, rs, vs) && i < j < |vs| && cs[i] == cs[j] == 1 && forall k :: i < k < j ==> cs[k] != 1
    ensures j - i == rs[i + 1]
    ensures forall k :: i < k < j ==> vs[k] < 0
  {
    assert PaysOff(cs[i], rs[i], cs[i + 1], rs[i + 1], vs[i]);
    CountsDown(cs, rs, vs, i + 1, j);
    forall k | i < k < j
      ensures vs[k] < 0
    {
      assert PaysOff(cs[k], rs[k], cs[k + 1], rs[k + 1], vs[k]);
    }
  }

  lemma {:induction false} CountsDown(cs: seq<int>, rs: seq<int>, vs: seq<int>, i: nat, j: nat)
    requires Pacing(cs, rs, vs) && i <= j < |vs| && forall k :: i <= k < j ==> cs[k] != 1
    ensures cs[j] == cs[i] - (j - i)
    decreases j - i
  {
    if i < j {
      assert PaysOff(cs[i], rs[i], cs[i + 1], rs[i + 1], vs[i]);
      CountsDown(cs, rs, vs, i + 1, j);
    }
  }

  /**
   A run of writes: exactly the pages written are mapped in addition; the host reads of every page its last write;
   a page that is not written stays unless its line is collected; and credits are paid and refilled as they should.
   */
  ghost predicate RunOk(mt0: map<nat, Ppa>, view0: map<nat, nat>, c0: int, r0: int, lpns: seq<nat>, marks: seq<nat>,
                        mt: map<nat, Ppa>, view: map<nat, nat>, c: int, r: int,
                        vs: seq<int>, cs: seq<int>, rs: seq<int>)
  {
    && |marks| == |lpns| == |vs|
    && mt.Keys == mt0.Keys + Elems(lpns)
    && view == Overwritten(view0, lpns, marks)
    && Stays(mt0, mt, lpns, vs)
    && Pacing(cs, rs, vs) && cs[0] == c0 && rs[0] == r0 && cs[|vs|] == c && rs[|vs|] == r
  }

  lemma RunStarts(mt: map<nat, Ppa>, view: map<nat, nat>, c: int, r: int)
    ensures RunOk(mt, view, c, r, [], [], mt, view, c, r, [], [c], [r])
  {
  }

  lemma RunKeys(mt0: map<nat, Ppa>, view0: map<nat, nat>, c0: int, r0: int, lpns: seq<nat>, marks: seq<nat>,
                mt: map<nat, Ppa>, view: map<nat, nat>, c: int, r: int, vs: seq<int>, cs: seq<int>, rs: seq<int>)
    requires RunOk(mt0, view0, c0, r0, lpns, marks, mt, view, c, r, vs, cs, rs)
    ensures mt.Keys == mt0.Keys + Elems(lpns)
  {
  }

  lemma RunMore(mt0: map<nat, Ppa>, view0: map<nat, nat>, c0: int, r0: int, lpns: seq<nat>, marks: seq<nat>,
                mt: map<nat, Ppa>, view: map<nat, nat>, c: int, r: int, vs: seq<int>, cs: seq<int>, rs: seq<int>,
                l: nat, m: nat, status: map<Ppa, PageStatus>, mt': map<nat, Ppa>, view': map<nat, nat>,
                c': int, r': int, v: int)
    requires RunOk(mt0, view0, c0, r0, lpns, marks, mt, view, c, r, vs, cs, rs)
    requires mt'.Keys == mt.Keys + {l} && view' == view[l := m]
    requires StaysOne(mt, status, mt', l, v) && PaysOff(c, r, c', r', v)
    ensures RunOk(mt0, view0, c0, r0, lpns + [l], marks + [m], mt', view', c', r', vs + [v], cs + [c'], rs + [r'])
  {
    hide Stays, StaysOne, Pacing, PaysOff, Overwritten;
    OverwrittenMore(view0, lpns, marks, l, m);
    StaysMore(mt0, mt, status, mt', lpns, vs, l, v);
    PacingMore(cs, rs, vs, c', r', v);
    assert Pacing(cs, rs, vs) ==> |cs| == |rs| == |vs| + 1 by { PacingLen(cs, rs, vs); }
    assert mt'.Keys == mt0.Keys + Elems(lpns + [l]);
  }

  lemma PacingLen(cs: seq<int>, rs: seq<int>, vs: seq<int>)
    ensures Pacing(cs, rs, vs) ==> |cs| == |rs| == |vs| + 1
  {
  }

  lemma OverwrittenMore(view: map<nat, nat>, lpns: seq<nat>, marks: seq<nat>, l: nat, m: nat)
    requires |marks| == |lpns|
    ensures Overwritten(view, lpns + [l], marks + [m]) == Overwritten(view, lpns, marks)[l := m]
  {
    assert (lpns + [l])[..|lpns|] == lpns && (marks + [m])[..|lpns|] == marks;
  }

  /** Page `b` of a block stands one place after page `a` in the word line of `n` pages. */
  ghost predicate NextPage(a: nat, b: nat, n: nat) { n > 0 && b % n == (a + 1) % n }

  /** The rewriter wants to stay on the die: it is in a run of one-shot pages, or the draw says so. */
  predicate Draws(degree: int, conti: int, random: int) { conti >= 0 || degree > random % 100 }

  /** The run of one-shot pages on a die after `n` pages of it are written: it ends at `maxCon` or with the block. */
  function RunAfter(g: Geo, n: nat, degree: int, con: int, conti: int, maxCon: int, random: int): int
    requires g.pgsPerOneshot > 0
  {
    if n % g.pgsPerOneshot != 0 || !Draws(degree, conti, random) then conti
    else if conti < 0 then 0
    else
      var next := if conti + 1 >= maxCon then -1 else conti + 1;
      if con < 16 * g.pgsPerOneshot && n >= g.pgsPerBlk then next - 1 else next
  }

  /** How the pointer of the rewriter goes on: inside a one-shot page it stays, at the end of one it stays when it
      wants to and the block has free pages. */
  ghost predicate CleanerSteps(g: Geo, ctr: map<Die, nat>, s: Die, line: nat, free: seq<nat>,
                               ctr': map<Die, nat>, d: Die, line': nat, wants: bool)
    requires s in ctr && g.pgsPerOneshot > 0
  {
    var c := ctr[s := ctr[s] + 1];
    if c[s] % g.pgsPerOneshot != 0 || (wants && c[s] < g.pgsPerBlk) then d == s && line' == line && ctr' == c
    else GoesOn(g, c, s, line, free, ctr', d, line')
  }

  /** No line of the queue has fewer valid pages than `v`. */
  ghost predicate LeastOf(members: set<nat>, vpc: seq<int>, v: nat)
  {
    v < |vpc| && forall m :: m in members ==> m < |vpc| && vpc[v] <= vpc[m]
  }

  class Ftl {
    const g: Geo
    const vq: VictimQueue.Queue

    var maptbl: map<nat, Ppa>
    var rmap: map<Ppa, nat>
    var status: map<Ppa, PageStatus>
    var blkVpc: map<Blk, int>
    var blkIpc: map<Blk, int>
    var lineIpc: seq<int>
    var freeLines: seq<nat>
    var fullLines: seq<nat>
    var freeCnt: int
    var fullCnt: int
    var victimCnt: int
    var wpLine: nat
    var wpDie: Die
    var wpPg: nat
    var gcLine: nat
    var gcAt: GcPos
    var pageCounter: map<Die, nat>
    var writeCredits: int
    var creditsToRefill: int
    ghost var stamps: Ppa -> nat  // of the write each physical page holds

    ghost function Snap(): Book
      reads this, vq
    {
      Book(status, blkVpc, blkIpc, vq.vpc, lineIpc, LineState(freeLines, fullLines, vq.members, wpLine, gcLine))
    }

    /** What holds at every point, also inside garbage collection of line `hole` (-1 for none). */
    ghost predicate Base(hole: int)
      reads this, vq, vq.d
    {
      && g.Ok()
      && vq.Valid()
      && BookOk(g, Snap(), hole)
      && freeCnt == |freeLines| && fullCnt == |fullLines| && victimCnt == |vq.members|
      && ValidGcPos(g, gcAt)
      && CtrTotal(g, pageCounter)
      && ValidDie(g, wpDie)
    }

    /** The user pointer stands on a free page, and only its own die has an unfinished one-shot page. */
    ghost predicate UserOk()
      reads this
    {
      && g.pgsPerOneshot > 0
      && UserLine(g, status, wpLine, pageCounter)
      && WholeRows(g, pageCounter, wpDie)
      && wpDie in pageCounter && wpPg == pageCounter[wpDie] < g.pgsPerBlk
    }

    /** Initialisation: nothing is mapped, every page is free, and the two pointers take lines 0 and 1. */
    constructor (geo: Geo)
      requires geo.Ok()
      ensures g == geo && fresh(vq) && fresh(vq.d)
      ensures Ready()
      ensures maptbl == map[] && rmap == map[]
      ensures Snap() == Fresh(geo)
      ensures wpPg == 0 && writeCredits == creditsToRefill == geo.pgsPerLine
      ensures wpDie == Die(0, 0) && pageCounter == ZeroCounters(geo)
    {
      hide Fresh, ZeroCounters, BookOk, VictimQueue.Queue.Valid, Geo.Derived, UserLine, GcLine, MapsAgree, WholeRows,
           CtrTotal;
      g := geo;
      vq := new VictimQueue.Queue(geo.lines);
      maptbl := map[];
      rmap := map[];
      var b := Fresh(geo);
      status := b.status;
      blkVpc := b.bvpc;
      blkIpc := b.bipc;
      lineIpc := b.ipc;
      freeLines := b.ls.free;
      fullLines := b.ls.full;
      freeCnt := geo.lines - 2;
      fullCnt := 0;
      victimCnt := 0;
      wpLine := b.ls.user;
      wpDie := Die(0, 0);
      wpPg := 0;
      gcLine := b.ls.gc;
      gcAt := GcPos(0, 0, 0);
      pageCounter := ZeroCounters(geo);
      writeCredits := geo.pgsPerLine;
      stamps := _ => 0;
      creditsToRefill := geo.pgsPerLine;
      new;
      FreshValues(geo);
      FreshFields(geo, vq.vpc);
    }

    /** The invariants hold of the initial values. */
    static lemma FreshValues(geo: Geo)
      requires geo.Ok()
      ensures BookOk(geo, Fresh(geo), -1)
      ensures MapsAgree(map[], map[], Fresh(geo).status, {})
      ensures CtrTotal(geo, ZeroCounters(geo)) && UserLine(geo, Fresh(geo).status, 0, ZeroCounters(geo))
      ensures WholeRows(geo, ZeroCounters(geo), Die(0, 0)) && Die(0, 0) in ZeroCounters(geo)
          && ZeroCounters(geo)[Die(0, 0)] == 0
      ensures GcLine(geo, Fresh(geo).status, 1, GcPos(0, 0, 0), false)
    {
      hide Fresh, BookOk, Geo.Derived;
      var status := Fresh(geo).status;
      FreshOk(geo);
      forall p | p in status
        ensures status[p] == Free
      {
        FreshPages(geo, p);
      }
      UserLineStart(geo, status, 0, ZeroCounters(geo));
      GcLineStart(geo, status, 1);
      DivUnique(0, geo.pgsPerOneshot, 0, 0);
    }

    static lemma FreshFields(geo: Geo, zeros: seq<int>)
      requires geo.Ok() && |zeros| == geo.lines && forall l :: 0 <= l < geo.lines ==> zeros[l] == 0
      ensures zeros == Fresh(geo).vpc && |Fresh(geo).ls.free| == geo.lines - 2
      ensures Fresh(geo).ls == LineState(Fresh(geo).ls.free, [], {}, 0, 1)
    {
    }

    /** Takes the first free line off the list, if there is one. */
    method GetNextFreeLine() returns (found: bool, l: nat)
      modifies this`freeLines, this`freeCnt
      ensures found <==> old(freeLines) != []
      ensures found ==> l == old(freeLines)[0] && freeLines == old(freeLines)[1..] && freeCnt == old(freeCnt) - 1
      ensures !found ==> freeLines == old(freeLines) && freeCnt == old(freeCnt)
    {
      found, l := freeLines != [], 0;
      if !found {
        return;
      }
      l := freeLines[0];
      freeLines := freeLines[1..];
      freeCnt := freeCnt - 1;
    }

    /** One page of a line turned invalid: its counters follow, the queue is adjusted, and a full
        line becomes a victim. */
    method MarkLineInvalid(l: nat)
      requires vq.Valid() && l < |vq.vpc| == |lineIpc|
      requires 0 <= lineIpc[l] < g.pgsPerLine && 0 < vq.vpc[l] <= g.pgsPerLine
      requires vq.vpc[l] == g.pgsPerLine ==> lineIpc[l] == 0
      requires vq.vpc[l] == g.pgsPerLine <==> l in fullLines
      requires l in fullLines ==> l !in vq.members && |Without(fullLines, l)| == |fullLines| - 1
      modifies this`lineIpc, this`fullLines, this`fullCnt, this`victimCnt, vq, vq.d
      ensures vq.Valid()
      ensures lineIpc == old(lineIpc)[l := old(lineIpc)[l] + 1]
      ensures vq.vpc == old(vq.vpc)[l := old(vq.vpc)[l] - 1]
      ensures fullLines == LeaveFull(old(fullLines), l) && vq.members == JoinVictims(old(vq.members), old(fullLines), l)
      ensures fullCnt - |fullLines| == old(fullCnt - |fullLines|)
      ensures victimCnt - |vq.members| == old(victimCnt - |vq.members|)
    {
      hide VictimQueue.Queue.Valid, Without;
      vq.PosIffMember(l);
      assert 0 <= lineIpc[l] < g.pgsPerLine;
      var wasFull := vq.vpc[l] == g.pgsPerLine;
      assert wasFull ==> lineIpc[l] == 0;
      lineIpc := lineIpc[l := lineIpc[l] + 1];
      assert 0 < vq.vpc[l] <= g.pgsPerLine;
      if vq.pos[l] != 0 {
        vq.ChangePriority(vq.vpc[l] - 1, l);
      } else {
        vq.SetVpc(l, vq.vpc[l] - 1);
      }
      if wasFull {
        fullLines := Without(fullLines, l);
        fullCnt := fullCnt - 1;
        vq.Insert(l);
        victimCnt := victimCnt + 1;
      }
    }

    /** The page of an overwritten logical page turns invalid; the block and line counters follow. */
    method MarkPageInvalid(p: Ppa)
      requires Base(-1)
      requires p in status && status[p] == Valid
      requires HasFree(g, Snap(), wpLine) && HasFree(g, Snap(), gcLine)
      modifies this`status, this`blkVpc, this`blkIpc, this`lineIpc, this`fullLines, this`fullCnt, this`victimCnt, vq,
               vq.d
      ensures Base(-1)
      ensures p.blk in old(blkVpc) && p.blk in old(blkIpc) && p.blk.line < |old(vq.vpc)| == |old(lineIpc)|
      ensures Snap() == Invalidated(old(Snap()), p)
      ensures Space(g, Snap()) == old(Space(g, Snap()))
    {
      hide BookOk, VictimQueue.Queue.Valid, Geo.Ok, HasFree, Without, CtrTotal, ValidGcPos, ValidDie, Space,
           LeaveFull, JoinVictims;
      InvalidateGuards(g, Snap(), p);
      InvalidateKeeps(g, Snap(), p);
      if p.blk.line in fullLines {
        FullListLosesOne(g, Snap(), p.blk.line);
      }
      MarkBlkInvalid(p);
      MarkLineInvalid(p.blk.line);
    }

    /** The page and its block. */
    method MarkBlkInvalid(p: Ppa)
      requires p in status && status[p] == Valid && p.blk in blkIpc && p.blk in blkVpc
      requires 0 <= blkIpc[p.blk] < g.pgsPerBlk && 0 < blkVpc[p.blk] <= g.pgsPerBlk
      modifies this`status, this`blkVpc, this`blkIpc
      ensures status == old(status)[p := Invalid]
      ensures blkIpc == old(blkIpc)[p.blk := old(blkIpc)[p.blk] + 1]
      ensures blkVpc == old(blkVpc)[p.blk := old(blkVpc)[p.blk] - 1]
    {
      status := status[p := Invalid];
      blkIpc := blkIpc[p.blk := blkIpc[p.blk] + 1];
      blkVpc := blkVpc[p.blk := blkVpc[p.blk] - 1];
    }

    static lemma FullListLosesOne(g: Geo, b: Book, l: nat)
      requires BookOk(g, b, -1) && l in b.ls.full
      ensures |Without(b.ls.full, l)| == |b.ls.full| - 1
    {
      WithoutOne(b.ls.full, l);
    }

    /** A free page of an open line is written. */
    method MarkPageValid(p: Ppa, ghost hole: int)
      requires Base(hole)
      requires p in status && status[p] == Free && (p.blk.line == wpLine || p.blk.line == gcLine)
      modifies this`status, this`blkVpc, vq`vpc
      ensures Base(hole)
      ensures p.blk in old(blkVpc) && p.blk.line < |old(vq.vpc)|
      ensures Snap() == Validated(old(Snap()), p)
      ensures Space(g, Snap()) == old(Space(g, Snap())) - 1
    {
      hide BookOk, VictimQueue.Queue.Valid, Geo.Derived, Space;
      ValidateGuards(g, Snap(), hole, p);
      ValidateKeeps(g, Snap(), hole, p);
      OpenLines(g, Snap(), hole);
      status := status[p := Valid];
      assert 0 <= blkVpc[p.blk] < g.pgsPerBlk;
      blkVpc := blkVpc[p.blk := blkVpc[p.blk] + 1];
      assert 0 <= vq.vpc[p.blk.line] < g.pgsPerLine;
      vq.SetVpc(p.blk.line, vq.vpc[p.blk.line] + 1);
    }

    /** Puts a used-up line on the full list, or queues it as a victim when it has invalid pages. */
    method RetireLine(cur: nat)
      requires vq.Valid() && cur < |vq.vpc| == |lineIpc| && cur !in vq.members
      requires vq.vpc[cur] == g.pgsPerLine ==> lineIpc[cur] == 0
      requires vq.vpc[cur] != g.pgsPerLine ==> 0 <= vq.vpc[cur] < g.pgsPerLine && lineIpc[cur] > 0
      modifies this`fullLines, this`fullCnt, this`victimCnt, vq`size, vq`pos, vq`members, vq.d
      ensures vq.Valid()
      ensures fullLines == WithFull(old(fullLines), cur, vq.vpc[cur] == g.pgsPerLine)
      ensures vq.members == WithVictim(old(vq.members), cur, vq.vpc[cur] == g.pgsPerLine)
      ensures fullCnt - |fullLines| == old(fullCnt - |fullLines|)
      ensures victimCnt - |vq.members| == old(victimCnt - |vq.members|)
    {
      hide VictimQueue.Queue.Valid;
      if vq.vpc[cur] == g.pgsPerLine {
        assert lineIpc[cur] == 0;
        fullLines := fullLines + [cur];
        fullCnt := fullCnt + 1;
      } else {
        assert 0 <= vq.vpc[cur] < g.pgsPerLine;
        assert lineIpc[cur] > 0;
        vq.Insert(cur);
        victimCnt := victimCnt + 1;
      }
    }

    /** Retires a used-up line and takes the first free one. */
    method RetireAndTake(cur: nat) returns (l: nat)
      requires vq.Valid() && cur < |vq.vpc| == |lineIpc| && cur !in vq.members && freeLines != []
      requires vq.vpc[cur] == g.pgsPerLine ==> lineIpc[cur] == 0
      requires vq.vpc[cur] != g.pgsPerLine ==> 0 <= vq.vpc[cur] < g.pgsPerLine && lineIpc[cur] > 0
      requires freeCnt == |freeLines| && fullCnt == |fullLines| && victimCnt == |vq.members|
      modifies this`freeLines, this`freeCnt, this`fullLines, this`fullCnt, this`victimCnt, vq`size, vq`pos,
               vq`members, vq.d
      ensures vq.Valid() && l == old(freeLines)[0] && freeLines == old(freeLines)[1..]
      ensures fullLines == WithFull(old(fullLines), cur, vq.vpc[cur] == g.pgsPerLine)
      ensures vq.members == WithVictim(old(vq.members), cur, vq.vpc[cur] == g.pgsPerLine)
      ensures freeCnt == |freeLines| && fullCnt == |fullLines| && victimCnt == |vq.members|
    {
      hide VictimQueue.Queue.Valid;
      RetireLine(cur);
      var found;
      found, l := GetNextFreeLine();
      assert found;
    }

    /** The user line is used up: retire it and start a new one. */
    method ReplaceUserLine()
      requires Base(-1)
      requires freeLines != [] && !HasFree(g, Snap(), wpLine)
      modifies this`freeLines, this`freeCnt, this`fullLines, this`fullCnt, this`victimCnt, this`wpLine, vq`size,
               vq`pos, vq`members, vq.d
      ensures Base(-1)
      ensures wpLine < |vq.vpc| && Snap() == old(Snap()).(ls := Replaced(old(Snap().ls), true, vq.vpc[old(wpLine)] ==
          g.pgsPerLine))
      ensures Space(g, Snap()) == old(Space(g, Snap()))
      ensures LineAll(g, status, wpLine, Free)
      ensures wpLine == old(freeLines)[0] && freeLines == old(freeLines)[1..]
    {
      hide BookOk, VictimQueue.Queue.Valid, Geo.Ok, HasFree, Space, LineAll, CtrTotal, ValidGcPos, ValidDie, WithFull,
           WithVictim;
      ReplaceKeeps(g, Snap(), -1, true);
      wpLine := RetireAndTake(wpLine);
    }

    /** The collector's line is used up: retire it and start a new one. */
    method ReplaceGcLine(ghost hole: int)
      requires Base(hole)
      requires freeLines != [] && !HasFree(g, Snap(), gcLine)
      modifies this`freeLines, this`freeCnt, this`fullLines, this`fullCnt, this`victimCnt, this`gcLine, vq`size,
               vq`pos, vq`members, vq.d
      ensures Base(hole)
      ensures gcLine < |vq.vpc| && Snap() == old(Snap()).(ls := Replaced(old(Snap().ls), false, vq.vpc[old(gcLine)] ==
          g.pgsPerLine))
      ensures Space(g, Snap()) == old(Space(g, Snap()))
      ensures LineAll(g, status, gcLine, Free)
      ensures gcLine == old(freeLines)[0] && freeLines == old(freeLines)[1..]
    {
      hide BookOk, VictimQueue.Queue.Valid, Geo.Ok, HasFree, Space, LineAll, CtrTotal, ValidGcPos, ValidDie, WithFull,
           WithVictim;
      ReplaceKeeps(g, Snap(), hole, false);
      gcLine := RetireAndTake(gcLine);
    }

    /** Every one-shot page of the user line is complete: look for the next die with free pages,
        and start a new line when there is none. */
    method NextDie()
      requires Base(-1)
      requires g.pgsPerOneshot > 0 && UserLine(g, status, wpLine, pageCounter)
      requires forall d :: d in pageCounter ==> pageCounter[d] % g.pgsPerOneshot == 0
      requires HasFree(g, Snap(), wpLine) || freeLines != []
      modifies this`freeLines, this`freeCnt, this`fullLines, this`fullCnt, this`victimCnt, this`wpLine, this`wpDie,
               this`wpPg, this`pageCounter, vq`size, vq`pos, vq`members, vq.d
      ensures Base(-1) && UserOk()
      ensures GoesOn(g, old(pageCounter), old(wpDie), old(wpLine), old(freeLines), pageCounter, wpDie, wpLine)
      ensures freeLines == if UsedUp(g, old(pageCounter)) then old(freeLines)[1..] else old(freeLines)
      ensures wpPg % g.pgsPerOneshot == 0
      ensures Space(g, Snap()) == old(Space(g, Snap()))
      ensures old(HasFree(g, Snap(), wpLine)) ==> Snap() == old(Snap())
    {
      hide BookOk, VictimQueue.Queue.Valid, Geo.Derived, HasFree, Space, LineAll, LineNone, UserLine, ValidGcPos,
           Replaced, GoesOn, FirstOpen, UsedUp;
      UserLineScan(g, Snap(), pageCounter);
      ghost var (before, die) := (pageCounter, wpDie);
      var found, d := ScanDies(g, pageCounter, wpDie);
      wpDie := d;
      if !found {
        pageCounter := ResetCounters(g, pageCounter);
        ReplaceUserLine();
        wpDie := Die(0, 0);
        UserLineStart(g, status, wpLine, pageCounter);
        DivUnique(0, g.pgsPerOneshot, 0, 0);
        NewLine(g, before, die, old(wpLine), old(freeLines), pageCounter);
      } else {
        SameLine(g, before, die, wpLine, freeLines, d);
      }
      wpPg := pageCounter[wpDie];
    }

    static lemma NewLine(g: Geo, ctr: map<Die, nat>, s: Die, line: nat, free: seq<nat>, ctr': map<Die, nat>)
      requires UsedUp(g, ctr) && free != [] && ctr'.Keys == ctr.Keys && forall e :: e in ctr' ==> ctr'[e] == 0
      ensures GoesOn(g, ctr, s, line, free, ctr', Die(0, 0), free[0])
    {
    }

    static lemma SameLine(g: Geo, ctr: map<Die, nat>, s: Die, line: nat, free: seq<nat>, d: Die)
      requires FirstOpen(g, ctr, s, d)
      ensures GoesOn(g, ctr, s, line, free, ctr, d, line) && !UsedUp(g, ctr) && d in ctr && ctr[d] < g.pgsPerBlk
    {
    }

    /** What the scan of the dies tells about the user line. */
    static lemma UserLineScan(g: Geo, b: Book, ctr: map<Die, nat>)
      requires BookOk(g, b, -1) && UserLine(g, b.status, b.ls.user, ctr) && CtrTotal(g, ctr)
      ensures HasFree(g, b, b.ls.user) <==> !UsedUp(g, ctr)
      ensures forall d :: d in ctr ==> ctr[d] <= g.pgsPerBlk
      ensures UsedUp(g, ctr) ==> forall d :: d in ctr ==> ctr[d] == g.pgsPerBlk
    {
      OpenLines(g, b, -1);
      UserLineDone(g, b.status, b.ls.user, ctr);
    }

    /** The user pointer moves on after a page was written. */
    method AdvanceUser()
      requires Base(-1)
      requires g.pgsPerOneshot > 0 && wpDie in pageCounter && pageCounter[wpDie] < g.pgsPerBlk
      requires UserLine(g, status, wpLine, pageCounter[wpDie := pageCounter[wpDie] + 1])
      requires WholeRows(g, pageCounter, wpDie)
      requires HasFree(g, Snap(), wpLine) || freeLines != []
      modifies this`freeLines, this`freeCnt, this`fullLines, this`fullCnt, this`victimCnt, this`wpLine, this`wpDie,
               this`wpPg, this`pageCounter, vq`size, vq`pos, vq`members, vq.d
      ensures Base(-1) && UserOk()
      ensures wpPg % g.pgsPerOneshot == (old(pageCounter[wpDie]) + 1) % g.pgsPerOneshot
      ensures Space(g, Snap()) == old(Space(g, Snap()))
      ensures freeLines == FreeAfter(g, old(pageCounter), old(wpDie), old(freeLines))
      ensures Steps(g, old(pageCounter), old(wpDie), old(wpLine), old(freeLines), pageCounter, wpDie, wpLine)
    {
      hide BookOk, VictimQueue.Queue.Valid, Geo.Derived, HasFree, Space, UserLine, ValidGcPos;
      assert pageCounter[wpDie] < g.pgsPerBlk;
      pageCounter := pageCounter[wpDie := pageCounter[wpDie] + 1];
      if pageCounter[wpDie] % g.pgsPerOneshot != 0 {
        RowNotDone(g, pageCounter[wpDie]);
        wpPg := pageCounter[wpDie];
      } else {
        NextDie();
      }
    }

    /**
     The user pointer moves on after the fragmenting rewriter wrote a page. At the end of a one-shot
     page it may stay on the die (while `conti` counts, or by the draw of `random`) as long as
     the die has free pages, or ask for the chunk to be parked once enough pages were written.
     */
    method AdvanceCleaner(degree: int, con: int, conti: int, maxCon: int, random: int) returns (park: bool, con': int,
        conti': int)
      requires Base(-1)
      requires g.pgsPerOneshot > 0 && wpDie in pageCounter && pageCounter[wpDie] < g.pgsPerBlk
      requires UserLine(g, status, wpLine, pageCounter[wpDie := pageCounter[wpDie] + 1])
      requires WholeRows(g, pageCounter, wpDie)
      requires HasFree(g, Snap(), wpLine) || freeLines != []
      modifies this`freeLines, this`freeCnt, this`fullLines, this`fullCnt, this`victimCnt, this`wpLine, this`wpDie,
               this`wpPg, this`pageCounter, vq`size, vq`pos, vq`members, vq.d
      ensures Base(-1) && UserOk()
      ensures wpPg % g.pgsPerOneshot == (old(pageCounter[wpDie]) + 1) % g.pgsPerOneshot
      ensures Space(g, Snap()) == old(Space(g, Snap()))
      ensures freeLines == FreeAfter(g, old(pageCounter), old(wpDie), old(freeLines))
      ensures CleanerSteps(g, old(pageCounter), old(wpDie), old(wpLine), old(freeLines), pageCounter, wpDie, wpLine,
                           Draws(degree, conti, random) && con' < 16 * g.pgsPerOneshot)
      ensures park <==>
          (old(pageCounter[wpDie]) + 1) % g.pgsPerOneshot == 0 && Draws(degree, conti, random)
          && con' >= 16 * g.pgsPerOneshot
      ensures conti' == RunAfter(g, old(pageCounter[wpDie]) + 1, degree, con', conti, maxCon, random)
      ensures con' == con + 1
    {
      hide BookOk, VictimQueue.Queue.Valid, Geo.Derived, HasFree, Space, UserLine, ValidGcPos;
      assert pageCounter[wpDie] < g.pgsPerBlk;
      con' := con + 1;
      conti' := conti;
      park := false;
      pageCounter := pageCounter[wpDie := pageCounter[wpDie] + 1];
      var stay := false;
      if pageCounter[wpDie] % g.pgsPerOneshot != 0 {
        RowNotDone(g, pageCounter[wpDie]);
        stay := true;
      } else if conti' >= 0 {
        conti' := conti' + 1;
        if conti' >= maxCon {
          conti' := -1;
        }
        if con' >= 16 * g.pgsPerOneshot {
          park := true;
        } else if pageCounter[wpDie] < g.pgsPerBlk {
          stay := true;
        } else {
          conti' := conti' - 1;
        }
      } else if degree > random % 100 {
        conti' := 0;
        if con' >= 16 * g.pgsPerOneshot {
          park := true;
        } else if pageCounter[wpDie] < g.pgsPerBlk {
          stay := true;
        }
      }
      if stay {
        wpPg := pageCounter[wpDie];
      } else {
        NextDie();
      }
    }

    /** A page counter inside a one-shot page is below the block size. */
    static lemma RowNotDone(g: Geo, n: nat)
      requires g.Ok() && n <= g.pgsPerBlk && n % g.pgsPerOneshot != 0
      ensures n < g.pgsPerBlk
    {
      BlkIsWholeRows(g);
    }

    /** The collector's pointer moves on after a page was written. */
    method AdvanceGc(ghost hole: int)
      requires Base(hole) && GcLine(g, status, gcLine, gcAt, true)
      requires HasFree(g, Snap(), gcLine) || freeLines != []
      modifies this`freeLines, this`freeCnt, this`fullLines, this`fullCnt, this`victimCnt, this`gcLine, this`gcAt,
               vq`size, vq`pos, vq`members, vq.d
      ensures Base(hole) && GcLine(g, status, gcLine, gcAt, false)
      ensures Space(g, Snap()) == old(Space(g, Snap()))
      ensures wpLine == old(wpLine) && gcAt == GcNext(g, old(gcAt)).0
      ensures if GcNext(g, old(gcAt)).1 then old(freeLines) == [gcLine] + freeLines
              else gcLine == old(gcLine) && freeLines == old(freeLines)
    {
      hide BookOk, VictimQueue.Queue.Valid, Geo.Derived, Space, LineAll, LineNone, GcLine, CtrTotal, Replaced;
      GcNextValid(g, gcAt);
      GcLineStep(g, status, gcLine, gcAt);
      var (next, done) := GcNext(g, gcAt);
      gcAt := next;
      if done {
        ReplaceGcLine(hole);
        GcLineStart(g, status, gcLine);
      }
    }

    // ----- Garbage collection -----

    /**
     Line `v` is under collection and the pages in `moved` were dealt with. Seen by the host,
     nothing but the places of logical pages in `moved` has changed since `s`. The pages that can
     be written, less those still to be copied, stay the same number, and it exceeds the free
     pages of the user line: the collector never runs out of pages.
     */
    ghost predicate Collecting(v: nat, moved: set<Ppa>, s: GcStart)
      reads this, vq, vq.d
    {
      && Base(v) && v < g.lines && UserOk()
      && GcLine(g, status, gcLine, gcAt, false)
      && MapsAgree(maptbl, rmap, status, moved)
      && KeysBelow(maptbl, g.ttPgs)
      && Unvisited(g, status, v, moved)
      && Relocated(s.mt, s.status, maptbl, status, v, moved)
      && ViewOf(maptbl, stamps) == s.view
      && Space(g, Snap()) - Todo(g, status, v, moved) == s.surplus
      && LineNum(g, status, wpLine, Free) == s.userFree < s.surplus
    }

    /** Takes the line with the fewest valid pages out of the queue. Unless forced, a line with more
        than an eighth of its pages valid is not worth it. */
    method SelectVictimLine(force: bool) returns (found: bool, v: nat)
      requires Base(-1)
      modifies this`victimCnt, vq`size, vq`pos, vq`members, vq.d
      ensures found ==> LeastOf(old(vq.members), vq.vpc, v)
      ensures !found ==> Base(-1) && Snap() == old(Snap())
      ensures !found ==> forall m :: m in vq.members ==> !force && m < |vq.vpc| && vq.vpc[m] > g.pgsPerLine / 8
      ensures found && !force ==> v < |vq.vpc| && vq.vpc[v] <= g.pgsPerLine / 8
      ensures found ==> v in old(vq.members) && v < |vq.vpc| && Base(v)
      ensures found ==> Snap() == old(Snap()).(ls := old(Snap().ls).(victims := old(vq.members) - {v}))
    {
      hide BookOk, VictimQueue.Queue.Valid, Geo.Ok, CtrTotal, ValidGcPos, ValidDie;
      found, v := vq.Peek();
      if !found {
        return;
      }
      SelectGuards(g, Snap(), v);
      SelectKeeps(g, Snap(), v);
      if !force && vq.vpc[v] > g.pgsPerLine / 8 {
        found := false;
        return;
      }
      var _, top := vq.Pop();
      vq.ClearPos(v);
      victimCnt := victimCnt - 1;
    }

    /** Copies a valid page of the line under collection to the collector's page, which stays behind. */
    method CopyPage(p: Ppa, ghost v: nat, ghost moved: set<Ppa>, ghost s: GcStart)
      requires Collecting(v, moved, s)
      requires p in LinePages(g, v) && p !in moved && p in status && status[p] == Valid
      modifies this`maptbl, this`rmap, this`stamps, this`status, this`blkVpc, vq`vpc
      ensures Base(v) && UserOk() && GcLine(g, status, gcLine, gcAt, true)
      ensures MapsAgree(maptbl, rmap, status, moved + {p}) && KeysBelow(maptbl, g.ttPgs)
      ensures Unvisited(g, status, v, moved + {p}) && Relocated(s.mt, s.status, maptbl, status, v, moved + {p})
      ensures ViewOf(maptbl, stamps) == s.view
      ensures Space(g, Snap()) - Todo(g, status, v, moved + {p}) == s.surplus
      ensures LineNum(g, status, wpLine, Free) == s.userFree < s.surplus
      ensures status.Keys == old(status.Keys)
      ensures forall q :: q in status && q.blk.line == v ==> status[q] == old(status)[q]
    {
      hide BookOk, VictimQueue.Queue.Valid, Geo.Derived, CtrTotal, MapsAgree, UserLine, GcLine, Unvisited, Relocated,
           Todo, Space, LineNum, HasFree, WholeRows, ValidGcPos, ValidDie, ViewOf, Stamped, KeysBelow;
      LiftAgrees(maptbl, rmap, status, moved, p);
      OpenLines(g, Snap(), v);
      var lpn := rmap[p];
      var q := PageAt(gcAt, gcLine);
      GcMove(g, Snap(), gcAt, pageCounter, maptbl, rmap, v, moved, p, s.mt, s.status);
      CopyShows(maptbl, rmap, status, moved, stamps, p, q);
      CopyKeys(maptbl, rmap, status, moved, p, q, g.ttPgs);
      maptbl := maptbl[lpn := q];
      rmap := rmap[q := lpn];
      stamps := Stamped(stamps, q, stamps(p));
      MarkPageValid(q, v);
    }

    /** Copies a valid page of the line under collection and moves the collector's pointer on. */
    method GcWritePage(p: Ppa, ghost v: nat, ghost moved: set<Ppa>, ghost s: GcStart)
      requires Collecting(v, moved, s)
      requires p in LinePages(g, v) && p !in moved && p in status && status[p] == Valid
      modifies this`maptbl, this`rmap, this`stamps, this`status, this`blkVpc, this`freeLines, this`freeCnt,
               this`fullLines, this`fullCnt, this`victimCnt, this`gcLine, this`gcAt, vq, vq.d
      ensures Collecting(v, moved + {p}, s)
      ensures status.Keys == old(status.Keys)
      ensures forall q :: q in status && q.blk.line == v ==> status[q] == old(status)[q]
    {
      hide BookOk, VictimQueue.Queue.Valid, Geo.Ok, CtrTotal, MapsAgree, UserLine, GcLine, Unvisited, Relocated, Todo,
           Space, LineNum, HasFree, WholeRows, ValidGcPos, ValidDie, KeysBelow, ViewOf;
      CopyPage(p, v, moved, s);
      RoomMeansLine(g, Snap(), v);
      AdvanceGc(v);
    }

    /** Counts the valid pages of a flash page. No page of a line under collection is free. */
    method CountValid(e: Blk, base: nat, ghost moved: set<Ppa>, ghost s: GcStart) returns (cnt: nat)
      requires Collecting(e.line, moved, s)
      requires ValidDie(g, e.die) && base + g.pgsPerFlashpg <= g.pgsPerBlk
      requires moved !! FlashPages(e, base, g.pgsPerFlashpg)
      ensures forall p :: p in FlashPages(e, base, g.pgsPerFlashpg) ==> p in status && status[p] != Free
      ensures cnt == 0 <==> forall p :: p in FlashPages(e, base, g.pgsPerFlashpg) ==> status[p] != Valid
    {
      hide BookOk, VictimQueue.Queue.Valid, Geo.Derived, CtrTotal, MapsAgree, UserLine, GcLine, Relocated, Todo,
           Space, LineNum, WholeRows;
      cnt := 0;
      for i := 0 to g.pgsPerFlashpg
        invariant forall p :: p in FlashPages(e, base, i) ==> p in status && status[p] != Free
        invariant cnt == 0 <==> forall p :: p in FlashPages(e, base, i) ==> status[p] != Valid
      {
        var p := Ppa(e, base + i);
        PageInRange(g, Snap(), e.line, p);
        assert p in LinePages(g, e.line) && p !in moved;
        assert status[p] != Free;
        if status[p] == Valid {
          cnt := cnt + 1;
        }
        assert FlashPages(e, base, i + 1) == FlashPages(e, base, i) + {p};
      }
    }

    /** Visits the pages of one flash page of the line under collection and copies the valid ones. */
    method CleanOneFlashpg(e: Blk, base: nat, ghost moved: set<Ppa>, ghost s: GcStart)
      requires Collecting(e.line, moved, s)
      requires ValidDie(g, e.die) && base + g.pgsPerFlashpg <= g.pgsPerBlk
      requires moved !! FlashPages(e, base, g.pgsPerFlashpg)
      modifies this`maptbl, this`rmap, this`stamps, this`status, this`blkVpc, this`freeLines, this`freeCnt,
               this`fullLines, this`fullCnt, this`victimCnt, this`gcLine, this`gcAt, vq, vq.d
      ensures Collecting(e.line, moved + FlashPages(e, base, g.pgsPerFlashpg), s)
      ensures status.Keys == old(status.Keys)
      ensures forall q :: q in status && q.blk.line == e.line ==> status[q] == old(status)[q]
    {
      hide BookOk, VictimQueue.Queue.Valid, Geo.Derived, CtrTotal, MapsAgree, UserLine, GcLine, Unvisited, Relocated,
           Todo, Space, LineNum, WholeRows, ViewOf, Geo.Ok;
      var cnt := CountValid(e, base, moved, s);
      if cnt == 0 {
        assert FlashPages(e, base, g.pgsPerFlashpg) <= LinePages(g, e.line);
        PassOver(g, s.mt, s.status, maptbl, rmap, status, e.line, moved, FlashPages(e, base, g.pgsPerFlashpg));
        return;
      }
      ghost var m := moved;
      assert m == moved + FlashPages(e, base, 0);
      for i := 0 to g.pgsPerFlashpg
        invariant m == moved + FlashPages(e, base, i)
        invariant Collecting(e.line, m, s)
        invariant status.Keys == old(status.Keys)
        invariant forall q :: q in status && q.blk.line == e.line ==> status[q] == old(status)[q]
      {
        var p := Ppa(e, base + i);
        VisitPage(p, m, s);
        m := m + {p};
        assert FlashPages(e, base, i + 1) == FlashPages(e, base, i) + {p};
      }
    }

    /** Copies a page if it is valid. */
    method VisitPage(p: Ppa, ghost moved: set<Ppa>, ghost s: GcStart)
      requires Collecting(p.blk.line, moved, s)
      requires p in LinePages(g, p.blk.line) && p !in moved
      modifies this`maptbl, this`rmap, this`stamps, this`status, this`blkVpc, this`freeLines, this`freeCnt,
               this`fullLines, this`fullCnt, this`victimCnt, this`gcLine, this`gcAt, vq, vq.d
      ensures Collecting(p.blk.line, moved + {p}, s)
      ensures status.Keys == old(status.Keys)
      ensures forall q :: q in status && q.blk.line == p.blk.line ==> status[q] == old(status)[q]
    {
      hide BookOk, VictimQueue.Queue.Valid, Geo.Derived, CtrTotal, MapsAgree, UserLine, GcLine, Unvisited, Relocated,
           Todo, Space, LineNum, WholeRows;
      PageInRange(g, Snap(), p.blk.line, p);
      if status[p] == Valid {
        GcWritePage(p, p.blk.line, moved, s);
      } else {
        PassOver(g, s.mt, s.status, maptbl, rmap, status, p.blk.line, moved, {p});
      }
    }

    /** Sets every page of a block free. */
    method FreePagesOf(e: Blk)
      requires StatusTotal(g, status) && ValidBlk(g, e)
      modifies this`status
      ensures status == Erased(old(status), BlkPages(g, e))
    {
      assert status == Erased(status, FlashPages(e, 0, 0));
      for i := 0 to g.pgsPerBlk
        invariant status == Erased(old(status), FlashPages(e, 0, i))
      {
        status := status[Ppa(e, i) := Free];
        assert FlashPages(e, 0, i + 1) == FlashPages(e, 0, i) + {Ppa(e, i)};
      }
      assert FlashPages(e, 0, g.pgsPerBlk) == BlkPages(g, e);
    }

    /** Erases a block: every page is free again and the counters are zero. The reverse map keeps
        its entries. */
    method MarkBlockFree(e: Blk, ghost moved: set<Ppa>, ghost s: GcStart)
      requires Collecting(e.line, moved, s)
      requires ValidDie(g, e.die) && BlkPages(g, e) <= moved
      modifies this`status, this`blkVpc, this`blkIpc
      ensures Collecting(e.line, moved, s)
      ensures status == Erased(old(status), BlkPages(g, e))
    {
      hide VictimQueue.Queue.Valid, Geo.Derived, CtrTotal, MapsAgree, UserLine, GcLine, Unvisited, Relocated, Todo,
           Space, LineNum, WholeRows, StatusTotal, BlksCounted, LinesCounted, Census, Roles;
      BlkFree(g, Snap(), gcAt, pageCounter, maptbl, rmap, moved, s.mt, s.status, e);
      FreePagesOf(e);
      blkIpc := blkIpc[e := 0];
      blkVpc := blkVpc[e := 0];
      assert Snap() == BlkFreed(g, old(Snap()), e);
    }

    /** One die of one round: its flash page is cleaned, and in the last round its block is erased. */
    method CleanDie(v: nat, base: nat, last: bool, ch: nat, lun: nat, ghost moved: set<Ppa>,
        ghost s: GcStart) returns (ghost moved': set<Ppa>)
      requires Collecting(v, moved, s)
      requires ch < g.nchs && lun < g.luns && base + g.pgsPerFlashpg <= g.pgsPerBlk
      requires last ==> base + g.pgsPerFlashpg == g.pgsPerBlk
      requires Progress(g, status, v, moved, base, last, ch, lun)
      modifies this`maptbl, this`rmap, this`stamps, this`status, this`blkVpc, this`blkIpc, this`freeLines,
               this`freeCnt, this`fullLines, this`fullCnt, this`victimCnt, this`gcLine, this`gcAt, vq, vq.d
      ensures Collecting(v, moved', s)
      ensures Progress(g, status, v, moved', base, last, ch, lun + 1)
    {
      hide BookOk, VictimQueue.Queue.Valid, Geo.Derived, CtrTotal, MapsAgree, UserLine, GcLine, Unvisited, Relocated,
           Todo, Space, LineNum, WholeRows, Progress;
      var e := Blk(Die(ch, lun), v);
      ProgressFresh(g, status, v, moved, base, last, ch, lun);
      CleanOneFlashpg(e, base, moved, s);
      moved' := moved + FlashPages(e, base, g.pgsPerFlashpg);
      if last {
        MarkBlockFree(e, moved', s);
      }
      ProgressDie(g, old(status), status, v, moved, base, last, ch, lun);
    }

    /** One round: the flash page at `base` on every die, channel by channel. */
    method CleanRound(v: nat, base: nat, last: bool, ghost moved: set<Ppa>,
        ghost s: GcStart) returns (ghost moved': set<Ppa>)
      requires Collecting(v, moved, s)
      requires base + g.pgsPerFlashpg <= g.pgsPerBlk
      requires last ==> base + g.pgsPerFlashpg == g.pgsPerBlk
      requires Progress(g, status, v, moved, base, last, 0, 0)
      modifies this`maptbl, this`rmap, this`stamps, this`status, this`blkVpc, this`blkIpc, this`freeLines,
               this`freeCnt, this`fullLines, this`fullCnt, this`victimCnt, this`gcLine, this`gcAt, vq, vq.d
      ensures Collecting(v, moved', s)
      ensures Progress(g, status, v, moved', base, last, g.nchs, 0)
    {
      hide BookOk, Collecting, Geo.Ok, Progress, VictimQueue.Queue.Valid;
      moved' := moved;
      for ch := 0 to g.nchs
        invariant Collecting(v, moved', s)
        invariant Progress(g, status, v, moved', base, last, ch, 0)
      {
        for lun := 0 to g.luns
          invariant Collecting(v, moved', s)
          invariant Progress(g, status, v, moved', base, last, ch, lun)
        {
          moved' := CleanDie(v, base, last, ch, lun, moved', s);
        }
        ProgressChannel(g, status, v, moved', base, last, ch);
      }
    }

    /** Copies the valid pages of line `v` away and erases its blocks, one flash page at a time.
        Every page is visited exactly once. */
    method CleanLine(v: nat, ghost s: GcStart)
      requires Collecting(v, {}, s)
      modifies this`maptbl, this`rmap, this`stamps, this`status, this`blkVpc, this`blkIpc, this`freeLines,
               this`freeCnt, this`fullLines, this`fullCnt, this`victimCnt, this`gcLine, this`gcAt, vq, vq.d
      ensures Collecting(v, LinePages(g, v), s)
      ensures LineAll(g, status, v, Free)
    {
      hide BookOk, Collecting, Progress, VictimQueue.Queue.Valid;
      assert g.Ok() by { GeoOk(v, {}, s); }
      ghost var moved: set<Ppa> := {};
      ProgressStart(g, status, v, g.flashpgsPerBlk == 1);
      var n := g.pgsPerFlashpg;
      for f := 0 to g.flashpgsPerBlk
        invariant Collecting(v, moved, s)
        invariant f < g.flashpgsPerBlk ==> Progress(g, status, v, moved, f * n, f == g.flashpgsPerBlk - 1, 0, 0)
        invariant f == g.flashpgsPerBlk ==> moved == LinePages(g, v) && LineAll(g, status, v, Free)
      {
        FlashPageInBlock(g, f);
        if f == g.flashpgsPerBlk - 1 {
          LastFlashPage(g, f);
        }
        moved := CleanRound(v, f * n, f == g.flashpgsPerBlk - 1, moved, s);
        if f == g.flashpgsPerBlk - 1 {
          ProgressEnd(g, status, v, moved, f * n);
        } else {
          ProgressRound(g, status, v, moved, f * n, f + 1 == g.flashpgsPerBlk - 1);
          MulStep(f + 1, n);
        }
      }
    }

    lemma GeoOk(v: nat, moved: set<Ppa>, s: GcStart)
      requires Collecting(v, moved, s)
      ensures g.Ok()
    {
    }

    static lemma LastFlashPage(g: Geo, f: nat)
      requires g.Ok() && f == g.flashpgsPerBlk - 1
      ensures f * g.pgsPerFlashpg + g.pgsPerFlashpg == g.pgsPerBlk
    {
      MulStep(g.flashpgsPerBlk, g.pgsPerFlashpg);
      assert g.flashpgsPerBlk * g.pgsPerFlashpg == g.pgsPerBlk;
    }

    /** Between two steps of the device: nothing is under collection. */
    ghost predicate Ready()
      reads this, vq, vq.d
    {
      && Base(-1) && UserOk()
      && GcLine(g, status, gcLine, gcAt, false)
      && MapsAgree(maptbl, rmap, status, {})
      && KeysBelow(maptbl, g.ttPgs)
    }

    /** Puts the cleaned line at the end of the free list. */
    method MarkLineFree(v: nat, ghost s: GcStart)
      requires Collecting(v, LinePages(g, v), s) && LineAll(g, status, v, Free)
      modifies this`lineIpc, this`freeLines, this`freeCnt, vq`vpc
      ensures Ready()
      ensures Space(g, Snap()) == s.surplus + g.pgsPerLine
      ensures freeLines == old(freeLines) + [v]
      ensures Relocated(s.mt, s.status, maptbl, status, v, LinePages(g, v))
      ensures ViewOf(maptbl, stamps) == s.view
    {
      hide BookOk, VictimQueue.Queue.Valid, Geo.Derived, CtrTotal, MapsAgree, UserLine, GcLine, Unvisited, Relocated,
           Todo, Space, LineNum, WholeRows, LineAll;
      TodoAll(g, status, v);
      LineFreedKeeps(g, Snap(), v);
      AllErasedAgrees(maptbl, rmap, status, LinePages(g, v)) by {
        FreeOf(g, status, v);
      }
      lineIpc := lineIpc[v := 0];
      vq.SetVpc(v, 0);
      freeLines := freeLines + [v];
      freeCnt := freeCnt + 1;
      assert Snap() == LineFreed(old(Snap()), v);
    }

    static lemma FreeOf(g: Geo, status: map<Ppa, PageStatus>, v: nat)
      requires LineAll(g, status, v, Free)
      ensures forall p :: p in LinePages(g, v) && p in status ==> status[p] == Free
    {
    }

    /**
     Line `v`, the queued line with the fewest valid pages, was collected: the same logical pages are mapped,
     those that lived in the line moved to pages that were free, the others stayed, the whole line is
     free, and the next refill is worth the invalid pages that the line had.
     */
    twostate predicate Collected(v: nat)
      reads this, vq
    {
      && v in old(vq.members) && v < g.lines
      && LeastOf(old(vq.members), old(vq.vpc), v)
      && Relocated(old(maptbl), old(status), maptbl, status, v, LinePages(g, v))
      && LineAll(g, status, v, Free)
      && v < |old(lineIpc)| && creditsToRefill == old(lineIpc)[v]
    }

    /**
     Garbage collection of one line, the queued line with the fewest valid pages.

     The host sees nothing of it: it reads the same from every logical page. As many pages are won as the
     line had invalid ones.
     */
    method DoGc(force: bool) returns (done: bool, ghost v: nat)
      requires Ready() && freeLines != []
      modifies this`maptbl, this`rmap, this`stamps, this`status, this`blkVpc, this`blkIpc, this`lineIpc,
               this`freeLines, this`freeCnt, this`fullLines, this`fullCnt, this`victimCnt, this`gcLine, this`gcAt,
               this`creditsToRefill, vq, vq.d
      ensures Ready()
      ensures force ==> (done <==> old(vq.members) != {})
      ensures !done ==>
          Snap() == old(Snap()) && maptbl == old(maptbl) && rmap == old(rmap) && creditsToRefill == old(creditsToRefill)
      ensures done ==> Collected(v) && freeLines != [] && freeLines[|freeLines| - 1] == v
      ensures done ==> Space(g, Snap()) == old(Space(g, Snap())) + creditsToRefill
      ensures done ==> 0 < creditsToRefill <= g.pgsPerLine
      ensures ViewOf(maptbl, stamps) == old(ViewOf(maptbl, stamps))
    {
      hide BookOk, Ready, Collecting, Relocated, Space, LineAll, VictimQueue.Queue.Valid;
      ghost var s;
      v := 0;
      var line;
      done, line, s := BeginCollection(force);
      if !done {
        return;
      }
      v := line;
      CleanLine(line, s);
      MarkLineFree(line, s);
    }

    /** Takes a victim and sets the credits that its invalid pages are worth. */
    method BeginCollection(force: bool) returns (done: bool, v: nat, ghost s: GcStart)
      requires Ready() && freeLines != []
      modifies this`victimCnt, this`creditsToRefill, vq`size, vq`pos, vq`members, vq.d
      ensures done ==> LeastOf(old(vq.members), vq.vpc, v)
      ensures done ==> v in old(vq.members) && v < g.lines
      ensures force ==> (done <==> old(vq.members) != {})
      ensures !done ==> Ready() && Snap() == old(Snap()) && creditsToRefill == old(creditsToRefill)
      ensures done ==> Collecting(v, {}, s)
      ensures done ==>
          s.mt == maptbl && s.status == status && s.surplus + g.pgsPerLine == old(Space(g, Snap())) + creditsToRefill
      ensures done ==> s.view == ViewOf(maptbl, stamps)
      ensures done ==> v < |lineIpc| && creditsToRefill == lineIpc[v]
      ensures done ==> 0 < creditsToRefill <= g.pgsPerLine
    {
      hide BookOk, VictimQueue.Queue.Valid, Geo.Derived, CtrTotal, MapsAgree, UserLine, GcLine, Unvisited, Relocated,
           Todo, Space, LineNum, WholeRows, LineAll, ValidGcPos, ValidDie, KeysBelow, LineNone, LinePages, Geo.Ok,
           ViewOf, LeastOf;
      ghost var b := Snap();
      s := GcStart(maptbl, status, map[], 0, 0);
      done, v := SelectVictimLine(force);
      if !done {
        return;
      }
      SelectGuards(g, b, v);
      StartCollecting(g, b, maptbl, v, gcAt);
      s := GcStart(maptbl, status, ViewOf(maptbl, stamps), Space(g, b) - b.vpc[v],
                   LineNum(g, status, wpLine, Free));
      creditsToRefill := lineIpc[v];
    }

    // ----- Host writes -----

    /**
     Write credits pace the collection. The pages that can be written, less the credits, never
     fall below two lines and two pages, so whoever needs a free line finds one.
     */
    ghost predicate Paced(credits: int)
      reads this, vq
    {
      && 0 < creditsToRefill <= g.pgsPerLine
      && Space(g, Snap()) - credits >= 2 * g.pgsPerLine + 2
    }

    /** The invariant between two host writes. */
    ghost predicate Consistent()
      reads this, vq, vq.d
    {
      Ready() && writeCredits > 0 && Paced(writeCredits)
    }

    lemma Funded()
      requires Consistent()
      ensures Ready() && writeCredits > 0 && 0 < creditsToRefill <= g.pgsPerLine
      ensures Space(g, Snap()) - writeCredits >= 2 * g.pgsPerLine + 2
    {
      hide Ready;
    }

    /** Fewer logical pages are mapped than four lines short of the device can hold. */
    ghost predicate Room(keys: set<nat>)
    {
      g.lines >= 4 && |keys| < (g.lines - 4) * g.pgsPerLine
    }

    /** A new device. */
    lemma NewIsConsistent()
      requires Ready() && Snap() == Fresh(g) && g.lines >= 5
      requires writeCredits == creditsToRefill == g.pgsPerLine
      ensures Consistent()
    {
      hide BookOk, Space, MapsAgree, UserLine, GcLine, Fresh, VictimQueue.Queue.Valid;
      FreshSpace(g);
      MulLe(5, g.lines, g.pgsPerLine);
    }

    /** Nothing was collected. */
    twostate predicate Uncollected()
      reads this, vq
    {
      && maptbl == old(maptbl) && status == old(status) && stamps == old(stamps) && lineIpc == old(lineIpc)
      && freeLines == old(freeLines) && vq.members == old(vq.members) && creditsToRefill == old(creditsToRefill)
    }

    /** Collects one line exactly when too few are free. */
    method ForegroundGc() returns (ghost v: int)
      requires Ready() && Paced(0) && Room(maptbl.Keys)
      modifies this`maptbl, this`rmap, this`stamps, this`status, this`blkVpc, this`blkIpc, this`lineIpc,
               this`freeLines, this`freeCnt, this`fullLines, this`fullCnt, this`victimCnt, this`gcLine, this`gcAt,
               this`creditsToRefill, vq, vq.d
      ensures Ready() && Paced(creditsToRefill)
      ensures |old(freeLines)| > GC_THRES_LINES_HIGH ==> v == -1 && Uncollected()
      ensures |old(freeLines)| <= GC_THRES_LINES_HIGH ==> v >= 0 && Collected(v)
      ensures ViewOf(maptbl, stamps) == old(ViewOf(maptbl, stamps))
    {
      hide BookOk, VictimQueue.Queue.Valid, Geo.Derived, CtrTotal, MapsAgree, UserLine, GcLine, Space, LineNum,
           WholeRows, LineAll, HasFree, PagesOfLines;
      v := -1;
      PacedHasLine(g, Snap(), -1, 0);
      if freeCnt <= GC_THRES_LINES_HIGH {
        VictimExists(g, Snap(), maptbl, rmap);
        var done;
        ghost var line;
        done, line := DoGc(true);
        v := line;
      } else {
        OpenHaveFree();
        ThreeFreeLines(g, Snap());
      }
    }

    /** Both write pointers stand on a free page. */
    lemma OpenHaveFree()
      requires Ready()
      ensures HasFree(g, Snap(), wpLine) && HasFree(g, Snap(), gcLine)
    {
      hide BookOk, MapsAgree, VictimQueue.Queue.Valid, Geo.Derived, UserLine, GcLine;
      OpenLines(g, Snap(), -1);
      StatusOf(g, Snap());
      UserPageFree(g, status, wpLine, pageCounter, wpDie);
      GcPageFree(g, status, gcLine, gcAt);
      assert PageAt(gcAt, gcLine) in LinePages(g, gcLine);
    }

    static lemma StatusOf(g: Geo, b: Book)
      requires BookOk(g, b, -1)
      ensures StatusTotal(g, b.status)
    {
    }

    method ConsumeWriteCredit()
      requires Ready()
      modifies this`writeCredits
      ensures Ready()
      ensures writeCredits == old(writeCredits) - 1
    {
      hide BookOk, VictimQueue.Queue.Valid, Geo.Ok, CtrTotal, MapsAgree, UserLine, GcLine, WholeRows, KeysBelow;
      writeCredits := writeCredits - 1;
    }

    /** Out of credits: collect if needed, and earn new credits. */
    method CheckAndRefillWriteCredit() returns (ghost v: int)
      requires Ready() && writeCredits >= 0 && Paced(writeCredits) && Room(maptbl.Keys)
      modifies this`maptbl, this`rmap, this`stamps, this`status, this`blkVpc, this`blkIpc, this`lineIpc,
               this`freeLines, this`freeCnt, this`fullLines, this`fullCnt, this`victimCnt, this`gcLine, this`gcAt,
               this`creditsToRefill, this`writeCredits, vq, vq.d
      ensures Consistent()
      ensures old(writeCredits) > 0 ==> v == -1 && writeCredits == old(writeCredits)
      ensures old(writeCredits) == 0 ==> writeCredits == creditsToRefill
      ensures v >= 0 <==> old(writeCredits) == 0 && |old(freeLines)| <= GC_THRES_LINES_HIGH
      ensures if v >= 0 then Collected(v) else Uncollected()
      ensures WriteResult(g, old(Tab()), old(writeCredits) + 1, old(creditsToRefill), Tab(), writeCredits,
                          creditsToRefill, v)
      ensures maptbl.Keys == old(maptbl.Keys)
      ensures ViewOf(maptbl, stamps) == old(ViewOf(maptbl, stamps))
    {
      hide BookOk, VictimQueue.Queue.Valid, Geo.Derived, CtrTotal, MapsAgree, UserLine, GcLine, Space, LineNum,
           WholeRows, Relocated, LineAll, ViewOf;
      v := -1;
      ghost var (mt, st) := (maptbl, stamps);
      if writeCredits <= 0 {
        v := ForegroundGc();
        writeCredits := writeCredits + creditsToRefill;
      }
      SameKeys(mt, st, maptbl, stamps);
    }

    /** Puts a logical page on the page under the user pointer; its old page becomes invalid. */
    method PlacePage(lpn: nat, ghost stamp: nat)
      requires Ready() && lpn < g.ttPgs
      modifies this`maptbl, this`rmap, this`stamps, this`status, this`blkVpc, this`blkIpc, this`lineIpc,
               this`fullLines, this`fullCnt, this`victimCnt, vq, vq.d
      ensures Base(-1) && GcLine(g, status, gcLine, gcAt, false)
      ensures MapsAgree(maptbl, rmap, status, {}) && KeysBelow(maptbl, g.ttPgs)
      ensures wpDie in pageCounter && pageCounter[wpDie] < g.pgsPerBlk
      ensures UserLine(g, status, wpLine, pageCounter[wpDie := pageCounter[wpDie] + 1])
      ensures maptbl == old(maptbl)[lpn := Ppa(Blk(wpDie, wpLine), wpPg)]
      ensures maptbl[lpn] in old(status) && old(status)[maptbl[lpn]] == Free
      ensures status == Dropped(old(maptbl), old(status), lpn)[maptbl[lpn] := Valid]
      ensures lineIpc == OneMore(old(maptbl), old(lineIpc), lpn)
      ensures stamps == Stamped(old(stamps), maptbl[lpn], stamp)
      ensures ViewOf(maptbl, stamps) == old(ViewOf(maptbl, stamps))[lpn := stamp]
      ensures maptbl.Keys == old(maptbl.Keys) + {lpn}
      ensures Space(g, Snap()) == old(Space(g, Snap())) - 1
    {
      hide BookOk, VictimQueue.Queue.Valid, Geo.Derived, CtrTotal, MapsAgree, UserLine, GcLine, Space, LineNum,
           WholeRows, HasFree, ViewOf, Stamped, Dropped, OneMore, KeysBelow, ValidGcPos;
      ghost var (mt, rm, st) := (maptbl, rmap, status);
      Unplace(lpn);
      var q := Ppa(Blk(wpDie, wpLine), wpPg);
      PlaceUser(g, Snap(), pageCounter, wpDie, gcAt, maptbl - {lpn}, rmap, lpn);
      WriteShows(mt, rm, st, stamps, lpn, q, stamp);
      PutBack(maptbl, lpn, q, g.ttPgs);
      maptbl := maptbl[lpn := q];
      rmap := rmap[q := lpn];
      stamps := Stamped(stamps, q, stamp);
      MarkPageValid(q, -1);
    }

    /** Drops the old page of a logical page, if it has one. */
    method Unplace(lpn: nat)
      requires Ready()
      modifies this`rmap, this`status, this`blkVpc, this`blkIpc, this`lineIpc, this`fullLines, this`fullCnt,
               this`victimCnt, vq, vq.d
      ensures Base(-1) && UserOk() && GcLine(g, status, gcLine, gcAt, false)
      ensures MapsAgree(maptbl - {lpn}, rmap, status, {})
      ensures Space(g, Snap()) == old(Space(g, Snap()))
      ensures forall p :: p in status && status[p] == Free ==> p in old(status) && old(status)[p] == Free
      ensures status == Dropped(maptbl, old(status), lpn) && lineIpc == OneMore(maptbl, old(lineIpc), lpn)
    {
      hide BookOk, VictimQueue.Queue.Valid, Geo.Derived, CtrTotal, MapsAgree, UserLine, GcLine, Space, LineNum,
           WholeRows, HasFree;
      if lpn in maptbl {
        var p := maptbl[lpn];
        OpenHaveFree();
        DropUser(g, Snap(), pageCounter, gcAt, maptbl, rmap, lpn);
        MarkPageInvalid(p);
        rmap := rmap - {p};
      } else {
        assert maptbl - {lpn} == maptbl;
      }
    }

    /** The page under the user pointer. */
    ghost function Here(): Ppa
      reads this
    {
      Ppa(Blk(wpDie, wpLine), wpPg)
    }

    ghost function Tab(): Tables
      reads this
    {
      Tables(maptbl, status, stamps, lineIpc, freeLines)
    }

    /** Stores a logical page and moves the user pointer on. */
    method StorePage(lpn: nat, ghost stamp: nat)
      requires Ready() && lpn < g.ttPgs && Space(g, Snap()) >= 2 * g.pgsPerLine + 2
      modifies this`maptbl, this`rmap, this`stamps, this`status, this`blkVpc, this`blkIpc, this`lineIpc,
               this`freeLines, this`freeCnt, this`fullLines, this`fullCnt, this`victimCnt, this`wpLine, this`wpDie,
               this`wpPg, this`pageCounter, vq, vq.d
      ensures Ready() && old(Here()) in old(status) && old(status)[old(Here())] == Free
      ensures Tab() == AfterStore(g, old(Tab()), old(pageCounter), old(Here()), lpn, stamp)
      ensures ViewOf(maptbl, stamps) == old(ViewOf(maptbl, stamps))[lpn := stamp]
      ensures maptbl.Keys == old(maptbl.Keys) + {lpn}
      ensures Steps(g, old(pageCounter), old(wpDie), old(wpLine), old(freeLines), pageCounter, wpDie, wpLine)
      ensures Space(g, Snap()) == old(Space(g, Snap())) - 1
      ensures NextPage(old(wpPg), wpPg, g.pgsPerOneshot)
    {
      hide BookOk, VictimQueue.Queue.Valid, Geo.Derived, CtrTotal, MapsAgree, UserLine, GcLine, Space, LineNum,
           WholeRows, HasFree, Dropped, OneMore, FreeAfter, ViewOf, Steps, Stamped;
      PlacePage(lpn, stamp);
      PacedHasLine(g, Snap(), -1, 1);
      AdvanceUser();
    }

    /** As StorePage, with the pointer of the fragmenting rewriter. */
    method StorePageCleaner(lpn: nat, ghost stamp: nat, degree: int, con: int, conti: int, maxCon: int, random: int)
      returns (park: bool, con': int, conti': int)
      requires Ready() && lpn < g.ttPgs && Space(g, Snap()) >= 2 * g.pgsPerLine + 2
      modifies this`maptbl, this`rmap, this`stamps, this`status, this`blkVpc, this`blkIpc, this`lineIpc,
               this`freeLines, this`freeCnt, this`fullLines, this`fullCnt, this`victimCnt, this`wpLine, this`wpDie,
               this`wpPg, this`pageCounter, vq, vq.d
      ensures Ready() && old(Here()) in old(status) && old(status)[old(Here())] == Free
      ensures Tab() == AfterStore(g, old(Tab()), old(pageCounter), old(Here()), lpn, stamp)
      ensures ViewOf(maptbl, stamps) == old(ViewOf(maptbl, stamps))[lpn := stamp]
      ensures maptbl.Keys == old(maptbl.Keys) + {lpn}
      ensures Space(g, Snap()) == old(Space(g, Snap())) - 1
      ensures con' == con + 1
      ensures Cleaned(degree, con', conti, maxCon, random, park, conti')
    {
      hide BookOk, VictimQueue.Queue.Valid, Geo.Derived, CtrTotal, MapsAgree, UserLine, GcLine, Space, LineNum,
           WholeRows, HasFree, Dropped, OneMore, FreeAfter, ViewOf, CleanerSteps, Stamped;
      PlacePage(lpn, stamp);
      PacedHasLine(g, Snap(), -1, 1);
      park, con', conti' := AdvanceCleaner(degree, con, conti, maxCon, random);
    }

    /** What the pointer of the rewriter does after a page, when `con` pages were written in this turn. */
    twostate predicate Cleaned(degree: int, con: int, conti: int, maxCon: int, random: int, park: bool, conti': int)
      reads this
    {
      && old(wpDie) in old(pageCounter) && g.pgsPerOneshot > 0
      && CleanerSteps(g, old(pageCounter), old(wpDie), old(wpLine), old(freeLines), pageCounter, wpDie, wpLine,
                      Draws(degree, conti, random) && con < 16 * g.pgsPerOneshot)
      && (park <==> (old(pageCounter)[old(wpDie)] + 1) % g.pgsPerOneshot == 0 && Draws(degree, conti, random)
                    && con >= 16 * g.pgsPerOneshot)
      && conti' == RunAfter(g, old(pageCounter)[old(wpDie)] + 1, degree, con, conti, maxCon, random)
    }

    /** One credit is paid, and when it was the last one new ones are earned. */
    method PayCredit() returns (ghost v: int)
      requires Ready() && writeCredits > 0 && Room(maptbl.Keys) && 0 < creditsToRefill <= g.pgsPerLine
      requires Space(g, Snap()) - (writeCredits - 1) >= 2 * g.pgsPerLine + 2
      modifies this`maptbl, this`rmap, this`stamps, this`status, this`blkVpc, this`blkIpc, this`lineIpc,
               this`freeLines, this`freeCnt, this`fullLines, this`fullCnt, this`victimCnt, this`gcLine, this`gcAt,
               this`creditsToRefill, this`writeCredits, vq, vq.d
      ensures Consistent() && maptbl.Keys == old(maptbl.Keys)
      ensures WriteResult(g, old(Tab()), old(writeCredits), old(creditsToRefill), Tab(), writeCredits,
          creditsToRefill, v)
      ensures ViewOf(maptbl, stamps) == old(ViewOf(maptbl, stamps))
    {
      hide Ready, Room, Space, ViewOf, WriteResult, Collected, Uncollected;
      ConsumeWriteCredit();
      v := CheckAndRefillWriteCredit();
    }

    /** One page of a rewrite: as WritePage, with the pointer of the fragmenting rewriter. */
    method RewritePage(lpn: nat, ghost stamp: nat, degree: int, con: int, conti: int, maxCon: int, random: int)
      returns (park: bool, con': int, conti': int, ghost v: int)
      requires Consistent() && lpn < g.ttPgs && Room(maptbl.Keys + {lpn})
      modifies this, vq, vq.d
      ensures Consistent() && old(Here()) in old(status) && old(status)[old(Here())] == Free
      ensures WriteResult(g, AfterStore(g, old(Tab()), old(pageCounter), old(Here()), lpn, stamp), old(writeCredits),
                          old(creditsToRefill), Tab(), writeCredits, creditsToRefill, v)
      ensures ViewOf(maptbl, stamps) == old(ViewOf(maptbl, stamps))[lpn := stamp]
      ensures maptbl.Keys == old(maptbl.Keys) + {lpn}
      ensures con' == con + 1
      ensures Cleaned(degree, con', conti, maxCon, random, park, conti')
    {
      hide Consistent, Ready, BookOk, VictimQueue.Queue.Valid, Geo.Ok, Space, Room, ViewOf, AfterStore, WriteResult,
           CleanerSteps;
      Funded();
      park, con', conti' := StorePageCleaner(lpn, stamp, degree, con, conti, maxCon, random);
      v := PayCredit();
    }

    /** One page of a host write: store it, pay one credit, and collect when the credits are used up. */
    method WritePage(lpn: nat, ghost stamp: nat) returns (ghost v: int)
      requires Consistent() && lpn < g.ttPgs && Room(maptbl.Keys + {lpn})
      modifies this, vq, vq.d
      ensures Consistent() && old(Here()) in old(status) && old(status)[old(Here())] == Free
      ensures WriteResult(g, AfterStore(g, old(Tab()), old(pageCounter), old(Here()), lpn, stamp), old(writeCredits),
                          old(creditsToRefill), Tab(), writeCredits, creditsToRefill, v)
      ensures ViewOf(maptbl, stamps) == old(ViewOf(maptbl, stamps))[lpn := stamp]
      ensures maptbl.Keys == old(maptbl.Keys) + {lpn}
      ensures Steps(g, old(pageCounter), old(wpDie), old(wpLine), old(freeLines), pageCounter, wpDie, wpLine)
      ensures NextPage(old(wpPg), wpPg, g.pgsPerOneshot)
    {
      hide Consistent, Ready, BookOk, VictimQueue.Queue.Valid, Geo.Ok, Space, Room, ViewOf, AfterStore, WriteResult,
           Steps, NextPage, Tab;
      Funded();
      StorePage(lpn, stamp);
      v := PayCredit();
    }

    /** One page of a host write, as seen by the host. */
    method WriteOne(lpn: nat, ghost stamp: nat) returns (ghost v: int)
      requires Consistent() && lpn < g.ttPgs && Room(maptbl.Keys + {lpn})
      modifies this, vq, vq.d
      ensures Consistent() && maptbl.Keys == old(maptbl.Keys) + {lpn}
      ensures ViewOf(maptbl, stamps) == old(ViewOf(maptbl, stamps))[lpn := stamp]
      ensures StaysOne(old(maptbl), old(status), maptbl, lpn, v)
      ensures PaysOff(old(writeCredits), old(creditsToRefill), writeCredits, creditsToRefill, v)
      ensures old(Striped(g, pageCounter, wpDie)) ==> Striped(g, pageCounter, wpDie)
      ensures NextPage(old(wpPg), wpPg, g.pgsPerOneshot)
    {
      hide Consistent, Room, ViewOf, AfterStore, WriteResult, Steps, StaysOne, PaysOff, Striped, NextPage;
      CountersOk();
      ghost var (t, ctr, here, c, r, line) := (Tab(), pageCounter, Here(), writeCredits, creditsToRefill, wpLine);
      v := WritePage(lpn, stamp);
      WriteMoves(g, t, ctr, here, lpn, stamp, c, r, Tab(), writeCredits, creditsToRefill, v);
      if Striped(g, ctr, here.blk.die) {
        StripeStep(g, ctr, here.blk.die, line, t.free, pageCounter, wpDie, wpLine);
      }
    }

    /** The counters of the dies of the user line are in range. */
    lemma CountersOk()
      requires Consistent()
      ensures g.Ok() && (forall e :: e in pageCounter <==> ValidDie(g, e)) && wpDie in pageCounter
      ensures pageCounter[wpDie] < g.pgsPerBlk && forall e :: e in pageCounter ==> pageCounter[e] <= g.pgsPerBlk
    {
      hide BookOk, MapsAgree, GcLine, VictimQueue.Queue.Valid, Geo.Ok, Space, UserLine;
      UserLineScan(g, Snap(), pageCounter);
    }

    /**
     A run of host writes. No free line is ever missing. The host reads of every logical page the stamp of its
     last write. A page that is not written stays where it is unless its line is among those collected, `vs`. The
     credits `cs` and the worth of a refill `rs` follow the pacing at every write. A striped line stays striped.
     */
    method WritePages(lpns: seq<nat>, ghost marks: seq<nat>)
      returns (ghost vs: seq<int>, ghost cs: seq<int>, ghost rs: seq<int>)
      requires Consistent() && |marks| == |lpns| && forall i :: 0 <= i < |lpns| ==> lpns[i] < g.ttPgs
      requires Room(maptbl.Keys + Elems(lpns))
      modifies this, vq, vq.d
      ensures Consistent()
      ensures RunOk(old(maptbl), old(ViewOf(maptbl, stamps)), old(writeCredits), old(creditsToRefill), lpns, marks,
                    maptbl, ViewOf(maptbl, stamps), writeCredits, creditsToRefill, vs, cs, rs)
      ensures old(Striped(g, pageCounter, wpDie)) ==> Striped(g, pageCounter, wpDie)
    {
      hide Consistent, ViewOf, RunOk, StaysOne, PaysOff, Striped, Room;
      ghost var (mt0, view0, c0, r0) := (maptbl, ViewOf(maptbl, stamps), writeCredits, creditsToRefill);
      vs, cs, rs := [], [writeCredits], [creditsToRefill];
      RunStarts(maptbl, view0, c0, r0);
      assert lpns[..0] == [] && marks[..0] == [];
      for i := 0 to |lpns|
        invariant Consistent()
        invariant RunOk(mt0, view0, c0, r0, lpns[..i], marks[..i], maptbl, ViewOf(maptbl, stamps), writeCredits,
                        creditsToRefill, vs, cs, rs)
        invariant old(Striped(g, pageCounter, wpDie)) ==> Striped(g, pageCounter, wpDie)
      {
        ghost var (mt, st, view, c, r) := (maptbl, status, ViewOf(maptbl, stamps), writeCredits, creditsToRefill);
        RunKeys(mt0, view0, c0, r0, lpns[..i], marks[..i], mt, view, c, r, vs, cs, rs);
        KeysGrow(mt0.Keys, maptbl.Keys, lpns, i);
        ghost var v := WriteOne(lpns[i], marks[i]);
        RunMore(mt0, view0, c0, r0, lpns[..i], marks[..i], mt, view, c, r, vs, cs, rs, lpns[i], marks[i], st, maptbl,
                ViewOf(maptbl, stamps), writeCredits, creditsToRefill, v);
        assert lpns[..i + 1] == lpns[..i] + [lpns[i]] && marks[..i + 1] == marks[..i] + [marks[i]];
        vs, cs, rs := vs + [v], cs + [writeCredits], rs + [creditsToRefill];
      }
      assert lpns[..|lpns|] == lpns && marks[..|marks|] == marks;
    }

    /** The keys after one more write, and the room for them. */
    lemma KeysGrow(keys0: set<nat>, keys: set<nat>, lpns: seq<nat>, i: nat)
      requires i < |lpns| && keys == keys0 + Elems(lpns[..i]) && Room(keys0 + Elems(lpns))
      ensures keys + {lpns[i]} == keys0 + Elems(lpns[..i + 1]) && Room(keys + {lpns[i]})
    {
      assert lpns[..i + 1] == lpns[..i] + [lpns[i]];
      SubsetCard(keys + {lpns[i]}, keys0 + Elems(lpns));
    }
  }

  /**
   Free lines never run out: a new device takes any sequence of writes to fewer than
   (lines - 4) * pgsPerLine different logical pages, in any order and with any repetition. The host reads of every
   page what was written last; the first refill is worth a line; and the user line stays striped over the dies.
   */
  method FreshRun(geo: Geo, lpns: seq<nat>, ghost marks: seq<nat>)
    returns (f: Ftl, ghost vs: seq<int>, ghost cs: seq<int>, ghost rs: seq<int>)
    requires geo.Ok() && geo.lines >= 4 && |marks| == |lpns| && forall i :: 0 <= i < |lpns| ==> lpns[i] < geo.ttPgs
    requires |Elems(lpns)| < (geo.lines - 4) * geo.pgsPerLine
    ensures fresh(f) && f.g == geo && f.Consistent() && f.maptbl.Keys == Elems(lpns)
    ensures ViewOf(f.maptbl, f.stamps) == Overwritten(map[], lpns, marks)
    ensures |vs| == |lpns| && Pacing(cs, rs, vs) && cs[0] == rs[0] == geo.pgsPerLine
    ensures Striped(geo, f.pageCounter, f.wpDie)
  {
    hide Ftl.Ready, Ftl.Consistent, Ftl.Snap, Fresh, BookOk, ViewOf, Striped, Overwritten, Pacing, Stays, Elems;
    f := new Ftl(geo);
    f.NewIsConsistent();
    assert f.maptbl.Keys + Elems(lpns) == Elems(lpns);
    NothingRead(f.stamps);
    StartsStriped(geo, f.pageCounter);
    vs, cs, rs := f.WritePages(lpns, marks);
  }

  lemma NothingRead(stamps: Ppa -> nat)
    ensures ViewOf(map[], stamps) == map[]
  {
  }

  lemma StartsStriped(g: Geo, ctr: map<Die, nat>)
    requires g.Ok() && Die(0, 0) in ctr && forall d :: d in ctr ==> ctr[d] == 0
    ensures Striped(g, ctr, Die(0, 0))
  {
    DivUnique(0, g.pgsPerOneshot, 0, 0);
  }

  /** With enough space a line is free; `c` pages of an open line are already taken. */
  lemma PacedHasLine(g: Geo, b: Book, hole: int, c: nat)
    requires g.Ok() && BookOk(g, b, hole) && c <= 1
    requires Space(g, b) >= 2 * g.pgsPerLine + 2 - c
    ensures b.ls.free != []
  {
    hide StatusTotal, BlksCounted, LinesCounted, Census, Roles, Geo.Derived, LineNone, LineNum, LineAll;
    OpenLines(g, b, hole);
    LineCounts(g, b.status, b.ls.gc);
    LineCounts(g, b.status, b.ls.user);
  }

  /** Three free lines are enough for the largest refill. */
  lemma ThreeFreeLines(g: Geo, b: Book)
    requires g.Ok() && BookOk(g, b, -1)
    requires HasFree(g, b, b.ls.user) && HasFree(g, b, b.ls.gc) && |b.ls.free| >= 3
    ensures Space(g, b) >= 3 * g.pgsPerLine + 2
  {
    hide StatusTotal, BlksCounted, LinesCounted, Census, Roles, Geo.Derived, LineNone, LineNum, LineAll;
    OpenLines(g, b, -1);
    LineCounts(g, b.status, b.ls.gc);
    LineCounts(g, b.status, b.ls.user);
    MulLe(3, |b.ls.free|, g.pgsPerLine);
  }

  /** When collection is due a victim is queued: otherwise too many logical pages would be mapped. */
  lemma VictimExists(g: Geo, b: Book, mt: map<nat, Ppa>, rmap: map<Ppa, nat>)
    requires g.Ok() && BookOk(g, b, -1) && MapsAgree(mt, rmap, b.status, {})
    requires |b.ls.free| <= 2 && g.lines >= 4 && |mt.Keys| < (g.lines - 4) * g.pgsPerLine
    ensures b.ls.victims != {}
  {
    hide StatusTotal, BlksCounted, LinesCounted, Census, Roles, Geo.Derived, MapsAgree;
    if b.ls.victims == {} {
      NoVictimMeansFull(g, mt, rmap, b.status, b.ls);
    }
  }

  /** Everything that placing a page under the user pointer does to the values. */
  lemma PlaceUser(g: Geo, b: Book, ctr: map<Die, nat>, d: Die, at: GcPos, mt: map<nat, Ppa>, rmap: map<Ppa, nat>,
      lpn: nat)
    requires g.Ok() && BookOk(g, b, -1) && MapsAgree(mt, rmap, b.status, {}) && lpn !in mt
    requires UserLine(g, b.status, b.ls.user, ctr) && ValidDie(g, d) && d in ctr && ctr[d] < g.pgsPerBlk
    requires GcLine(g, b.status, b.ls.gc, at, false)
    ensures var q := Ppa(Blk(d, b.ls.user), ctr[d]);
            var status' := b.status[q := Valid];
            && q in b.status && b.status[q] == Free
            && MapsAgree(mt[lpn := q], rmap[q := lpn], status', {})
            && UserLine(g, status', b.ls.user, ctr[d := ctr[d] + 1])
            && GcLine(g, status', b.ls.gc, at, false)
  {
    hide StatusTotal, BlksCounted, LinesCounted, Census, Roles, Geo.Derived, MapsAgree, UserLine, GcLine;
    OpenLines(g, b, -1);
    UserPageFree(g, b.status, b.ls.user, ctr, d);
    var q := Ppa(Blk(d, b.ls.user), ctr[d]);
    PlaceAgrees(mt, rmap, b.status, {}, lpn, q);
    UserLineWrite(g, b.status, b.ls.user, ctr, d);
    GcLineKeeps(g, b.status, b.ls.gc, at, false, q, Valid);
  }

  /** Everything that dropping the old page of a logical page does to the values. */
  lemma DropUser(g: Geo, b: Book, ctr: map<Die, nat>, at: GcPos, mt: map<nat, Ppa>, rmap: map<Ppa, nat>, lpn: nat)
    requires g.Ok() && BookOk(g, b, -1) && MapsAgree(mt, rmap, b.status, {}) && lpn in mt
    requires UserLine(g, b.status, b.ls.user, ctr) && GcLine(g, b.status, b.ls.gc, at, false)
    ensures var p := mt[lpn];
            var status' := b.status[p := Invalid];
            && p in b.status && b.status[p] == Valid
            && MapsAgree(mt - {lpn}, rmap - {p}, status', {})
            && UserLine(g, status', b.ls.user, ctr)
            && GcLine(g, status', b.ls.gc, at, false)
  {
    hide StatusTotal, BlksCounted, LinesCounted, Census, Roles, Geo.Derived, UserLine, GcLine;
    var p := mt[lpn];
    UnmapAgrees(mt, rmap, b.status, lpn);
    UserLineKeeps(g, b.status, b.ls.user, ctr, p, Invalid);
    GcLineKeeps(g, b.status, b.ls.gc, at, false, p, Invalid);
  }

  /** The start of a collection: with one free line the collector has room for the whole victim. */
  lemma StartCollecting(g: Geo, b: Book, mt: map<nat, Ppa>, v: nat, at: GcPos)
    requires g.Ok() && BookOk(g, b, -1) && v in b.ls.victims && b.ls.free != []
    requires ValidGcPos(g, at) && GcLine(g, b.status, b.ls.gc, at, false)
    ensures v < g.lines == |b.vpc|
    ensures Unvisited(g, b.status, v, {})
    ensures Relocated(mt, b.status, mt, b.status, v, {})
    ensures Space(g, b.(ls := b.ls.(victims := b.ls.victims - {v}))) == Space(g, b)
    ensures Todo(g, b.status, v, {}) == b.vpc[v] && Todo(g, b.status, v, LinePages(g, v)) == 0
    ensures Space(g, b) - b.vpc[v] > LineNum(g, b.status, b.ls.user, Free)
  {
    hide StatusTotal, BlksCounted, LinesCounted, Census, Roles, Geo.Derived, GcLine, Todo;
    SelectGuards(g, b, v);
    OpenLines(g, b, -1);
    TodoAll(g, b.status, v);
    MulLe(1, |b.ls.free|, g.pgsPerLine);
    assert LineNone(g, b.status, v, Free);
  }

  /** Everything that copying one page does to the values, up to the step of the pointer. */
  lemma GcMove(g: Geo, b: Book, at: GcPos, ctr: map<Die, nat>, mt: map<nat, Ppa>, rmap: map<Ppa, nat>, v: nat,
               moved: set<Ppa>, p: Ppa, mt0: map<nat, Ppa>, status0: map<Ppa, PageStatus>)
    requires g.Ok() && BookOk(g, b, v) && ValidGcPos(g, at)
    requires GcLine(g, b.status, b.ls.gc, at, false) && UserLine(g, b.status, b.ls.user, ctr)
    requires MapsAgree(mt, rmap, b.status, moved) && Unvisited(g, b.status, v, moved)
    requires Relocated(mt0, status0, mt, b.status, v, moved)
    requires p in LinePages(g, v) && p !in moved && p in b.status && b.status[p] == Valid && p in rmap
    ensures var q := PageAt(at, b.ls.gc);
            var status' := b.status[q := Valid];
            && q in b.status && b.status[q] == Free && q.blk.line != v
            && MapsAgree(mt[rmap[p] := q], rmap[q := rmap[p]], status', moved + {p})
            && GcLine(g, status', b.ls.gc, at, true) && UserLine(g, status', b.ls.user, ctr)
            && Unvisited(g, status', v, moved + {p})
            && Relocated(mt0, status0, mt[rmap[p] := q], status', v, moved + {p})
            && Todo(g, status', v, moved + {p}) == Todo(g, b.status, v, moved) - 1
            && LineNum(g, status', b.ls.user, Free) == LineNum(g, b.status, b.ls.user, Free)
  {
    hide StatusTotal, BlksCounted, LinesCounted, Census, Roles, Geo.Derived, GcLine, UserLine, MapsAgree, Relocated,
         Todo;
    var q := PageAt(at, b.ls.gc);
    var status' := b.status[q := Valid];
    OpenLines(g, b, v);
    GcPageFree(g, b.status, b.ls.gc, at);
    LiftAgrees(mt, rmap, b.status, moved, p);
    PlaceAgrees(mt - {rmap[p]}, rmap, b.status, moved + {p}, rmap[p], q);
    assert (mt - {rmap[p]})[rmap[p] := q] == mt[rmap[p] := q];
    GcLineWrite(g, b.status, b.ls.gc, at);
    UserLineKeeps(g, b.status, b.ls.user, ctr, q, Valid);
    MoveRelocates(mt0, status0, mt, rmap, b.status, v, moved, p, q);
    TodoVisit(g, b.status, v, moved, p);
    TodoSame(g, b.status, status', v, moved + {p});
    NumSame(LinePages(g, b.ls.user), b.status, status', Free);
  }

  /** A copy of a page does not change what the host reads. */
  lemma CopyShows(mt: map<nat, Ppa>, rmap: map<Ppa, nat>, status: map<Ppa, PageStatus>, moved: set<Ppa>,
                  stamps: Ppa -> nat, p: Ppa, q: Ppa)
    requires MapsAgree(mt, rmap, status, moved)
    requires p in status && p !in moved && status[p] == Valid && q in status && status[q] == Free
    ensures p in rmap && ViewOf(mt[rmap[p] := q], Stamped(stamps, q, stamps(p))) == ViewOf(mt, stamps)
  {
    assert mt[rmap[p]] == p;
  }

  lemma CopyKeys(mt: map<nat, Ppa>, rmap: map<Ppa, nat>, status: map<Ppa, PageStatus>, moved: set<Ppa>, p: Ppa, q: Ppa,
                 n: nat)
    requires MapsAgree(mt, rmap, status, moved) && KeysBelow(mt, n)
    requires p in status && p !in moved && status[p] == Valid
    ensures p in rmap && rmap[p] < n && KeysBelow(mt[rmap[p] := q], n)
  {
  }

  lemma PutBack(mt: map<nat, Ppa>, lpn: nat, q: Ppa, n: nat)
    requires KeysBelow(mt, n) && lpn < n
    ensures mt[lpn := q] == (mt - {lpn})[lpn := q] && KeysBelow(mt[lpn := q], n)
  {
  }

  /** A write changes what the host reads of one logical page. */
  lemma WriteShows(mt: map<nat, Ppa>, rmap: map<Ppa, nat>, status: map<Ppa, PageStatus>, stamps: Ppa -> nat,
                   lpn: nat, q: Ppa, stamp: nat)
    requires MapsAgree(mt, rmap, status, {}) && q in status && status[q] == Free
    ensures ViewOf(mt[lpn := q], Stamped(stamps, q, stamp)) == ViewOf(mt, stamps)[lpn := stamp]
  {
  }

  /** Everything that erasing a block does to the values. */
  lemma BlkFree(g: Geo, b: Book, at: GcPos, ctr: map<Die, nat>, mt: map<nat, Ppa>, rmap: map<Ppa, nat>,
                moved: set<Ppa>, mt0: map<nat, Ppa>, status0: map<Ppa, PageStatus>, e: Blk)
    requires g.Ok() && BookOk(g, b, e.line) && ValidBlk(g, e)
    requires GcLine(g, b.status, b.ls.gc, at, false) && UserLine(g, b.status, b.ls.user, ctr)
    requires MapsAgree(mt, rmap, b.status, moved) && Unvisited(g, b.status, e.line, moved)
    requires Relocated(mt0, status0, mt, b.status, e.line, moved)
    requires BlkPages(g, e) <= moved
    ensures BookOk(g, BlkFreed(g, b, e), e.line) && Space(g, BlkFreed(g, b, e)) == Space(g, b)
    ensures var status' := Erased(b.status, BlkPages(g, e));
            && MapsAgree(mt, rmap, status', moved)
            && GcLine(g, status', b.ls.gc, at, false) && UserLine(g, status', b.ls.user, ctr)
            && Unvisited(g, status', e.line, moved)
            && Relocated(mt0, status0, mt, status', e.line, moved)
            && Todo(g, status', e.line, moved) == Todo(g, b.status, e.line, moved)
            && LineNum(g, status', b.ls.user, Free) == LineNum(g, b.status, b.ls.user, Free)
  {
    hide StatusTotal, BlksCounted, LinesCounted, Census, Roles, Geo.Derived, GcLine, UserLine, MapsAgree, Relocated,
         Todo, Space;
    OpenLines(g, b, e.line);
    BlkFreedKeeps(g, b, e);
    EraseAgrees(mt, rmap, b.status, moved, BlkPages(g, e));
    GcLineErase(g, b.status, b.ls.gc, at, false, e);
    UserLineErase(g, b.status, b.ls.user, ctr, e);
    EraseRelocates(g, mt0, status0, mt, b.status, e.line, moved, e);
    TodoSame(g, b.status, Erased(b.status, BlkPages(g, e)), e.line, moved);
    NumSame(LinePages(g, b.ls.user), b.status, Erased(b.status, BlkPages(g, e)), Free);
  }
}
