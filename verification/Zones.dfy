/**
 Zones of a zoned namespace as values: the zone state machine, the counts of open and active zones,
 and the commands accepted by a zone since its last reset.
 */
module Zones {
  import opened Arithmetic
  import opened Geometry
  import opened Sequences

  datatype ZoneState = Empty | OpenedImpl | OpenedExpl | Closed | ReadOnly | Full | Offline

  datatype Zone = Zone(state: ZoneState, zslba: nat, wp: nat, cap: nat)

  datatype Status =
    | Success
    | InvalidTransition
    | InvalidZoneOperation
    | NoActiveZone
    | NoOpenZone
    | InvalidWrite
    | ErrBoundary
    | ErrOffline

  datatype Action = CloseZone | FinishZone | OpenZone | ResetZone | OfflineZone | FlushZrwa

  predicate IsOpen(s: ZoneState) { s == OpenedImpl || s == OpenedExpl }
  predicate IsActive(s: ZoneState) { IsOpen(s) || s == Closed }

  // ----- The state machine -----

  /** The transitions of the Zone State Machine that the host can ask for. */
  function Target(a: Action, s: ZoneState): (r: (ZoneState, Status))
    ensures r.1 != Success ==> r.0 == s
  {
    match a
    case CloseZone => if IsActive(s) then (Closed, Success) else (s, InvalidTransition)
    case FinishZone => if s == ReadOnly || s == Offline then (s, InvalidTransition) else (Full, Success)
    case OpenZone => if s == Empty || IsActive(s) then (OpenedExpl, Success) else (s, InvalidTransition)
    case ResetZone => if s == ReadOnly || s == Offline then (s, InvalidTransition) else (Empty, Success)
    case OfflineZone => if s == ReadOnly || s == Offline then (Offline, Success) else (s, InvalidTransition)
    case FlushZrwa => (s, InvalidZoneOperation)
  }

  /** A zone after a management command that finds the resources it needs. */
  function Managed(a: Action, z: Zone): Zone
  {
    var (s, status) := Target(a, z.state);
    z.(state := s, wp := if a == ResetZone && status == Success then z.zslba else z.wp)
  }

  /** The answer to a management command: opening a zone may lack a resource. */
  function Answer(a: Action, s: ZoneState, activeFull: bool, openFull: bool): Status
  {
    if a == OpenZone && s == Empty && activeFull then NoActiveZone
    else if a == OpenZone && (s == Empty || s == Closed) && openFull then NoOpenZone
    else Target(a, s).1
  }

  // ----- Counting -----

  function OpenBit(s: ZoneState): nat { if IsOpen(s) then 1 else 0 }
  function ActiveBit(s: ZoneState): nat { if IsActive(s) then 1 else 0 }

  ghost function Opens(zs: seq<Zone>): (w: seq<nat>)
    ensures |w| == |zs| && forall i :: 0 <= i < |zs| ==> w[i] == OpenBit(zs[i].state)
  {
    seq(|zs|, i requires 0 <= i < |zs| => OpenBit(zs[i].state))
  }

  ghost function Actives(zs: seq<Zone>): (w: seq<nat>)
    ensures |w| == |zs| && forall i :: 0 <= i < |zs| ==> w[i] == ActiveBit(zs[i].state)
  {
    seq(|zs|, i requires 0 <= i < |zs| => ActiveBit(zs[i].state))
  }

  /** A sum of bits is at most their number, and less when one of them is 0. */
  lemma {:induction false} BitSum(w: seq<nat>, k: nat)
    requires forall i :: 0 <= i < |w| ==> w[i] <= 1
    ensures Sum(w) <= |w|
    ensures k < |w| && w[k] == 0 ==> Sum(w) < |w|
    ensures k < |w| && w[k] == 1 ==> Sum(w) > 0
  {
    if w != [] {
      BitSum(w[1..], if k > 0 then k - 1 else 0);
    }
  }

  lemma {:induction false} BitSumLe(v: seq<nat>, w: seq<nat>)
    requires |v| == |w| && forall i :: 0 <= i < |w| ==> v[i] <= w[i]
    ensures Sum(v) <= Sum(w)
  {
    if w != [] {
      BitSumLe(v[1..], w[1..]);
    }
  }

  /** Zone `i` of zones of `lbas` blocks. */
  ghost predicate ZoneOk(z: Zone, i: nat, lbas: nat)
  {
    && z.zslba == i * lbas && z.cap == lbas
    && z.zslba <= z.wp <= z.zslba + z.cap
    && (z.state == Empty ==> z.wp == z.zslba)
    && (IsActive(z.state) ==> z.wp < z.zslba + z.cap)
  }

  /** Every zone is in order, and the two counters are the numbers of open and of open or closed zones. */
  ghost predicate ZonesOk(zs: seq<Zone>, lbas: nat, open: int, active: int)
  {
    && (forall i :: 0 <= i < |zs| ==> ZoneOk(zs[i], i, lbas))
    && open == Sum(Opens(zs)) && active == Sum(Actives(zs))
  }

  lemma ChangeZone(zs: seq<Zone>, lbas: nat, open: int, active: int, i: nat, z: Zone)
    requires ZonesOk(zs, lbas, open, active) && i < |zs| && ZoneOk(z, i, lbas)
    ensures ZonesOk(zs[i := z], lbas, open - OpenBit(zs[i].state) + OpenBit(z.state),
        active - ActiveBit(zs[i].state) + ActiveBit(z.state))
  {
    SumUpdate(Opens(zs), i, OpenBit(z.state));
    SumUpdate(Actives(zs), i, ActiveBit(z.state));
    assert Opens(zs[i := z]) == Opens(zs)[i := OpenBit(z.state)];
    assert Actives(zs[i := z]) == Actives(zs)[i := ActiveBit(z.state)];
  }

  /** Neither counter can go below zero, and neither limit is met when there are as many as zones. */
  lemma Counted(zs: seq<Zone>, lbas: nat, open: int, active: int, i: nat)
    requires ZonesOk(zs, lbas, open, active) && i < |zs|
    ensures 0 <= open <= active <= |zs|
    ensures IsOpen(zs[i].state) ==> open > 0
    ensures IsActive(zs[i].state) ==> active > 0
    ensures !IsActive(zs[i].state) ==> active < |zs|
    ensures !IsOpen(zs[i].state) ==> open < |zs|
  {
    BitSum(Opens(zs), i);
    BitSum(Actives(zs), i);
    BitSumLe(Opens(zs), Actives(zs));
  }

  lemma ManagedOk(a: Action, z: Zone, i: nat, lbas: nat)
    requires ZoneOk(z, i, lbas) && lbas > 0
    ensures ZoneOk(Managed(a, z), i, lbas)
  {
  }

  // ----- Writes -----

  /**
   The answer to a write of `nr` blocks at `slba` to a zone `z`, in the order of the checks. A zone
   that is full or read-only gets the answer of an offline one.
   */
  function Verdict(z: Zone, slba: nat, nr: nat, lbas: nat, unit: nat, activeFull: bool, openFull: bool): Status
    requires lbas > 0 && unit > 0 && nr > 0
  {
    if nr * SECSZ % unit != 0 then InvalidWrite
    else if slba / lbas != (slba + nr - 1) / lbas then ErrBoundary
    else if slba != z.wp then InvalidWrite
    else match z.state
    case Empty =>
      if slba != z.zslba then InvalidWrite
      else if activeFull then NoActiveZone
      else if openFull then NoOpenZone
      else Success
    case Closed => if openFull then NoOpenZone else Success
    case OpenedImpl | OpenedExpl => Success
    case Full | ReadOnly | Offline => ErrOffline
  }

  /** What is accepted: whole units that start at the write pointer, fit in the zone, and find a zone
      that can be written and the resources for it. */
  lemma AcceptedIff(z: Zone, i: nat, slba: nat, nr: nat, lbas: nat, unit: nat, activeFull: bool, openFull: bool)
    requires ZoneOk(z, i, lbas) && lbas > 0 && unit > 0 && nr > 0
    ensures Verdict(z, slba, nr, lbas, unit, activeFull, openFull) == Success <==>
            && nr * SECSZ % unit == 0 && slba == z.wp && z.wp + nr <= z.zslba + z.cap
            && (z.state == Empty || IsActive(z.state))
            && (z.state == Empty ==> !activeFull)
            && (z.state == Empty || z.state == Closed ==> !openFull)
  {
    if slba == z.wp && (z.state == Empty || IsActive(z.state)) {
      assert i * lbas <= z.wp < i * lbas + lbas;
      DivUnique(slba, lbas, i, slba - i * lbas);
      if z.wp + nr <= z.zslba + z.cap {
        DivUnique(slba + nr - 1, lbas, i, slba + nr - 1 - i * lbas);
      }
    }
  }

  /** A zone after an accepted write of `nr` blocks. */
  function Written(z: Zone, nr: nat): Zone
  {
    z.(wp := z.wp + nr,
       state := if z.wp + nr == z.zslba + z.cap then Full else if IsOpen(z.state) then z.state else OpenedImpl)
  }

  /** A zone starts at block `b`. */
  ghost predicate Starts(b: nat, lbas: nat)
    requires lbas > 0
  {
    b % lbas == 0
  }

  /** Why a write is refused, in terms of the zone and the command. */
  lemma RefusedIff(z: Zone, i: nat, slba: nat, nr: nat, lbas: nat, unit: nat, activeFull: bool, openFull: bool)
    requires ZoneOk(z, i, lbas) && lbas > 0 && unit > 0 && nr > 0
    ensures var v := Verdict(z, slba, nr, lbas, unit, activeFull, openFull);
            var whole := nr * SECSZ % unit == 0;
            var crosses := exists b :: slba < b < slba + nr && Starts(b, lbas);
            && (v == ErrBoundary <==> whole && crosses)
            && (v == InvalidWrite <==> !whole || (!crosses && slba != z.wp))
            && (v == ErrOffline <==> whole && !crosses && slba == z.wp && z.state != Empty && !IsActive(z.state))
            && (v == NoActiveZone <==> whole && !crosses && slba == z.wp && z.state == Empty && activeFull)
            && (v == NoOpenZone <==>
                whole && !crosses && slba == z.wp && openFull
                    && (z.state == Closed || (z.state == Empty && !activeFull)))
  {
    CrossesIff(slba, nr, lbas);
  }

  lemma CrossesIff(slba: nat, nr: nat, lbas: nat)
    requires lbas > 0 && nr > 0
    ensures slba / lbas != (slba + nr - 1) / lbas <==> exists b :: slba < b < slba + nr && Starts(b, lbas)
  {
    var (p, q) := (slba / lbas, (slba + nr - 1) / lbas);
    DivMono(slba, slba + nr - 1, lbas);
    if p != q {
      var b := (p + 1) * lbas;
      MulLe(p + 1, q, lbas);
      MulStep(p + 1, lbas);
      DivUnique(b, lbas, p + 1, 0);
      assert Starts(b, lbas);
    } else {
      forall b | slba < b < slba + nr
        ensures !Starts(b, lbas)
      {
        NoStart(slba, b, lbas);
        DivMono(b, slba + nr - 1, lbas);
      }
    }
  }

  lemma NoStart(a: nat, b: nat, lbas: nat)
    requires lbas > 0 && a < b
    ensures Starts(b, lbas) ==> a / lbas < b / lbas
  {
    if Starts(b, lbas) {
      var q := b / lbas;
      assert b == q * lbas;
      MulStep(q, lbas);
      DivUnique(b - 1, lbas, q - 1, lbas - 1);
      DivMono(a, b - 1, lbas);
    }
  }

  // ----- Histories -----

  /** What was done to a zone: a management action, or a write of a number of blocks. */
  datatype Event = Act(a: Action) | Wrote(nr: nat)

  /** The zone accepts the event. */
  predicate Accepts(z: Zone, e: Event)
  {
    match e
    case Act(a) => Target(a, z.state).1 == Success
    case Wrote(nr) => nr > 0 && (z.state == Empty || IsActive(z.state)) && z.wp + nr <= z.zslba + z.cap
  }

  function Effect(z: Zone, e: Event): Zone
  {
    match e
    case Act(a) => Managed(a, z)
    case Wrote(nr) => Written(z, nr)
  }

  /** The zone after events `h`. */
  function After(first: Zone, h: seq<Event>): Zone
  {
    if h == [] then first else Effect(After(first, h[..|h| - 1]), h[|h| - 1])
  }

  /** Each of the events `h` was accepted. */
  ghost predicate AllAccepted(first: Zone, h: seq<Event>)
  {
    h == [] || (AllAccepted(first, h[..|h| - 1]) && Accepts(After(first, h[..|h| - 1]), h[|h| - 1]))
  }

  /** The zone was asked to open, and since then nothing but writes came. */
  ghost predicate Asked(h: seq<Event>)
  {
    exists i :: 0 <= i < |h| && h[i] == Act(OpenZone) && forall j :: i < j < |h| ==> h[j].Wrote?
  }

  /** The blocks written since the last reset. */
  ghost function Blocks(h: seq<Event>): nat
  {
    if h == [] || h[|h| - 1] == Act(ResetZone) then 0
    else Blocks(h[..|h| - 1]) + (if h[|h| - 1].Wrote? then h[|h| - 1].nr else 0)
  }

  lemma AskedStep(h: seq<Event>, e: Event)
    ensures Asked(h + [e]) <==> e == Act(OpenZone) || (e.Wrote? && Asked(h))
  {
    var h' := h + [e];
    if e == Act(OpenZone) {
      assert h'[|h|] == Act(OpenZone);
    } else if e.Wrote? && Asked(h) {
      var i :| 0 <= i < |h| && h[i] == Act(OpenZone) && forall j :: i < j < |h| ==> h[j].Wrote?;
      assert h'[i] == Act(OpenZone);
    } else if Asked(h') {
      var i :| 0 <= i < |h'| && h'[i] == Act(OpenZone) && forall j :: i < j < |h'| ==> h'[j].Wrote?;
      assert h'[|h|] == e;
      assert h[i] == Act(OpenZone);
      forall j | i < j < |h|
        ensures h[j].Wrote?
      {
        assert h'[j] == h[j];
      }
    }
  }

  /**
   The state of a zone follows from the last thing done to it: it is closed by closing it, empty when nothing was done
   since a reset, full when finished or written to its end, opened explicitly when asked to be and only written
   since, opened implicitly by any other write. Its write pointer is past the blocks written since the last reset.
   */
  lemma {:induction false} StateIff(first: Zone, h: seq<Event>)
    requires AllAccepted(first, h) && first.state == Empty && first.wp == first.zslba && first.cap > 0
    ensures var z := After(first, h);
            && z.zslba == first.zslba && z.cap == first.cap && z.wp == z.zslba + Blocks(h) <= z.zslba + z.cap
            && (z.state == Empty <==> h == [] || h[|h| - 1] == Act(ResetZone))
            && (z.state == Closed <==> h != [] && h[|h| - 1] == Act(CloseZone))
            && (z.state == OpenedExpl <==> Asked(h) && Blocks(h) < z.cap)
            && (z.state == OpenedImpl <==> h != [] && h[|h| - 1].Wrote? && !Asked(h) && Blocks(h) < z.cap)
            && (z.state == Full <==>
                h != [] && (h[|h| - 1] == Act(FinishZone) || (h[|h| - 1].Wrote? && Blocks(h) == z.cap)))
            && (IsActive(z.state) ==> Blocks(h) < z.cap)
    decreases |h|
  {
    hide Asked;
    if h != [] {
      var (g, e) := (h[..|h| - 1], h[|h| - 1]);
      StateIff(first, g);
      assert h == g + [e];
      AskedStep(g, e);
    } else {
      NotAsked();
    }
  }

  lemma NotAsked()
    ensures !Asked([])
  {
  }

  // ----- Tiles -----

  /** The commands `t`, each a start and a length, follow one another from `from` to `to`. */
  ghost predicate Tiled(t: seq<(nat, nat)>, from: nat, to: nat)
    decreases |t|
  {
    if t == [] then from == to
    else
      var (s, n) := t[|t| - 1];
      n > 0 && s + n == to && Tiled(t[..|t| - 1], from, s)
  }

  lemma TileOn(t: seq<(nat, nat)>, from: nat, to: nat, n: nat)
    requires Tiled(t, from, to) && n > 0
    ensures Tiled(t + [(to, n)], from, to + n)
  {
    assert (t + [(to, n)])[..|t|] == t;
  }

  /** Every block below the write pointer belongs to exactly one command, and no other block does. */
  lemma {:induction false} TiledOnce(t: seq<(nat, nat)>, from: nat, to: nat, x: nat)
    requires Tiled(t, from, to)
    ensures from <= to
    ensures from <= x < to <==> exists k :: 0 <= k < |t| && t[k].0 <= x < t[k].0 + t[k].1
    ensures forall k, l :: 0 <= k < l < |t| ==> t[k].0 + t[k].1 <= t[l].0
    decreases |t|
  {
    if t != [] {
      var n := |t| - 1;
      TiledOnce(t[..n], from, t[n].0, x);
      TilesBelow(t[..n], from, t[n].0);
      if from <= x < t[n].0 {
        var k :| 0 <= k < n && t[..n][k].0 <= x < t[..n][k].0 + t[..n][k].1;
        assert t[k].0 <= x < t[k].0 + t[k].1;
      } else if from <= x < to {
        assert t[n].0 <= x < t[n].0 + t[n].1;
      } else {
        forall k | 0 <= k < |t|
          ensures !(t[k].0 <= x < t[k].0 + t[k].1)
        {
          if k < n {
            assert t[..n][k] == t[k];
          }
        }
      }
      forall k, l | 0 <= k < l < |t|
        ensures t[k].0 + t[k].1 <= t[l].0
      {
        assert t[..n][k] == t[k];
        assert l < n ==> t[..n][l] == t[l];
      }
    }
  }

  lemma {:induction false} TilesBelow(t: seq<(nat, nat)>, from: nat, to: nat)
    requires Tiled(t, from, to)
    ensures from <= to
    ensures forall k :: 0 <= k < |t| ==> from <= t[k].0 && t[k].0 + t[k].1 <= to
    decreases |t|
  {
    if t != [] {
      var n := |t| - 1;
      TilesBelow(t[..n], from, t[n].0);
      forall k | 0 <= k < |t|
        ensures from <= t[k].0 && t[k].0 + t[k].1 <= to
      {
        assert k < n ==> t[..n][k] == t[k];
      }
    }
  }

  // ----- The write buffer of a zone -----

  /** Bytes held by the unfinished word line when `off` of the `pgs` pages of a zone are written;
      the end of the zone finishes a word line. */
  ghost function Held(off: nat, pgs: nat, os: nat): nat
    requires os > 0
  {
    if off == pgs then 0 else PGSZ * (off % os)
  }

  /** Writing `k` more pages, up to the end of a word line at most. */
  lemma HeldStep(off: nat, pgs: nat, os: nat, k: nat)
    requires os > 0 && k > 0 && off + k <= pgs && off % os + k <= os
    ensures Held(off, pgs, os) + PGSZ * k == Held(off + k, pgs, os) +
            if off + k == pgs && pgs % os > 0 then PGSZ * (pgs % os) else if off % os + k == os then PGSZ * os else 0
    ensures off + k == pgs && off % os + k != os ==> pgs % os > 0
  {
    var (q, r) := (off / os, off % os);
    assert off + k == q * os + (r + k);
    if r + k == os {
      assert off + k == (q + 1) * os;
      DivUnique(off + k, os, q + 1, 0);
    } else {
      DivUnique(off + k, os, q, r + k);
    }
  }

  lemma ScaledMod(a: nat, n: nat)
    requires n > 0
    ensures (a * PGSZ) % (n * PGSZ) == PGSZ * (a % n)
  {
    var (q, r) := (a / n, a % n);
    assert a == q * n + r;
    assert a * PGSZ == q * (n * PGSZ) + r * PGSZ;
    DivUnique(a * PGSZ, n * PGSZ, q, r * PGSZ);
  }

  /** Bytes in the unfinished word line when `off` of the `cap` blocks of a zone are written. */
  ghost function HeldBytes(off: nat, cap: nat, os: nat): nat
    requires os > 0
  {
    if off == cap then 0 else Held(off / SECS_PER_PG, cap / SECS_PER_PG, os) + SECSZ * (off % SECS_PER_PG)
  }

  /** A command that ends at block `end` of a zone ends inside the last page of a word line: it makes the
      word line be released before it is complete, and the next command makes it be released again. */
  predicate EndsEarly(end: nat, cap: nat, os: nat)
    requires os > 0
  {
    end % SECS_PER_PG != 0 && ((end / SECS_PER_PG + 1) % os == 0 || end / SECS_PER_PG + 1 == cap / SECS_PER_PG)
  }

  /** What such a command brings in. */
  function Early(end: nat, cap: nat, os: nat): (r: nat)
    requires os > 0
    ensures r > 0 <==> EndsEarly(end, cap, os)
  {
    if !EndsEarly(end, cap, os) then 0
    else if end / SECS_PER_PG + 1 == cap / SECS_PER_PG && (cap / SECS_PER_PG) % os > 0
        then PGSZ * ((cap / SECS_PER_PG) % os)
    else PGSZ * os
  }

  ghost function AllEarly(ends: seq<nat>, cap: nat, os: nat): nat
    requires os > 0
  {
    if ends == [] then 0 else AllEarly(ends[..|ends| - 1], cap, os) + Early(ends[|ends| - 1], cap, os)
  }

  lemma AllEarlyAppend(ends: seq<nat>, end: nat, cap: nat, os: nat)
    requires os > 0
    ensures AllEarly(ends + [end], cap, os) == AllEarly(ends, cap, os) + Early(end, cap, os)
  {
    assert (ends + [end])[..|ends|] == ends;
  }

  lemma {:induction false} NoneEarly(ends: seq<nat>, cap: nat, os: nat)
    requires os > 0
    ensures AllEarly(ends, cap, os) == 0 <==> forall k :: 0 <= k < |ends| ==> !EndsEarly(ends[k], cap, os)
  {
    if ends != [] {
      NoneEarly(ends[..|ends| - 1], cap, os);
      assert ends == ends[..|ends| - 1] + [ends[|ends| - 1]];
    }
  }

  /** The last page of a command that ends inside a page. */
  lemma EarlyIsStep(end: nat, cap: nat, os: nat)
    requires os > 0 && end < cap && cap % SECS_PER_PG == 0 && end % SECS_PER_PG != 0
    ensures var (pg, pgs) := (end / SECS_PER_PG, cap / SECS_PER_PG);
            Held(pg, pgs, os) + PGSZ == Held(pg + 1, pgs, os) + Early(end, cap, os)
  {
    var (pg, pgs) := (end / SECS_PER_PG, cap / SECS_PER_PG);
    NextInRow(pg, os);
    HeldStep(pg, pgs, os, 1);
  }

  /**
   A write of `nr` blocks from block `off` on. The pages it touches are `off / 8 ..`, and by them releases
   are counted: they are off by what an early end brings in.
   */
  lemma WriteHeld(off: nat, nr: nat, cap: nat, os: nat)
    requires os > 0 && nr > 0 && off + nr <= cap && cap % SECS_PER_PG == 0
    ensures var (from, to, pgs) := (off / SECS_PER_PG, (off + nr - 1) / SECS_PER_PG, cap / SECS_PER_PG);
            && from <= to < pgs
            && Held(from, pgs, os) + PGSZ * (to + 1 - from) - Held(to + 1, pgs, os) ==
               SECSZ * nr + HeldBytes(off, cap, os) - HeldBytes(off + nr, cap, os) + Early(off + nr, cap, os)
  {
    hide Held, HeldBytes;
    var end := off + nr;
    PageSplit(off, nr);
    HeldParts(off, cap, os);
    HeldParts(end, cap, os);
    if end % SECS_PER_PG != 0 {
      EarlyIsStep(end, cap, os);
    }
  }

  lemma PageSplit(off: nat, nr: nat)
    requires nr > 0
    ensures var (to, end) := ((off + nr - 1) / SECS_PER_PG, off + nr);
            && off / SECS_PER_PG <= to
            && end / SECS_PER_PG == if end % SECS_PER_PG == 0 then to + 1 else to
  {
  }

  lemma HeldParts(off: nat, cap: nat, os: nat)
    requires os > 0 && off <= cap && cap % SECS_PER_PG == 0
    ensures HeldBytes(off, cap, os) ==
            Held(off / SECS_PER_PG, cap / SECS_PER_PG, os) + SECSZ * (off % SECS_PER_PG)
  {
  }

  /**
   The commands accepted since the last reset follow one another up to the write pointer. And what is left
   of the buffer of the zone, what the scheduled releases and the unfinished word line hold, and what has
   leaked make up the buffer, but for what commands that ended early have brought in.
   */
  ghost predicate Kept(z: Zone, tiles: seq<(nat, nat)>, level: nat, pending: seq<nat>, leaked: nat, ends: seq<nat>,
                       size: nat, os: nat)
    requires os > 0
  {
    && z.wp >= z.zslba && Tiled(tiles, z.zslba, z.wp)
    && level + Sum(pending) + HeldBytes(z.wp - z.zslba, z.cap, os) + leaked == size + AllEarly(ends, z.cap, os)
  }
}
