/**
 The zoned namespace: zone management commands, writes and appends, with the counts of open and
 active zones and the write buffer of each zone. Zone random write areas are not used.
 */
module Zns {
  import opened Arithmetic
  import opened Sequences
  import opened Geometry
  import opened Zones

  datatype Outcome = Retry | Done(status: Status)

  class ZnsFtl {
    const lbas: nat                // blocks of a zone
    const unit: nat                // write unit in bytes
    const os: nat                  // pages of a word line
    const wbSize: nat              // bytes of the write buffer of a zone
    const maxOpen: nat
    const maxActive: nat
    var zones: seq<Zone>
    var open: int
    var active: int
    var level: seq<nat>            // bytes left in each write buffer
    var pending: seq<seq<nat>>     // releases scheduled for each buffer
    ghost var leaked: seq<nat>               // bytes never to be released
    ghost var ends: seq<seq<nat>>            // where in its zone each accepted command ended
    ghost var tiles: seq<seq<(nat, nat)>>    // commands accepted since the last reset

    ghost predicate Shape()
      reads this
    {
      && lbas > 0 && lbas % SECS_PER_PG == 0 && unit > 0 && os > 0
      && |level| == |pending| == |leaked| == |ends| == |tiles| == |zones|
    }

    ghost predicate Valid()
      reads this
    {
      && Shape()
      && ZonesOk(zones, lbas, open, active) && open <= maxOpen && active <= maxActive
      && (forall i :: 0 <= i < |zones| ==>
            Kept(zones[i], tiles[i], level[i], pending[i], leaked[i], ends[i], wbSize, os))
    }

    constructor (n: nat, lbas: nat, unit: nat, os: nat, wb: nat)
      requires lbas > 0 && lbas % SECS_PER_PG == 0 && unit > 0 && os > 0
      ensures Valid() && |zones| == n == maxOpen == maxActive && this.lbas == lbas
      ensures open == active == 0
      ensures forall i :: 0 <= i < n ==> zones[i] == Zone(Empty, i * lbas, i * lbas, lbas)
      ensures forall i :: 0 <= i < n ==>
                level[i] == wb && leaked[i] == 0 && pending[i] == [] && tiles[i] == [] && ends[i] == []
      ensures this.unit == unit && this.os == os && wbSize == wb
    {
      hide Sum, Kept;
      this.lbas, this.unit, this.os, wbSize, maxOpen, maxActive := lbas, unit, os, wb, n, n;
      open, active := 0, 0;
      level := seq(n, _ => wb);
      pending, leaked, ends, tiles := seq(n, _ => []), seq(n, _ => 0), seq(n, _ => []), seq(n, _ => []);
      var zs: seq<Zone> := [];
      var zslba: nat := 0;
      for i := 0 to n
        invariant |zs| == i && zslba == i * lbas
        invariant forall k :: 0 <= k < i ==> zs[k] == Zone(Empty, k * lbas, k * lbas, lbas)
      {
        zs := zs + [Zone(Empty, zslba, zslba, lbas)];
        zslba := zslba + lbas;
      }
      zones := zs;
      new;
      SumZero(Opens(zones));
      SumZero(Actives(zones));
      forall i | 0 <= i < n
        ensures Kept(zones[i], tiles[i], level[i], pending[i], leaked[i], ends[i], wbSize, os)
      {
        NewBuffer(zones[i], wb, os);
      }
    }

    static lemma NewBuffer(z: Zone, wb: nat, os: nat)
      requires os > 0 && z.wp == z.zslba
      ensures Kept(z, [], wb, [], 0, [], wb, os)
    {
      DivUnique(0, os, 0, 0);
    }

    static lemma SameKept(z: Zone, s: ZoneState, t: seq<(nat, nat)>, level: nat, pending: seq<nat>, leaked: nat,
                          ends: seq<nat>, size: nat, os: nat)
      requires os > 0 && Kept(z, t, level, pending, leaked, ends, size, os)
      ensures Kept(z.(state := s), t, level, pending, leaked, ends, size, os)
    {
    }

    predicate ActiveFull() reads this { active == maxActive }
    predicate OpenFull() reads this { open == maxOpen }

    /** Takes one open zone out of the limit, if there is one left. */
    method AcquireOpen() returns (ok: bool)
      modifies this`open
      ensures ok == (old(open) < maxOpen) && open == old(open) + if ok then 1 else 0
    {
      ok := open < maxOpen;
      if ok {
        open := open + 1;
      }
    }

    method AcquireActive() returns (ok: bool)
      modifies this`active
      ensures ok == (old(active) < maxActive) && active == old(active) + if ok then 1 else 0
    {
      ok := active < maxActive;
      if ok {
        active := active + 1;
      }
    }

    method ReleaseOpen()
      requires open > 0
      modifies this`open
      ensures open == old(open) - 1
    {
      open := open - 1;
    }

    method ReleaseActive()
      requires active > 0
      modifies this`active
      ensures active == old(active) - 1
    {
      active := active - 1;
    }

    method ChangeState(zid: nat, s: ZoneState)
      requires zid < |zones|
      modifies this`zones
      ensures zones == old(zones)[zid := old(zones[zid]).(state := s)]
    {
      zones := zones[zid := zones[zid].(state := s)];
    }

    /** What a management command other than a reset needs to know. */
    lemma Prepare(a: Action, zid: nat)
      requires Valid() && zid < |zones| && a != ResetZone
      ensures var (z, z') := (zones[zid], Managed(a, zones[zid]));
              && z' == z.(state := Target(a, z.state).0)
              && ZonesOk(zones[zid := z'], lbas, open - OpenBit(z.state) + OpenBit(z'.state),
                  active - ActiveBit(z.state) + ActiveBit(z'.state))
              && Kept(z', tiles[zid], level[zid], pending[zid], leaked[zid], ends[zid], wbSize, os)
      ensures 0 <= open <= active
      ensures IsOpen(zones[zid].state) ==> open > 0
      ensures IsActive(zones[zid].state) ==> active > 0
    {
      hide Sum, Kept, ZoneOk;
      ManagedOk(a, zones[zid], zid, lbas);
      ChangeZone(zones, lbas, open, active, zid, Managed(a, zones[zid]));
      Counted(zones, lbas, open, active, zid);
      SameKept(zones[zid], Target(a, zones[zid].state).0, tiles[zid], level[zid], pending[zid], leaked[zid], ends[zid],
               wbSize, os);
    }

    method Close(zid: nat) returns (status: Status)
      requires Valid() && zid < |zones|
      modifies this`zones, this`open
      ensures Valid() && status == Answer(CloseZone, old(zones[zid].state), old(ActiveFull()), old(OpenFull()))
      ensures zones == old(zones)[zid := Managed(CloseZone, old(zones[zid]))]
    {
      hide ZonesOk, Kept;
      Prepare(CloseZone, zid);
      match zones[zid].state {
        case OpenedImpl | OpenedExpl =>
          ChangeState(zid, Closed);
          ReleaseOpen();
          status := Success;
        case Closed =>
          status := Success;
        case _ =>
          status := InvalidTransition;
      }
    }

    method Finish(zid: nat) returns (status: Status)
      requires Valid() && zid < |zones|
      modifies this`zones, this`open, this`active
      ensures Valid() && status == Answer(FinishZone, old(zones[zid].state), old(ActiveFull()), old(OpenFull()))
      ensures zones == old(zones)[zid := Managed(FinishZone, old(zones[zid]))]
    {
      hide ZonesOk, Kept;
      Prepare(FinishZone, zid);
      var state := zones[zid].state;
      if IsOpen(state) {
        ReleaseOpen();
      }
      if IsActive(state) {
        ReleaseActive();
      }
      if IsActive(state) || state == Empty {
        ChangeState(zid, Full);
      }
      status := if state == ReadOnly || state == Offline then InvalidTransition else Success;
    }

    method Open(zid: nat) returns (status: Status)
      requires Valid() && zid < |zones|
      modifies this`zones, this`open, this`active
      ensures Valid() && status == Answer(OpenZone, old(zones[zid].state), old(ActiveFull()), old(OpenFull()))
      ensures zones == if status == Success then old(zones)[zid := Managed(OpenZone, old(zones[zid]))] else old(zones)
    {
      hide ZonesOk, Kept;
      Prepare(OpenZone, zid);
      var state := zones[zid].state;
      if state == Empty {
        if ActiveFull() {
          return NoActiveZone;
        }
        if OpenFull() {
          return NoOpenZone;
        }
        var _ := AcquireActive();
      }
      if state == Empty || state == Closed {
        var ok := AcquireOpen();
        if !ok {
          return NoOpenZone;
        }
      }
      if state == Empty || state == Closed || state == OpenedImpl {
        ChangeState(zid, OpenedExpl);
      }
      status := if state == Empty || IsActive(state) then Success else InvalidTransition;
    }

    method TakeOffline(zid: nat) returns (status: Status)
      requires Valid() && zid < |zones|
      modifies this`zones
      ensures Valid() && status == Answer(OfflineZone, old(zones[zid].state), old(ActiveFull()), old(OpenFull()))
      ensures zones == old(zones)[zid := Managed(OfflineZone, old(zones[zid]))]
    {
      hide ZonesOk, Kept;
      Prepare(OfflineZone, zid);
      match zones[zid].state {
        case ReadOnly =>
          ChangeState(zid, Offline);
          status := Success;
        case Offline =>
          status := Success;
        case _ =>
          status := InvalidTransition;
      }
    }

    /** What the unfinished word line of a zone holds of its buffer. */
    ghost function HeldIn(zid: nat): nat
      reads this
      requires zid < |zones| && os > 0
    {
      var z := zones[zid];
      if z.wp >= z.zslba then HeldBytes(z.wp - z.zslba, z.cap, os) else 0
    }

    /** Empties a zone; what an unfinished word line holds of the buffer is never released. */
    method Reset(zid: nat) returns (status: Status)
      requires Valid() && zid < |zones|
      modifies this`zones, this`open, this`active, this`tiles, this`leaked
      ensures Valid() && status == Answer(ResetZone, old(zones[zid].state), old(ActiveFull()), old(OpenFull()))
      ensures zones == old(zones)[zid := Managed(ResetZone, old(zones[zid]))]
      ensures status == Success ==>
                tiles == old(tiles)[zid := []] && leaked == old(leaked)[zid := old(leaked[zid]) + old(HeldIn(zid))]
      ensures status != Success ==> tiles == old(tiles) && leaked == old(leaked)
    {
      hide ZonesOk, Kept;
      PrepareReset(zid);
      ghost var more := HeldIn(zid);
      var state := zones[zid].state;
      if state == ReadOnly || state == Offline {
        return InvalidTransition;
      }
      if IsOpen(state) {
        ReleaseOpen();
      }
      if IsActive(state) {
        ReleaseActive();
      }
      ChangeState(zid, Empty);
      zones := zones[zid := zones[zid].(wp := zones[zid].zslba)];
      assert zones == old(zones)[zid := Managed(ResetZone, old(zones[zid]))];
      tiles := tiles[zid := []];
      leaked := leaked[zid := leaked[zid] + more];
      status := Success;
    }

    lemma PrepareReset(zid: nat)
      requires Valid() && zid < |zones|
      ensures var (z, z') := (zones[zid], Managed(ResetZone, zones[zid]));
              && z' == (if z.state == ReadOnly || z.state == Offline then z else z.(state := Empty, wp := z.zslba))
              && ZonesOk(zones[zid := z'], lbas, open - OpenBit(z.state) + OpenBit(z'.state),
                  active - ActiveBit(z.state) + ActiveBit(z'.state))
      ensures Kept(zones[zid].(state := Empty, wp := zones[zid].zslba), [], level[zid], pending[zid], leaked[zid] +
          HeldIn(zid), ends[zid], wbSize, os)
      ensures 0 <= open <= active
      ensures IsOpen(zones[zid].state) ==> open > 0
      ensures IsActive(zones[zid].state) ==> active > 0
    {
      hide Sum, ZoneOk;
      ManagedOk(ResetZone, zones[zid], zid, lbas);
      ChangeZone(zones, lbas, open, active, zid, Managed(ResetZone, zones[zid]));
      Counted(zones, lbas, open, active, zid);
      DivUnique(0, os, 0, 0);
    }

    /** One management command on one zone. */
    method Manage(a: Action, zid: nat) returns (status: Status)
      requires Valid() && zid < |zones|
      modifies this`zones, this`open, this`active, this`tiles, this`leaked
      ensures Valid() && status == Answer(a, old(zones[zid].state), old(ActiveFull()), old(OpenFull()))
      ensures zones == if status == Success then old(zones)[zid := Managed(a, old(zones[zid]))] else old(zones)
    {
      hide Valid, Managed;
      Unmoved(a, zones[zid]);
      match a {
        case CloseZone => status := Close(zid);
        case FinishZone => status := Finish(zid);
        case OpenZone => status := Open(zid);
        case ResetZone => status := Reset(zid);
        case OfflineZone => status := TakeOffline(zid);
        case FlushZrwa => status := InvalidZoneOperation;
      }
    }

    static lemma Unmoved(a: Action, z: Zone)
      ensures Target(a, z.state).1 != Success ==> Managed(a, z) == z
    {
    }

    /** A management command for all zones; the answers of the zones are dropped. When the limits are the
        number of zones no zone lacks a resource, and every zone makes its own transition. */
    method ManageAll(a: Action) returns (status: Status)
      requires Valid()
      modifies this`zones, this`open, this`active, this`tiles, this`leaked
      ensures Valid() && status == Success && |zones| == |old(zones)|
      ensures maxOpen >= |zones| && maxActive >= |zones| ==> forall i :: 0 <= i < |zones| ==>
              zones[i] == Managed(a, old(zones[i]))
    {
      hide Valid, Managed, Answer;
      for i := 0 to |zones|
        invariant Valid() && |zones| == |old(zones)|
        invariant forall k :: i <= k < |zones| ==> zones[k] == old(zones[k])
        invariant maxOpen >= |zones| && maxActive >= |zones| ==> forall k :: 0 <= k < i ==>
                zones[k] == Managed(a, old(zones[k]))
      {
        if maxOpen >= |zones| && maxActive >= |zones| {
          NeverShort(a, i);
        }
        Unmoved(a, zones[i]);
        var _ := Manage(a, i);
      }
      status := Success;
    }

    /** With as many open and active zones allowed as there are zones, a command never lacks a resource. */
    lemma NeverShort(a: Action, zid: nat)
      requires Valid() && zid < |zones| && maxOpen >= |zones| && maxActive >= |zones|
      ensures Answer(a, zones[zid].state, ActiveFull(), OpenFull()) == Target(a, zones[zid].state).1
      ensures !IsActive(zones[zid].state) ==> !ActiveFull()
      ensures !IsOpen(zones[zid].state) ==> !OpenFull()
    {
      hide ZonesOk, Kept;
      Counted(zones, lbas, open, active, zid);
    }

    lemma NeverShortWrite(zid: nat, slba: nat, nr: nat)
      requires Valid() && zid < |zones| && nr > 0 && maxOpen >= |zones| && maxActive >= |zones|
      ensures var v := Verdict(zones[zid], slba, nr, lbas, unit, ActiveFull(), OpenFull());
          v != NoActiveZone && v != NoOpenZone
    {
      hide ZonesOk, Kept;
      NeverShort(CloseZone, zid);
    }

    /** Pages `from .. to` of a zone go to the flash; every word line finished, also by the end of the
        zone, gives back its part of the buffer, if a work entry is left when page `l` is reached. */
    method Program(zid: nat, from: nat, to: nat, left: nat -> bool)
      requires Shape() && zid < |zones| && from <= to < lbas / SECS_PER_PG
      modifies this`pending, this`leaked
      ensures |pending| == |old(pending)| && |leaked| == |old(leaked)|
      ensures forall i :: 0 <= i < |pending| && i != zid ==>
                pending[i] == old(pending[i]) && leaked[i] == old(leaked[i])
      ensures leaked[zid] >= old(leaked[zid]) && ((forall l :: left(l)) ==> leaked == old(leaked))
      ensures Sum(pending[zid]) + leaked[zid] + Held(to + 1, lbas / SECS_PER_PG, os) ==
              Sum(old(pending[zid])) + old(leaked[zid]) + Held(from, lbas / SECS_PER_PG, os) + PGSZ * (to + 1 - from)
    {
      hide Sum, Held;
      var pgs := lbas / SECS_PER_PG;
      ScaledMod(pgs, os);
      var off := from;
      while off <= to
        invariant from <= off <= to + 1
        invariant |pending| == |old(pending)| && |leaked| == |old(leaked)|
        invariant forall i :: 0 <= i < |pending| && i != zid ==>
                    pending[i] == old(pending[i]) && leaked[i] == old(leaked[i])
        invariant leaked[zid] >= old(leaked[zid]) && ((forall l :: left(l)) ==> leaked == old(leaked))
        invariant Sum(pending[zid]) + leaked[zid] + Held(off, pgs, os) ==
                  Sum(old(pending[zid])) + old(leaked[zid]) + Held(from, pgs, os) + PGSZ * (off - from)
      {
        var room := os - off % os;
        var k := if to - off + 1 < room then to - off + 1 else room;
        HeldStep(off, pgs, os, k);
        if k == room || off + k == pgs {
          var unaligned := (pgs * PGSZ) % (os * PGSZ);
          var bytes := if off + k == pgs && unaligned > 0 then unaligned else os * PGSZ;
          ScheduleRelease(zid, bytes, left(off + k - 1));
        }
        off := off + k;
      }
    }

    /** A release becomes a work entry, if there is one left. */
    method ScheduleRelease(zid: nat, bytes: nat, entryLeft: bool)
      requires zid < |pending| == |leaked|
      modifies this`pending, this`leaked
      ensures if entryLeft then pending == old(pending)[zid := old(pending[zid]) + [bytes]] && leaked == old(leaked)
              else pending == old(pending) && leaked == old(leaked)[zid := old(leaked[zid]) + bytes]
      ensures Sum(pending[zid]) + leaked[zid] == Sum(old(pending[zid])) + old(leaked[zid]) + bytes
    {
      SumAppend(pending[zid], bytes);
      if entryLeft {
        pending := pending[zid := pending[zid] + [bytes]];
      } else {
        leaked := leaked[zid := leaked[zid] + bytes];
      }
    }

    /** Moves the write pointer; a zone that is full is neither open nor active any more. */
    method IncreaseWp(zid: nat, nr: nat)
      requires zid < |zones|
      requires zones[zid].wp + nr == zones[zid].zslba + zones[zid].cap ==> open > 0 && active > 0
      modifies this`zones, this`open, this`active
      ensures var z := old(zones[zid]); var full := z.wp + nr == z.zslba + z.cap;
              && zones == old(zones)[zid := z.(wp := z.wp + nr, state := if full then Full else z.state)]
              && open == old(open) - (if full then 1 else 0) && active == old(active) - (if full then 1 else 0)
    {
      var wp := zones[zid].wp + nr;
      zones := zones[zid := zones[zid].(wp := wp)];
      if wp == zones[zid].zslba + zones[zid].cap {
        ReleaseOpen();
        ReleaseActive();
        ChangeState(zid, Full);
      }
    }

    /** The state of a zone that is about to be written, with its resources. */
    method OpenForWrite(zid: nat)
      requires zid < |zones| && (zones[zid].state == Empty || IsActive(zones[zid].state))
      requires zones[zid].state == Empty ==> active < maxActive
      requires !IsOpen(zones[zid].state) ==> open < maxOpen
      modifies this`zones, this`open, this`active
      ensures var z := old(zones[zid]);
              && zones == old(zones)[zid := z.(state := if IsOpen(z.state) then z.state else OpenedImpl)]
              && open == old(open) + 1 - OpenBit(z.state) && active == old(active) + 1 - ActiveBit(z.state)
    {
      if zones[zid].state == Empty {
        var _ := AcquireActive();
      }
      if !IsOpen(zones[zid].state) {
        var _ := AcquireOpen();
        ChangeState(zid, OpenedImpl);
      }
    }

    /**
     A write, or an append to the zone of `lba`. Without room in the buffer of the zone nothing happens
     and the command is tried again. A command that is refused changes no zone, but its
     part of the buffer is lost. One that is accepted goes on where the last one ended.
     */
    method Write(append: bool, lba: nat, nr: nat, left: nat -> bool) returns (r: Outcome, zid: nat)
      requires Valid() && nr > 0 && lba / lbas < |zones|
      modifies this`zones, this`open, this`active, this`level, this`pending, this`tiles, this`leaked, this`ends
      ensures Valid() && zid == lba / lbas
      ensures r == Retry <==> old(level[zid]) < nr * SECSZ
      ensures r != Retry ==>
          r.status == Verdict(old(zones[zid]), if append then old(zones[zid].wp)
          else lba, nr, lbas, unit, old(ActiveFull()), old(OpenFull()))
      ensures level == if r == Retry then old(level) else old(level)[zid := old(level[zid]) - nr * SECSZ]
      ensures zones == if r == Done(Success) then old(zones)[zid := Written(old(zones[zid]), nr)] else old(zones)
      ensures tiles == if r == Done(Success) then old(tiles)[zid := old(tiles[zid]) + [(old(zones[zid].wp), nr)]]
          else old(tiles)
      ensures ends == if r == Done(Success) then old(ends)[zid := old(ends[zid]) + [EndIn(old(zones[zid]), nr)]]
          else old(ends)
      ensures r != Done(Success) ==> pending == old(pending)
      ensures r == Retry ==> leaked == old(leaked)
      ensures r != Retry && r != Done(Success) ==> leaked == old(leaked)[zid := old(leaked[zid]) + nr * SECSZ]
      ensures r == Done(Success) && (forall l :: left(l)) ==> leaked == old(leaked)
    {
      hide ZonesOk, Kept, Verdict, Sum, Held, Written;
      zid := lba / lbas;
      var slba := if append then zones[zid].wp else lba;
      var bytes := nr * SECSZ;
      if level[zid] < bytes {
        return Retry, zid;
      }
      var status := Verdict(zones[zid], slba, nr, lbas, unit, ActiveFull(), OpenFull());
      if status != Success {
        Leak(zid, bytes);
        return Done(status), zid;
      }
      Accept(zid, slba, nr, left);
      r := Done(Success);
    }

    method Leak(zid: nat, bytes: nat)
      requires Valid() && zid < |zones| && level[zid] >= bytes
      modifies this`level, this`leaked
      ensures Valid() && level == old(level)[zid := old(level[zid]) - bytes]
      ensures leaked == old(leaked)[zid := old(leaked[zid]) + bytes]
    {
      hide ZonesOk, Tiled, Sum, HeldBytes, AllEarly;
      level := level[zid := level[zid] - bytes];
      leaked := leaked[zid := leaked[zid] + bytes];
    }

    method Accept(zid: nat, slba: nat, nr: nat, left: nat -> bool)
      requires Valid() && nr > 0 && zid < |zones| && level[zid] >= nr * SECSZ
      requires Verdict(zones[zid], slba, nr, lbas, unit, ActiveFull(), OpenFull()) == Success
      modifies this`zones, this`open, this`active, this`level, this`pending, this`tiles, this`leaked, this`ends
      ensures Valid()
      ensures level == old(level)[zid := old(level[zid]) - nr * SECSZ]
      ensures zones == old(zones)[zid := Written(old(zones[zid]), nr)]
      ensures tiles == old(tiles)[zid := old(tiles[zid]) + [(old(zones[zid].wp), nr)]]
      ensures ends == old(ends)[zid := old(ends[zid]) + [EndIn(old(zones[zid]), nr)]]
      ensures (forall l :: left(l)) ==> leaked == old(leaked)
    {
      hide ZonesOk, Kept, Verdict, Sum, Held, Written, HeldBytes, AllEarly, Early;
      ghost var (z, p) := (zones[zid], pending[zid]);
      AcceptedZone(zid, slba, nr);
      level := level[zid := level[zid] - nr * SECSZ];
      var off := slba - zones[zid].zslba;
      MoveZone(zid, nr);
      WriteHeld(off, nr, lbas, os);
      Program(zid, off / SECS_PER_PG, (off + nr - 1) / SECS_PER_PG, left);
      AcceptedKept(z, tiles[zid], nr, old(level[zid]), p, pending[zid], old(leaked[zid]), leaked[zid], ends[zid],
          wbSize, os);
      tiles := tiles[zid := tiles[zid] + [(slba, nr)]];
      ends := ends[zid := ends[zid] + [EndIn(z, nr)]];
    }

    method MoveZone(zid: nat, nr: nat)
      requires zid < |zones| && (zones[zid].state == Empty || IsActive(zones[zid].state))
      requires zones[zid].state == Empty ==> active < maxActive
      requires !IsOpen(zones[zid].state) ==> open < maxOpen
      requires 0 <= open <= active
      requires IsOpen(zones[zid].state) ==> open > 0
      requires IsActive(zones[zid].state) ==> active > 0
      modifies this`zones, this`open, this`active
      ensures var (z, z') := (old(zones[zid]), Written(old(zones[zid]), nr));
              && zones == old(zones)[zid := z']
              && open == old(open) - OpenBit(z.state) + OpenBit(z'.state)
              && active == old(active) - ActiveBit(z.state) + ActiveBit(z'.state)
              && (open <= maxOpen || open <= old(open)) && (active <= maxActive || active <= old(active))
    {
      OpenForWrite(zid);
      IncreaseWp(zid, nr);
    }

    /** An accepted write keeps the zones in order. */
    lemma AcceptedZone(zid: nat, slba: nat, nr: nat)
      requires Valid() && nr > 0 && zid < |zones|
      requires Verdict(zones[zid], slba, nr, lbas, unit, ActiveFull(), OpenFull()) == Success
      ensures var z := zones[zid]; var z' := Written(z, nr);
              && (z.state == Empty || IsActive(z.state)) && slba == z.wp && z.zslba <= z.wp
                  && z.wp + nr <= z.zslba + z.cap && z.cap == lbas
              && (z.state == Empty ==> active < maxActive) && (!IsOpen(z.state) ==> open < maxOpen)
              && ZonesOk(zones[zid := z'], lbas, open - OpenBit(z.state) + OpenBit(z'.state),
                  active - ActiveBit(z.state) + ActiveBit(z'.state))
      ensures 0 <= open <= active
      ensures IsOpen(zones[zid].state) ==> open > 0
      ensures IsActive(zones[zid].state) ==> active > 0
    {
      hide Kept, Sum, Verdict;
      var z := zones[zid];
      AcceptedIff(z, zid, slba, nr, lbas, unit, ActiveFull(), OpenFull());
      ChangeZone(zones, lbas, open, active, zid, Written(z, nr));
      Counted(zones, lbas, open, active, zid);
    }

    static lemma AcceptedKept(z: Zone, t: seq<(nat, nat)>, nr: nat, level: nat, p: seq<nat>, p': seq<nat>, leaked: nat,
                              leaked': nat, ends: seq<nat>, size: nat, os: nat)
      requires os > 0 && nr > 0 && level >= nr * SECSZ && z.zslba <= z.wp && z.wp + nr <= z.zslba + z.cap
          && z.cap % SECS_PER_PG == 0
      requires Kept(z, t, level, p, leaked, ends, size, os)
      requires var off := z.wp - z.zslba;
               var (from, to, pgs) := (off / SECS_PER_PG, (off + nr - 1) / SECS_PER_PG, z.cap / SECS_PER_PG);
               from <= to && Sum(p') + leaked' + Held(to + 1, pgs, os) == Sum(p) + leaked + Held(from, pgs, os) +
                   PGSZ * (to + 1 - from)
      ensures Kept(Written(z, nr), t + [(z.wp, nr)], level - nr * SECSZ, p', leaked', ends + [EndIn(z, nr)], size, os)
    {
      hide Sum, Held, HeldBytes, AllEarly, Early, Tiled;
      TileOn(t, z.zslba, z.wp, nr);
      WriteHeld(z.wp - z.zslba, nr, z.cap, os);
      AllEarlyAppend(ends, z.wp - z.zslba + nr, z.cap, os);
    }

    /**
     Buffer space is conserved exactly if and only if no accepted command ended inside the last page of a
     word line.
     */
    lemma ConservedIff(zid: nat)
      requires Valid() && zid < |zones|
      ensures level[zid] + Sum(pending[zid]) + HeldIn(zid) + leaked[zid] == wbSize + AllEarly(ends[zid], lbas, os)
      ensures level[zid] + Sum(pending[zid]) + HeldIn(zid) + leaked[zid] == wbSize <==>
              forall k :: 0 <= k < |ends[zid]| ==> !EndsEarly(ends[zid][k], lbas, os)
      ensures (forall k :: 0 <= k < |ends[zid]| ==> !EndsEarly(ends[zid][k], lbas, os)) ==> level[zid] <= wbSize
    {
      hide Sum, HeldBytes, AllEarly, EndsEarly;
      assert ZoneOk(zones[zid], zid, lbas);
      NoneEarly(ends[zid], lbas, os);
    }

    /** A worker carries out a scheduled release. */
    method Release(zid: nat, k: nat)
      requires Valid() && zid < |zones| && k < |pending[zid]|
      modifies this`level, this`pending
      ensures Valid() && level == old(level)[zid := old(level[zid]) + old(pending[zid][k])]
      ensures pending == old(pending)[zid := old(pending[zid])[..k] + old(pending[zid])[k + 1..]]
    {
      hide ZonesOk, Tiled, Sum, HeldBytes, AllEarly;
      SumRemove(pending[zid], k);
      level := level[zid := level[zid] + pending[zid][k]];
      pending := pending[zid := pending[zid][..k] + pending[zid][k + 1..]];
    }

    /** The workers carry out all releases scheduled for a zone. */
    method Drain(zid: nat)
      requires Valid() && zid < |zones|
      modifies this`level, this`pending
      ensures Valid() && pending[zid] == [] && |level| == |old(level)|
    {
      hide Valid;
      Sized();
      while pending[zid] != []
        invariant Valid() && |pending| == |old(pending)| && |level| == |old(level)|
        decreases |pending[zid]|
      {
        Release(zid, 0);
      }
    }

    lemma Sized()
      requires Valid()
      ensures Shape()
    {
    }
  }

  predicate Live(s: ZoneState) { s != ReadOnly && s != Offline }

  lemma LiveOn(a: Action, z: Zone, nr: nat)
    requires Live(z.state)
    ensures Live(Managed(a, z).state) && Live(Written(z, nr).state)
  {
  }

  datatype Step =
    | Command(action: Action, zid: nat)
    | CommandAll(action: Action)
    | WriteAt(append: bool, lba: nat, nr: nat, left: nat -> bool)
    | ReleaseOne(zid: nat, index: nat)

  ghost predicate InRange(s: Step, n: nat, lbas: nat)
    requires lbas > 0
  {
    && (s.Command? ==> s.zid < n)
    && (s.WriteAt? ==> s.nr > 0 && s.lba / lbas < n)
    && (s.ReleaseOne? ==> s.zid < n)
  }

  /** One step of a run. */
  method Perform(f: ZnsFtl, s: Step) returns (r: Outcome)
    requires f.Valid() && InRange(s, |f.zones|, f.lbas) && f.maxOpen == f.maxActive == |f.zones|
    requires forall i :: 0 <= i < |f.zones| ==> Live(f.zones[i].state)
    modifies f
    ensures f.Valid() && |f.zones| == |old(f.zones)|
    ensures forall i :: 0 <= i < |f.zones| ==> Live(f.zones[i].state)
    ensures r != Done(NoActiveZone) && r != Done(NoOpenZone)
  {
    hide ZonesOk, Kept, Verdict, Managed, Written, Live, Answer;
    r := Done(Success);
    match s {
      case Command(a, zid) =>
        f.NeverShort(a, zid);
        LiveOn(a, f.zones[zid], 0);
        var status := f.Manage(a, zid);
        r := Done(status);
      case CommandAll(a) =>
        forall i | 0 <= i < |f.zones| ensures Live(Managed(a, f.zones[i]).state) { LiveOn(a, f.zones[i], 0); }
        var _ := f.ManageAll(a);
      case WriteAt(append, lba, nr, left) =>
        var zid := lba / f.lbas;
        f.NeverShortWrite(zid, if append then f.zones[zid].wp else lba, nr);
        LiveOn(CloseZone, f.zones[zid], nr);
        var out, _ := f.Write(append, lba, nr, left);
        r := out;
      case ReleaseOne(zid, k) =>
        if k < |f.pending[zid]| {
          f.Release(zid, k);
        }
    }
  }

  /**
   Any run of commands on a new device: no command ever lacks an open or active zone, no zone
   becomes read-only or offline, and the invariants of zones, counters, tiles and buffers hold.
   */
  method Run(n: nat, lbas: nat, unit: nat, os: nat, wb: nat, steps: seq<Step>) returns (f: ZnsFtl,
      answers: seq<Outcome>)
    requires lbas > 0 && lbas % SECS_PER_PG == 0 && unit > 0 && os > 0
    requires forall i :: 0 <= i < |steps| ==> InRange(steps[i], n, lbas)
    ensures f.Valid() && |f.zones| == n && |answers| == |steps|
    ensures forall i :: 0 <= i < n ==> Live(f.zones[i].state)
    ensures forall i :: 0 <= i < |answers| ==> answers[i] != Done(NoActiveZone) && answers[i] != Done(NoOpenZone)
  {
    hide ZnsFtl.Valid, InRange;
    f := new ZnsFtl(n, lbas, unit, os, wb);
    answers := [];
    for k := 0 to |steps|
      invariant fresh(f) && f.Valid() && |f.zones| == n == f.maxOpen == f.maxActive && f.lbas == lbas && |answers| == k
      invariant forall i :: 0 <= i < n ==> Live(f.zones[i].state)
      invariant forall i :: 0 <= i < k ==> answers[i] != Done(NoActiveZone) && answers[i] != Done(NoOpenZone)
    {
      var r := Perform(f, steps[k]);
      answers := answers + [r];
    }
  }

  /**
   A run after which a zone has more buffer space than its buffer: with word lines of one page, one block
   makes a whole page be released.
   */
  method OverfullRun() returns (f: ZnsFtl)
    ensures f.Valid() && |f.level| == 1 && f.level[0] == f.wbSize + PGSZ - SECSZ
  {
    hide ZnsFtl.Valid, AllEarly, HeldBytes, Sum;
    f := new ZnsFtl(1, 16, SECSZ, 1, PGSZ);
    f.Sized();
    var r, zid := f.Write(false, 0, 1, _ => true);
    assert r == Done(Success) && f.ends[0] == [1] && f.leaked[0] == 0;
    f.Sized();
    f.Drain(0);
    f.ConservedIff(0);
    OneBlock();
  }

  lemma OneBlock()
    ensures HeldBytes(1, 16, 1) == SECSZ && AllEarly([1], 16, 1) == PGSZ && Sum([]) == 0
  {
    AllEarlyAppend([], 1, 16, 1);
    assert [] + [1] == [1];
  }

  /** Where in its zone an accepted write of `nr` blocks ends. */
  function EndIn(z: Zone, nr: nat): nat { if z.wp >= z.zslba then z.wp - z.zslba + nr else nr }
}
