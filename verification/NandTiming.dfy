/**
 The time line of the flash: when each LUN of each partition is free again, the commands that push
 this time forward, and the flush that waits for all of them. Channels and the host link are credit
 rings; the clock may stand still or move by any amount between two readings.
 */
module NandTiming {
  import opened Channel

  datatype Lun = Lun(part: nat, ch: nat, lun: nat)
  datatype Command = Read | Write | Erase | Nop | Unsupported

  /** How long the flash works. Reads depend on the kind of cell, which follows from the page number. */
  datatype Latencies = Latencies(
    read: nat -> nat,
    read4k: nat -> nat,
    write: nat,
    erase: nat,
    pgsPerFlashpg: nat,
    cellMode: nat)
  {
    function Cell(pg: nat): nat
      requires pgsPerFlashpg > 0
    {
      pg / pgsPerFlashpg % (cellMode + 1)
    }
  }

  /** A stretch of time during which a command holds a LUN. */
  datatype Op = Op(at: Lun, start: nat, end: nat)

  function Max(a: nat, b: nat): nat { if a > b then a else b }

  class Clock {
    var now: nat
    var readings: nat
    const tick: nat -> nat        // how far the clock has moved at each reading

    constructor (tick: nat -> nat)
      ensures now == 0 && this.tick == tick
    {
      this.tick := tick;
      now, readings := 0, 0;
    }

    method Get() returns (t: nat)
      modifies this
      ensures t == now == old(now) + tick(old(readings)) && readings == old(readings) + 1
    {
      now := now + tick(readings);
      readings := readings + 1;
      t := now;
    }
  }

  /**
   The commands on one LUN are done one after the other, in the order in which they were issued, and
   the LUN is free again no earlier than all of them have ended.
   */
  ghost predicate Timeline(log: seq<Op>, avail: map<Lun, nat>)
  {
    && (forall i :: 0 <= i < |log| ==>
          log[i].start <= log[i].end && log[i].at in avail && log[i].end <= avail[log[i].at])
    && (forall i, j :: 0 <= i < j < |log| && log[i].at == log[j].at ==> log[i].end <= log[j].start)
  }

  /** `size` bytes were sent piece by piece, each when the one before had arrived, from `time` to `end`; all pieces but
      the last have `max` bytes. */
  ghost predicate InPieces(p: seq<Sent>, time: nat, size: nat, max: nat, end: nat)
  {
    if p == [] then size == 0 && end == time
    else
      var (before, last) := (p[..|p| - 1], p[|p| - 1]);
      && 0 < last.length <= size && last.length <= max && last.end == end
      && (before != [] ==> before[|before| - 1].length == max)
      && InPieces(before, time, size - last.length, max, last.time)
  }

  lemma EmptyPieces(time: nat, max: nat)
    ensures InPieces([], time, 0, max, time)
  {
  }

  lemma PieceAdded(p: seq<Sent>, time: nat, size: nat, max: nat, at: nat, length: nat, end: nat)
    requires InPieces(p, time, size, max, at) && 0 < length <= max && (p != [] ==> p[|p| - 1].length == max)
    ensures InPieces(p + [Sent(at, length, end)], time, size + length, max, end)
  {
    var p' := p + [Sent(at, length, end)];
    assert p'[..|p'| - 1] == p;
  }

  /** Each of the pieces `p` was sent on, as soon as it had arrived. */
  ghost predicate Relayed(p: seq<Sent>, q: seq<Sent>)
  {
    |p| == |q| && forall i :: 0 <= i < |p| ==> q[i].time == p[i].end && q[i].length == p[i].length
  }

  /**
   How a command spends its time, with the flash at work for `busy` and the transfers `p` over the channel and `q` over
   the host link. A read is sent after the flash is done, and completes with its last piece at the host or at the end of
   the channel; a program starts once the data has arrived.
   */
  ghost predicate Spent(c: Command, op: Op, busy: nat, size: nat, max: nat, interleave: bool, p: seq<Sent>,
                        q: seq<Sent>, completed: nat)
  {
    match c
    case Read =>
      && InPieces(p, op.start + busy, size, max, op.end)
      && (if interleave then Relayed(p, q) && q != [] && completed == q[|q| - 1].end
          else q == [] && completed == op.end)
    case Write => p != [] && p == [Sent(op.start, size, p[0].end)] && q == [] && op.end == completed == p[0].end + busy
    case _ => p == q == [] && op.end == completed == op.start + busy
  }

  function AllLuns(p: nat, c: nat, l: nat): (s: set<Lun>)
    ensures forall a :: a in s <==> a.part < p && a.ch < c && a.lun < l
  {
    set x: nat, y: nat, z: nat | 0 <= x < p && 0 <= y < c && 0 <= z < l :: Lun(x, y, z)
  }

  function AllIdle(p: nat, c: nat, l: nat): (m: map<Lun, nat>)
    ensures m.Keys == AllLuns(p, c, l) && forall a :: a in m ==> m[a] == 0
  {
    map a | a in AllLuns(p, c, l) :: 0
  }

  /** The rings of the first channels of the first partitions are all new and do not share anything. */
  ghost predicate Apart(m: map<(nat, nat), Ring>, link: Ring)
  {
    && (forall k :: k in m ==> m[k] != link && m[k].avail != link.avail)
    && (forall k, l :: k in m && l in m && k != l ==> m[k] != m[l] && m[k].avail != m[l].avail)
  }

  /** A command that starts no earlier than its LUN is free, and holds it to the end, fits in. */
  lemma TimelineGrows(log: seq<Op>, avail: map<Lun, nat>, op: Op)
    requires Timeline(log, avail) && op.at in avail && avail[op.at] <= op.start <= op.end
    ensures Timeline(log + [op], avail[op.at := op.end])
  {
    var log' := log + [op];
    forall i, j | 0 <= i < j < |log'| && log'[i].at == log'[j].at
      ensures log'[i].end <= log'[j].start
    {
      assert log'[i] == log[i];
    }
  }

  method NewChannels(p: nat, c: nat, slots: nat, credits: nat, lat: nat) returns (m: map<(nat, nat), Ring>)
    requires 0 < slots <= TWO32 && credits > 0
    ensures forall k :: k in m <==> k.0 < p && k.1 < c
    ensures forall k :: k in m ==> fresh(m[k]) && fresh(m[k].avail) && m[k].Valid() && m[k].curTime == 0
    ensures forall k, l :: k in m && l in m && k != l ==> m[k] != m[l] && m[k].avail != m[l].avail
  {
    hide Ring.Valid;
    m := map[];
    for i := 0 to p
      invariant forall k :: k in m <==> k.0 < i && k.1 < c
      invariant forall k :: k in m ==> fresh(m[k]) && fresh(m[k].avail) && m[k].Valid() && m[k].curTime == 0
      invariant forall k, l :: k in m && l in m && k != l ==> m[k] != m[l] && m[k].avail != m[l].avail
    {
      for j := 0 to c
        invariant forall k :: k in m <==> (k.0 < i && k.1 < c) || (k.0 == i && k.1 < j)
        invariant forall k :: k in m ==> fresh(m[k]) && fresh(m[k].avail) && m[k].Valid() && m[k].curTime == 0
        invariant forall k, l :: k in m && l in m && k != l ==> m[k] != m[l] && m[k].avail != m[l].avail
      {
        var r := new Ring(slots, credits, 0, lat);
        m := m[(i, j) := r];
      }
    }
  }

  class Nand {
    const parts: nat
    const chs: nat
    const luns: nat               // per channel
    const maxXfer: nat            // bytes sent over a channel at a time
    const lat: Latencies
    const clock: Clock
    const pcie: Ring
    const chan: map<(nat, nat), Ring>
    var avail: map<Lun, nat>      // next_lun_avail_time
    ghost var log: seq<Op>

    ghost function Rings(): set<object>
      reads this
    {
      {pcie, pcie.avail} + (set k | k in chan :: chan[k]) + (set k | k in chan :: chan[k].avail)
    }

    ghost predicate InTime(r: Ring)
      reads clock, r, r.avail
    {
      r.Valid() && r.curTime <= clock.now
    }

    ghost predicate Valid()
      reads this, clock, Rings()
    {
      && maxXfer > 0 && lat.pgsPerFlashpg > 0
      && Apart(chan, pcie)
      && (forall k :: k in chan <==> k.0 < parts && k.1 < chs)
      && (forall l :: l in avail <==> l.part < parts && l.ch < chs && l.lun < luns)
      && InTime(pcie) && (forall k :: k in chan ==> InTime(chan[k]))
      && Timeline(log, avail)
    }

    constructor (p: nat, c: nat, l: nat, xfer: nat, lats: Latencies, clk: Clock, slots: nat, linkCredits: nat,
        chanCredits: nat, linkLat: nat, chanLat: nat)
      requires xfer > 0 && lats.pgsPerFlashpg > 0 && 0 < slots <= TWO32 && linkCredits > 0 && chanCredits > 0
      ensures Valid() && parts == p && chs == c && luns == l && clock == clk
      ensures log == [] && forall a :: a in avail ==> avail[a] == 0
      ensures fresh(Rings())
    {
      hide Ring.Valid;
      parts, chs, luns, maxXfer, lat, clock := p, c, l, xfer, lats, clk;
      var link := new Ring(slots, linkCredits, 0, linkLat);
      var m := NewChannels(p, c, slots, chanCredits, chanLat);
      pcie, chan := link, m;
      avail := AllIdle(p, c, l);
      log := [];
    }

    /** A transfer over the host link or a channel. */
    method Send(r: Ring, time: nat, size: nat) returns (t: nat)
      requires Valid() && (r == pcie || exists k :: k in chan && r == chan[k])
      modifies clock, r, r.avail
      ensures r.sent == old(r.sent) + [Sent(time, size, t)]
      ensures Valid() && t >= time && clock.now >= old(clock.now) && log == old(log) && avail == old(avail)
    {
      hide Ring.Valid;
      var now := clock.Get();
      t := r.Request(now, time, size);
    }

    /** The data of a read goes over the channel piece by piece, and each piece may go on to the host. */
    method SendRead(ch: Ring, time: nat, size: nat, interleave: bool) returns (t: nat, completed: nat,
        ghost p: seq<Sent>, ghost q: seq<Sent>)
      requires Valid() && size > 0 && exists k :: k in chan && ch == chan[k]
      modifies clock, ch, ch.avail, pcie, pcie.avail
      ensures ch.sent == old(ch.sent) + p && pcie.sent == old(pcie.sent) + q
      ensures InPieces(p, time, size, maxXfer, t)
      ensures if interleave then Relayed(p, q) && q != [] && completed == q[|q| - 1].end else q == [] && completed == t
      ensures Valid() && completed >= t >= time && clock.now >= old(clock.now) && log == old(log) && avail == old(avail)
      ensures !interleave ==> completed == t
    {
      hide Ring.Valid, InPieces, Timeline;
      EmptyPieces(time, maxXfer);
      var remaining := size;
      t, completed := time, time;
      p, q := [], [];
      while remaining > 0
        invariant Valid() && completed >= t >= time && clock.now >= old(clock.now) && log == old(log)
            && avail == old(avail)
        invariant !interleave ==> completed == t
        invariant 0 <= remaining <= size && InPieces(p, time, size - remaining, maxXfer, t)
        invariant p != [] && remaining > 0 ==> p[|p| - 1].length == maxXfer
        invariant ch.sent == old(ch.sent) + p && pcie.sent == old(pcie.sent) + q && (p == [] ==> remaining == size)
        invariant if interleave then Relayed(p, q) && (q != [] ==> completed == q[|q| - 1].end) else q == []
      {
        var xfer := Min(remaining, maxXfer);
        ghost var from := t;
        t := Send(ch, t, xfer);
        PieceAdded(p, time, size - remaining, maxXfer, from, xfer, t);
        p := p + [Sent(from, xfer, t)];
        completed := t;
        if interleave {
          completed := Send(pcie, t, xfer);
          q := q + [Sent(t, xfer, completed)];
        }
        remaining := remaining - xfer;
      }
    }

    /**
     One command on the flash. It starts no earlier than asked for and no earlier than the LUN is
     free; the LUN is then held for at least as long as the flash works, and no other LUN is touched.
     An address without a LUN stands for the unmapped one, for which nothing is done.
     */
    method Advance(c: Command, stime: nat, at: Lun, pg: nat, size: nat, interleave: bool)
        returns (completed: nat, ghost p: seq<Sent>, ghost q: seq<Sent>)
      requires Valid() && (c == Read ==> size > 0)
      modifies clock, Rings(), this`avail, this`log
      ensures Valid() && clock.now >= old(clock.now)
      ensures at !in old(avail) || c == Unsupported ==> avail == old(avail) && log == old(log) && p == q == []
      ensures at !in old(avail) ==> completed == Asked(stime, old(clock.now), old(clock.readings)) >= stime
      ensures pcie.sent == old(pcie.sent) + q
      ensures forall k :: k in chan ==>
                chan[k].sent == if k == (at.part, at.ch) then old(chan[k].sent) + p else old(chan[k].sent)
      ensures at in old(avail) && c == Unsupported ==> completed == 0
      ensures at in old(avail) && c != Unsupported ==>
                && |log| == |old(log)| + 1 && log[..|log| - 1] == old(log)
                && log[|log| - 1].at == at
                && log[|log| - 1].start == Max(old(avail[at]), Asked(stime, old(clock.now), old(clock.readings)))
                && log[|log| - 1].end >= log[|log| - 1].start + Busy(c, pg, size)
                && Spent(c, log[|log| - 1], Busy(c, pg, size), size, maxXfer, interleave, p, q, completed)
                && avail == old(avail)[at := log[|log| - 1].end]
                && completed >= avail[at] && (c != Read || !interleave ==> completed == avail[at])
    {
      hide Ring.Valid, Timeline, Spent;
      p, q := [], [];
      var cmdStart := stime;
      if stime == 0 {
        cmdStart := clock.Get();
      }
      if at !in avail {
        return cmdStart, p, q;
      }
      if c == Unsupported {
        return 0, p, q;
      }
      var start := Max(avail[at], cmdStart);
      var end;
      end, completed, p, q := Work(c, start, at, pg, size, interleave);
      Hold(Op(at, start, end));
    }

    /** The transfers of a command and the work of the flash, from `start` on. */
    method Work(c: Command, start: nat, at: Lun, pg: nat, size: nat, interleave: bool)
        returns (end: nat, completed: nat, ghost p: seq<Sent>, ghost q: seq<Sent>)
      requires Valid() && at in avail && c != Unsupported && (c == Read ==> size > 0)
      modifies clock, Rings()
      ensures Valid() && clock.now >= old(clock.now)
      ensures pcie.sent == old(pcie.sent) + q
      ensures forall k :: k in chan ==>
                chan[k].sent == if k == (at.part, at.ch) then old(chan[k].sent) + p else old(chan[k].sent)
      ensures Spent(c, Op(at, start, end), Busy(c, pg, size), size, maxXfer, interleave, p, q, completed)
      ensures end >= start + Busy(c, pg, size) && completed >= end && (c != Read || !interleave ==> completed == end)
    {
      hide Ring.Valid, InPieces, Relayed, Timeline;
      p, q := [], [];
      end := start;
      if c.Read? {
        end, completed, p, q := SendRead(chan[(at.part, at.ch)], start + Busy(c, pg, size), size, interleave);
      } else if c.Write? {
        end := Send(chan[(at.part, at.ch)], start, size);
        p := [Sent(start, size, end)];
        end := end + lat.write;
        completed := end;
      } else {
        end := if c.Erase? then start + lat.erase else start;
        completed := end;
      }
    }

    /** The time a command is asked for: a time of 0 stands for the next reading of the clock. */
    function Asked(stime: nat, now: nat, readings: nat): nat
    {
      if stime == 0 then now + clock.tick(readings) else stime
    }

    /** How long the flash itself is at work for a command. */
    function Busy(c: Command, pg: nat, size: nat): nat
      requires lat.pgsPerFlashpg > 0
    {
      match c
      case Read => if size == 4096 then lat.read4k(lat.Cell(pg)) else lat.read(lat.Cell(pg))
      case Write => lat.write
      case Erase => lat.erase
      case _ => 0
    }

    method Hold(op: Op)
      requires Valid() && op.at in avail && avail[op.at] <= op.start <= op.end
      modifies this`avail, this`log
      ensures Valid() && log == old(log) + [op] && avail == old(avail)[op.at := op.end]
    {
      hide Timeline;
      TimelineGrows(log, avail, op);
      avail := avail[op.at := op.end];
      log := log + [op];
    }

    /** The latest of the clock and of the times at which the LUNs of a partition are free. */
    method NextIdle(p: nat) returns (latest: nat)
      requires Valid() && p < parts
      modifies clock
      ensures Valid() && latest >= clock.now >= old(clock.now)
      ensures forall a :: a in avail && a.part == p ==> avail[a] <= latest
      ensures latest == clock.now || exists a :: a in avail && a.part == p && latest == avail[a]
    {
      hide Ring.Valid, Timeline;
      latest := clock.Get();
      for i := 0 to chs
        invariant latest >= clock.now
        invariant forall a :: a in avail && a.part == p && a.ch < i ==> avail[a] <= latest
        invariant latest == clock.now || exists a :: a in avail && a.part == p && latest == avail[a]
      {
        for j := 0 to luns
          invariant latest >= clock.now
          invariant forall a :: a in avail && a.part == p && (a.ch < i || (a.ch == i && a.lun < j)) ==>
                      avail[a] <= latest
          invariant latest == clock.now || exists a :: a in avail && a.part == p && latest == avail[a]
        {
          latest := Max(latest, avail[Lun(p, i, j)]);
        }
      }
    }

    /** A flush waits for every command issued so far, on every LUN of every partition. */
    method Flush() returns (target: nat)
      requires Valid()
      modifies clock
      ensures Valid() && target >= old(clock.now)
      ensures forall i :: 0 <= i < |log| ==> log[i].end <= target
      ensures target <= clock.now || exists a :: a in avail && target == avail[a]
    {
      hide Ring.Valid;
      target := clock.Get();
      for p := 0 to parts
        invariant Valid() && target >= old(clock.now)
        invariant forall a :: a in avail && a.part < p ==> avail[a] <= target
        invariant target <= clock.now || exists a :: a in avail && target == avail[a]
      {
        var idle := NextIdle(p);
        target := Max(target, idle);
      }
    }

    /**
     A whole run: any commands on any LUNs, with a flush in between. The flush is no earlier than
     the end of every command before it, and on each LUN the commands follow one another.
     */
    method FlushAmid(before: seq<Issue>, after: seq<Issue>) returns (target: nat)
      requires Valid() && log == []
      requires forall i :: 0 <= i < |before| ==> before[i].at in avail && Sensible(before[i])
      requires forall i :: 0 <= i < |after| ==> after[i].at in avail && Sensible(after[i])
      modifies clock, Rings(), this`avail, this`log
      ensures Valid() && |log| == |before| + |after|
      ensures forall i :: 0 <= i < |before| ==> log[i].at == before[i].at && log[i].end <= target
      ensures forall i, j :: 0 <= i < j < |log| && log[i].at == log[j].at ==> log[i].end <= log[j].start
    {
      hide Valid;
      IssueAll(before);
      target := Flush();
      IssueAll(after);
      OneByOne();
    }

    lemma OneByOne()
      requires Valid()
      ensures forall i, j :: 0 <= i < j < |log| && log[i].at == log[j].at ==> log[i].end <= log[j].start
    {
      hide Ring.Valid;
    }

    method IssueAll(cmds: seq<Issue>)
      requires Valid()
      requires forall i :: 0 <= i < |cmds| ==> cmds[i].at in avail && Sensible(cmds[i])
      modifies clock, Rings(), this`avail, this`log
      ensures Valid() && avail.Keys == old(avail).Keys
      ensures |log| == |old(log)| + |cmds| && log[..|old(log)|] == old(log)
      ensures forall i :: 0 <= i < |cmds| ==> log[|old(log)| + i].at == cmds[i].at
      ensures forall a :: a in avail ==> avail[a] >= old(avail[a])
    {
      hide Valid, Spent;
      for k := 0 to |cmds|
        invariant Valid() && avail.Keys == old(avail).Keys
        invariant |log| == |old(log)| + k && log[..|old(log)|] == old(log)
        invariant forall i :: 0 <= i < k ==> log[|old(log)| + i].at == cmds[i].at
        invariant forall a :: a in avail ==> avail[a] >= old(avail[a])
      {
        ghost var l := log;
        var c := cmds[k];
        var _, _, _ := Advance(c.cmd, c.stime, c.at, c.pg, c.size, c.interleave);
        assert log[..|l|] == l;
        assert log[..|old(log)|] == l[..|old(log)|];
        forall i | 0 <= i <= k
          ensures log[|old(log)| + i].at == cmds[i].at
        {
          assert i < k ==> log[|old(log)| + i] == l[|old(log)| + i];
        }
      }
    }
  }

  datatype Issue = Issue(cmd: Command, stime: nat, at: Lun, pg: nat, size: nat, interleave: bool)

  /** The commands the translation layer issues: reads are never empty. */
  predicate Sensible(c: Issue) { c.cmd != Unsupported && (c.cmd == Read ==> c.size > 0) }
}
