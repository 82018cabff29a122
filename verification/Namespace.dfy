/**
 Host writes to a conventional namespace: the range check, the write buffer, the spreading of logical
 pages over the partitions, and the release of buffer space, which is scheduled whenever the last
 page of a word line is written and carried out later by an I/O worker.
 */
module Namespace {
  import opened Arithmetic
  import opened Geometry
  import opened WritePointers
  import opened Partitions
  import ConvFtl
  import opened LineLists
  import opened Sequences

  /** A host write of `nrLba` sectors from `lba` on. */
  datatype Command = Command(lba: nat, nrLba: nat)
  {
    function StartLpn(): nat { lba / SECS_PER_PG }

    function EndLpn(): nat { if nrLba == 0 then lba / SECS_PER_PG else (lba + nrLba - 1) / SECS_PER_PG }

    /** The logical pages it touches. */
    ghost function Touched(): set<nat> { Span(StartLpn(), EndLpn() + 1) }

    /** It starts and ends at a page boundary. */
    predicate Aligned() { lba % SECS_PER_PG == 0 && nrLba % SECS_PER_PG == 0 }

    /** What its pages take more than the sectors for which space is allocated. */
    function Excess(): nat
    {
      DivMono(lba, lba + nrLba, SECS_PER_PG);
      PGSZ * (EndLpn() - StartLpn() + 1) - SECSZ * nrLba
    }
  }

  ghost function Span(from: nat, to: nat): (s: set<nat>)
    ensures forall l: nat :: l in s <==> from <= l < to
  {
    if from >= to then {} else Span(from, to - 1) + {to - 1}
  }

  /** Space is allocated by sectors and released by pages: the two agree for whole pages only. */
  lemma ExcessIffUnaligned(c: Command)
    requires c.nrLba > 0
    ensures c.Excess() == 0 <==> c.Aligned()
  {
  }

  ghost function TotalExcess(cs: seq<Command>): nat
  {
    if cs == [] then 0 else TotalExcess(cs[..|cs| - 1]) + cs[|cs| - 1].Excess()
  }

  lemma TotalExcessAppend(cs: seq<Command>, c: Command)
    ensures TotalExcess(cs + [c]) == TotalExcess(cs) + c.Excess()
  {
    assert (cs + [c])[..|cs|] == cs;
  }

  /** Half a page over a page boundary: one page is allocated and two are released. */
  lemma ExcessExample()
    ensures TotalExcess([Command(4, 8)]) == PGSZ
  {
    TotalExcessAppend([], Command(4, 8));
    assert [] + [Command(4, 8)] == [Command(4, 8)];
  }

  ghost predicate AllAligned(cs: seq<Command>) { forall i :: 0 <= i < |cs| ==> cs[i].Aligned() }

  lemma {:induction false} TotalExcessIff(cs: seq<Command>)
    requires forall i :: 0 <= i < |cs| ==> cs[i].nrLba > 0
    ensures TotalExcess(cs) == 0 <==> AllAligned(cs)
  {
    if cs != [] {
      var n := |cs| - 1;
      TotalExcessIff(cs[..n]);
      ExcessIffUnaligned(cs[n]);
      assert cs == cs[..n] + [cs[n]];
    }
  }

  /** Where page `pg` of a block stands in its word line of `n` pages. */
  ghost function InLine(pg: nat, n: nat): nat { if n > 0 then pg % n else 0 }

  /** The place after `x` in a word line. */
  ghost function Next(x: nat, n: nat): nat { if x + 1 == n then 0 else x + 1 }

  lemma NextInWordLine(a: nat, b: nat, n: nat)
    requires ConvFtl.NextPage(a, b, n)
    ensures InLine(b, n) == Next(InLine(a, n), n)
  {
    NextInRow(a, n);
  }

  /** The releases scheduled after a write to page `pg` of a block: the last page of a word line adds one, of the whole
      word line, when a work entry is left. */
  ghost function Releases(scheduled: seq<nat>, pg: nat, n: nat, entryLeft: bool): seq<nat>
  {
    if n > 0 && pg % n == n - 1 && entryLeft then scheduled + [n * PGSZ] else scheduled
  }

  /** Logical page `lpn` is page `local` of partition `i` of `n`. */
  ghost predicate Home(lpn: nat, n: nat, i: nat, local: nat)
  {
    n > 0 && i == lpn % n && local == lpn / n
  }

  lemma LocalsAddAt(s: set<nat>, n: nat, lpn: nat, i: nat, local: nat, j: nat)
    requires Home(lpn, n, i, local)
    ensures n > 0 && Locals(s + {lpn}, n, j) == if j == i then Locals(s, n, j) + {local} else Locals(s, n, j)
  {
    LocalsAdd(s, n, lpn, j);
  }

  /** A page goes to the word line of partition `i`; a complete word line is handed back. */
  lemma NextSum(w: seq<nat>, i: nat, n: nat)
    requires i < |w| && n > 0
    ensures PGSZ * (Sum(w) + 1) == PGSZ * Sum(w[i := Next(w[i], n)]) + if w[i] == n - 1 then n * PGSZ else 0
  {
    hide Sum;
    SumUpdate(w, i, Next(w[i], n));
    var (before, after) := (Sum(w), Sum(w[i := Next(w[i], n)]));
    assert before + 1 == after + if w[i] == n - 1 then n else 0;
  }

  /** What the host reads after pages `from ..` up to `end` were written. */
  ghost function Painted(view: map<nat, nat>, from: nat, end: nat, marks: nat -> nat): map<nat, nat>
  {
    if from >= end then view else Painted(view, from, end - 1, marks)[end - 1 := marks(end - 1)]
  }

  lemma {:induction false} PaintedAt(view: map<nat, nat>, from: nat, end: nat, marks: nat -> nat)
    ensures forall l: nat :: l in Painted(view, from, end, marks) <==> l in view || from <= l < end
    ensures forall l: nat :: l in Painted(view, from, end, marks) ==>
              Painted(view, from, end, marks)[l] == if from <= l < end then marks(l) else view[l]
    decreases end
  {
    if from < end {
      PaintedAt(view, from, end - 1, marks);
    }
  }

  /** What the host reads of the local pages of each partition. */
  ghost function Views(parts: seq<ConvFtl.Ftl>): (vs: seq<map<nat, nat>>)
    reads parts
    ensures |vs| == |parts|
  {
    seq(|parts|, i requires 0 <= i < |parts| reads parts => ConvFtl.ViewOf(parts[i].maptbl, parts[i].stamps))
  }

  /** Logical page `l` is read from its partition as `x`. */
  ghost predicate Shown(vs: seq<map<nat, nat>>, l: nat, x: nat)
  {
    |vs| > 0 && l / |vs| in vs[l % |vs|] && vs[l % |vs|][l / |vs|] == x
  }

  ghost predicate ShowsAll(vs: seq<map<nat, nat>>, view: map<nat, nat>)
  {
    forall l :: l in view ==> Shown(vs, l, view[l])
  }

  ghost function Put(m: map<nat, nat>, l: nat, x: nat): map<nat, nat> { m[l := x] }

  /** A page is read as before unless it is the one that was written. */
  lemma ShownAfter(vs: seq<map<nat, nat>>, view: map<nat, nat>, lpn: nat, i: nat, local: nat, mark: nat)
    requires i < |vs| && Home(lpn, |vs|, i, local) && ShowsAll(vs, view)
    ensures ShowsAll(vs[i := Put(vs[i], local, mark)], view[lpn := mark])
  {
    var n := |vs|;
    var (vs', view') := (vs[i := Put(vs[i], local, mark)], view[lpn := mark]);
    forall l | l in view'
      ensures Shown(vs', l, view'[l])
    {
      if l != lpn {
        assert Shown(vs, l, view[l]);
        OtherHome(l, lpn, n);
      }
    }
  }

  lemma OtherHome(l: nat, m: nat, n: nat)
    requires n > 0 && l != m
    ensures l % n != m % n || l / n != m / n
  {
    assert l == l / n * n + l % n && m == m / n * n + m % n;
  }

  /** The partitions hold exactly the pages of `view`, which are read as it says, and their user lines are striped
      over the dies. */
  ghost predicate Reads(parts: seq<ConvFtl.Ftl>, view: map<nat, nat>)
    reads parts, Queues(parts), Buffers(parts)
  {
    hide ConvFtl.Ftl.Consistent;
    Hold(parts, view.Keys) && ShowsAll(Views(parts), view) && AllStriped(parts)
  }

  ghost predicate AllStriped(parts: seq<ConvFtl.Ftl>)
    reads parts
  {
    forall i :: 0 <= i < |parts| ==> Striped(parts[i].g, parts[i].pageCounter, parts[i].wpDie)
  }

  class Device {
    const parts: seq<ConvFtl.Ftl>
    const oneshot: nat             // pages of a word line
    const size: nat                // of the write buffer
    ghost const space: set<nat>    // the logical pages the host uses
    var remaining: nat
    var scheduled: seq<nat>        // releases not yet carried out
    ghost var view: map<nat, nat>  // what the host reads: of every page the mark of its last write
    ghost var accepted: seq<Command>
    ghost var lost: nat            // releases for which no work entry was left

    ghost predicate Fits()
    {
      && |parts| > 0 && oneshot > 0
      && (forall i :: 0 <= i < |parts| ==>
            parts[i].Room(Locals(space, |parts|, i)) && parts[i].g.pgsPerOneshot == oneshot)
      && (forall i :: 0 <= i < |parts| ==> parts[i].g.ttPgs == parts[0].g.ttPgs)
    }

    /** The device has logical page `lpn`. */
    predicate Inside(lpn: nat) { |parts| > 0 && lpn / |parts| < parts[0].g.ttPgs }

    lemma InsideMono(lpn: nat, to: nat)
      requires lpn <= to && Inside(to)
      ensures Inside(lpn)
    {
      DivMono(lpn, to, |parts|);
    }

    /** Pages in unfinished word lines, partition by partition. */
    ghost function Partial(): seq<nat>
      reads parts
      ensures |Partial()| == |parts|
    {
      seq(|parts|, i requires 0 <= i < |parts| reads parts => InLine(parts[i].wpPg, oneshot))
    }

    /**
     Conservation of buffer space, with `todo` pages of the current command still to be written: what
     remains, what the pages of unfinished word lines hold and what is about to be released
     make up the whole buffer, but for the excess of unaligned commands and for lost releases.
     */
    ghost predicate Balanced(todo: nat)
      reads this, parts
    {
      oneshot > 0 && remaining + PGSZ * (Sum(Partial()) + todo) + Sum(scheduled) + lost == size + TotalExcess(accepted)
    }

    ghost predicate Valid()
      reads this, parts, Queues(parts), Buffers(parts)
    {
      && Fits() && Reads(parts, view) && view.Keys <= space && Balanced(0)
      && forall i :: 0 <= i < |accepted| ==> accepted[i].nrLba > 0
    }

    /** No word line is unfinished and no release is due or was lost. */
    ghost predicate Quiet()
      reads this, parts
    {
      Sum(Partial()) == 0 && scheduled == [] && lost == 0
    }

    /**
     When all is quiet the free space is the buffer and what unaligned commands brought in, so it is
     within the buffer if and only if every command accepted so far was aligned. While they all
     are it never exceeds the buffer.
     */
    lemma WithinIffAligned()
      requires Valid()
      ensures Quiet() ==> remaining == size + TotalExcess(accepted)
      ensures Quiet() ==> (remaining <= size <==> AllAligned(accepted))
      ensures AllAligned(accepted) ==> remaining <= size
    {
      hide Reads, Fits, AllAligned, TotalExcess;
      TotalExcessIff(accepted);
    }

    constructor (geo: Geo, n: nat, bytes: nat, ghost lpns: set<nat>)
      requires geo.Ok() && geo.lines >= 5 && n > 0
      requires forall i :: 0 <= i < n ==> |Locals(lpns, n, i)| < (geo.lines - 4) * geo.pgsPerLine
      ensures Valid() && view == map[] && remaining == size == bytes && space == lpns && accepted == [] && lost == 0
      ensures |parts| == n && fresh(parts) && fresh(Queues(parts)) && fresh(Buffers(parts))
      ensures scheduled == [] && oneshot == geo.pgsPerOneshot && forall i :: 0 <= i < n ==> parts[i].g == geo
    {
      hide ConvFtl.Ftl.Consistent, Locals, Sum;
      var fs := NewPartitions(geo, n);
      parts := fs;
      oneshot := geo.pgsPerOneshot;
      size, remaining, scheduled := bytes, bytes, [];
      space, view, accepted, lost := lpns, map[], [], 0;
      new;
      forall i | 0 <= i < n
        ensures Locals({}, n, i) == {}
        ensures Striped(parts[i].g, parts[i].pageCounter, parts[i].wpDie)
      {
        LocalsEmpty(n, i);
        ConvFtl.StartsStriped(geo, parts[i].pageCounter);
      }
      assert view.Keys == {};
      forall i | 0 <= i < n
        ensures Partial()[i] == 0
      {
        DivUnique(0, oneshot, 0, 0);
      }
      SumZero(Partial());
      SumZero(scheduled);
    }

    /** One page of a host write goes to its partition; the others are untouched. */
    method StoreInPart(lpn: nat, i: nat, local: nat, ghost mark: nat, ghost keys: set<nat>)
      requires i < |parts| && local < parts[i].g.ttPgs && Home(lpn, |parts|, i, local)
      requires Fits() && Hold(parts, keys) && AllStriped(parts) && keys + {lpn} <= space
      modifies parts, Queues(parts), Buffers(parts)
      ensures Hold(parts, keys + {lpn}) && AllStriped(parts)
      ensures Views(parts) == old(Views(parts))[i := Put(old(Views(parts))[i], local, mark)]
      ensures InLine(parts[i].wpPg, oneshot) == Next(InLine(old(parts[i].wpPg), oneshot), oneshot)
      ensures forall j :: 0 <= j < |parts| && j != i ==> parts[j].wpPg == old(parts[j].wpPg)
    {
      hide ConvFtl.Ftl.Consistent, ConvFtl.Ftl.Room, Locals, Home, InLine, Next, ConvFtl.ViewOf, Striped,
           ConvFtl.StaysOne, ConvFtl.PaysOff, ConvFtl.NextPage;
      ghost var n := |parts|;
      LocalsAddAt(keys, n, lpn, i, local, i);
      LocalsMono(keys + {lpn}, space, n, i);
      RoomMono(parts[i], Locals(keys + {lpn}, n, i), Locals(space, n, i));
      ghost var v := parts[i].WriteOne(local, mark);
      NextInWordLine(old(parts[i].wpPg), parts[i].wpPg, oneshot);
      forall j | 0 <= j < n
        ensures parts[j].Consistent() && parts[j].maptbl.Keys == Locals(keys + {lpn}, n, j)
        ensures Striped(parts[j].g, parts[j].pageCounter, parts[j].wpDie)
        ensures j != i ==> parts[j].wpPg == old(parts[j].wpPg)
        ensures j != i ==> parts[j].maptbl == old(parts[j].maptbl) && parts[j].stamps == old(parts[j].stamps)
      {
        LocalsAddAt(keys, n, lpn, i, local, j);
        if j != i {
          assert parts[j] != parts[i] && parts[j].vq != parts[i].vq && parts[j].vq.d != parts[i].vq.d;
        }
      }
    }

    /** The page is read there from now on. */
    method StoreLpn(lpn: nat, i: nat, local: nat, ghost mark: nat)
      requires i < |parts| && local < parts[i].g.ttPgs && Home(lpn, |parts|, i, local)
      requires Fits() && Reads(parts, view) && view.Keys <= space && lpn in space
      modifies this`view, parts, Queues(parts), Buffers(parts)
      ensures Reads(parts, view) && view == old(view)[lpn := mark]
      ensures InLine(parts[i].wpPg, oneshot) == Next(InLine(old(parts[i].wpPg), oneshot), oneshot)
      ensures forall j :: 0 <= j < |parts| && j != i ==> parts[j].wpPg == old(parts[j].wpPg)
    {
      hide Home, InLine, Next, ShowsAll, Fits, ConvFtl.Ftl.Consistent, Locals, Striped, Put;
      ghost var vs := Views(parts);
      ShownAfter(vs, view, lpn, i, local, mark);
      StoreInPart(lpn, i, local, mark, view.Keys);
      view := view[lpn := mark];
      assert view.Keys == old(view.Keys) + {lpn};
    }

    /** The last page of a word line frees buffer space. */
    method WriteLpn(lpn: nat, entryLeft: bool, ghost todo: nat, ghost mark: nat)
      requires Fits() && Reads(parts, view) && view.Keys <= space && Balanced(todo + 1)
      requires lpn in space && Inside(lpn)
      modifies this`scheduled, this`view, this`lost, parts, Queues(parts), Buffers(parts)
      ensures scheduled == Releases(old(scheduled), old(parts[lpn % |parts|].wpPg), oneshot, entryLeft)
      ensures Reads(parts, view) && view == old(view)[lpn := mark] && Balanced(todo)
      ensures entryLeft ==> lost == old(lost)
    {
      hide Reads, ConvFtl.Ftl.Room, Sum, Next;
      var i := lpn % |parts|;
      var pg := parts[i].wpPg;
      NextSum(Partial(), i, oneshot);
      ghost var before := Partial();
      StoreLpn(lpn, i, lpn / |parts|, mark);
      assert Partial() == before[i := Next(before[i], oneshot)];
      if pg % oneshot == oneshot - 1 {
        ScheduleRelease(oneshot * PGSZ, entryLeft);
      }
    }

    /** A release becomes a work entry, if there is one left. */
    method ScheduleRelease(bytes: nat, entryLeft: bool)
      modifies this`scheduled, this`lost
      ensures scheduled == if entryLeft then old(scheduled) + [bytes] else old(scheduled)
      ensures Sum(scheduled) == old(Sum(scheduled)) + (if entryLeft then bytes else 0)
      ensures lost == old(lost) + (if entryLeft then 0 else bytes)
    {
      SumAppend(scheduled, bytes);
      if entryLeft {
        scheduled := scheduled + [bytes];
      } else {
        lost := lost + bytes;
      }
    }

    /** A worker carries out a scheduled release, in whichever order they fall due. */
    method Release(k: nat)
      requires Valid() && k < |scheduled|
      modifies this`remaining, this`scheduled
      ensures Valid() && remaining == old(remaining) + old(scheduled)[k]
      ensures scheduled == old(scheduled)[..k] + old(scheduled)[k + 1..]
    {
      hide ConvFtl.Ftl.Consistent, Fits, Sum, Locals;
      SumRemove(scheduled, k);
      remaining := remaining + scheduled[k];
      scheduled := scheduled[..k] + scheduled[k + 1..];
    }

    /**
     A host write. It is refused, and nothing changes, when it passes the end of the device or the
     buffer has no room for all of it; otherwise the host reads the
     marks of this write from exactly its logical pages, and from all others what it read before.
     A work entry for the release that page `l` brings is left if `left(l)`.
     */
    method Write(c: Command, left: nat -> bool, ghost marks: nat -> nat) returns (ok: bool)
      requires Valid() && c.nrLba > 0
      requires Inside(c.EndLpn()) ==> c.Touched() <= space
      modifies this`remaining, this`scheduled, this`view, this`lost, this`accepted,
               parts, Queues(parts), Buffers(parts)
      ensures Valid()
      ensures ok <==> Inside(c.EndLpn()) && old(remaining) >= SECSZ * c.nrLba
      ensures ok ==> view == Painted(old(view), c.StartLpn(), c.EndLpn() + 1, marks) && accepted == old(accepted) + [c]
      ensures ok ==> remaining == old(remaining) - SECSZ * c.nrLba
      ensures (forall l :: left(l)) ==> lost == old(lost)
      ensures !ok ==> view == old(view) && remaining == old(remaining) && scheduled == old(scheduled)
                      && accepted == old(accepted) && lost == old(lost)
    {
      hide Reads, Balanced, Fits, Inside;
      var (from, to) := (c.StartLpn(), c.EndLpn());
      if !Inside(to) {
        return false;
      }
      if remaining < SECSZ * c.nrLba {
        return false;
      }
      DivMono(c.lba, c.lba + c.nrLba - 1, SECS_PER_PG);
      Allocate(c);
      WriteLpns(from, to, left, marks);
      ok := true;
    }

    method WriteLpns(from: nat, to: nat, left: nat -> bool, ghost marks: nat -> nat)
      requires Fits() && Reads(parts, view) && view.Keys <= space && from <= to && Balanced(to + 1 - from)
      requires Span(from, to + 1) <= space && Inside(to)
      modifies this`scheduled, this`view, this`lost, parts, Queues(parts), Buffers(parts)
      ensures Reads(parts, view) && Balanced(0) && view == Painted(old(view), from, to + 1, marks)
      ensures view.Keys <= space
      ensures (forall l :: left(l)) ==> lost == old(lost)
    {
      hide Reads, Balanced, Fits, Inside;
      var lpn := from;
      while lpn <= to
        invariant from <= lpn <= to + 1
        invariant Reads(parts, view) && Balanced(to + 1 - lpn) && view == Painted(old(view), from, lpn, marks)
        invariant view.Keys <= space
        invariant (forall l :: left(l)) ==> lost == old(lost)
      {
        InsideMono(lpn, to);
        WriteLpn(lpn, left(lpn), to - lpn, marks(lpn));
        lpn := lpn + 1;
      }
    }

    method Allocate(c: Command)
      requires c.nrLba > 0 && Balanced(0) && remaining >= SECSZ * c.nrLba
      modifies this`remaining, this`accepted
      ensures c.EndLpn() >= c.StartLpn() && Balanced(c.EndLpn() - c.StartLpn() + 1)
      ensures remaining == old(remaining) - SECSZ * c.nrLba && accepted == old(accepted) + [c]
    {
      DivMono(c.lba, c.lba + c.nrLba - 1, SECS_PER_PG);
      TotalExcessAppend(accepted, c);
      remaining := remaining - SECSZ * c.nrLba;
      accepted := accepted + [c];
    }

    /** The workers carry out all scheduled releases. */
    method Drain()
      requires Valid()
      modifies this`remaining, this`scheduled
      ensures Valid() && scheduled == []
    {
      hide Valid;
      while scheduled != []
        invariant Valid()
        decreases |scheduled|
      {
        Release(0);
      }
    }
  }

  datatype Step = WriteStep(command: Command, left: nat -> bool) | ReleaseStep(index: nat)

  /** A step asks only for pages of the given space that are in the device. */
  ghost predicate Within(s: Step, space: set<nat>, n: nat, ttPgs: nat)
    requires n > 0
  {
    s.WriteStep? ==> s.command.nrLba > 0 && (s.command.EndLpn() / n < ttPgs ==> s.command.Touched() <= space)
  }

  /** The commands among the steps that were accepted. */
  ghost function Accepted(steps: seq<Step>, oks: seq<bool>): seq<Command>
    requires |oks| == |steps|
  {
    if steps == [] then []
    else
      var n := |steps| - 1;
      Accepted(steps[..n], oks[..n]) + if steps[n].WriteStep? && oks[n] then [steps[n].command] else []
  }

  ghost function Mark(k: nat): nat -> nat { (_: nat) => k }

  /** What the host reads after the steps: of every page the number of the last accepted write that touched it. */
  ghost function LastWrites(steps: seq<Step>, oks: seq<bool>): map<nat, nat>
    requires |oks| == |steps|
  {
    if steps == [] then map[]
    else
      var n := |steps| - 1;
      var view := LastWrites(steps[..n], oks[..n]);
      if steps[n].WriteStep? && oks[n] then
        Painted(view, steps[n].command.StartLpn(), steps[n].command.EndLpn() + 1, Mark(n))
      else view
  }

  /**
   Any run of writes and releases on a new device. The host reads from every page its last accepted write. When all is
   quiet at its end, the free space is within the buffer if and only if every accepted command was aligned.
   */
  method Run(geo: Geo, n: nat, bytes: nat, ghost space: set<nat>, steps: seq<Step>) returns (d: Device, oks: seq<bool>)
    requires geo.Ok() && geo.lines >= 5 && n > 0
    requires forall i :: 0 <= i < n ==> |Locals(space, n, i)| < (geo.lines - 4) * geo.pgsPerLine
    requires forall i :: 0 <= i < |steps| ==> Within(steps[i], space, n, geo.ttPgs)
    ensures d.Valid() && d.size == bytes && |oks| == |steps| && d.accepted == Accepted(steps, oks)
    ensures d.view == LastWrites(steps, oks)
    ensures d.Quiet() ==> d.remaining == bytes + TotalExcess(Accepted(steps, oks))
    ensures d.Quiet() ==> (d.remaining <= bytes <==> AllAligned(Accepted(steps, oks)))
    ensures AllAligned(Accepted(steps, oks)) ==> d.remaining <= bytes
  {
    hide Device.Valid, Device.Quiet, TotalExcess, AllAligned, Locals, Geo.Ok, Painted, Mark;
    d := new Device(geo, n, bytes, space);
    oks := [];
    for k := 0 to |steps|
      invariant fresh(d) && fresh(d.parts) && fresh(Queues(d.parts)) && fresh(Buffers(d.parts))
      invariant |d.parts| == n && d.parts[0].g == geo && d.space == space && d.size == bytes
      invariant d.Valid() && |oks| == k && d.accepted == Accepted(steps[..k], oks)
      invariant d.view == LastWrites(steps[..k], oks)
    {
      var ok := false;
      match steps[k] {
        case WriteStep(c, left) =>
          ok := d.Write(c, left, Mark(k));
        case ReleaseStep(i) =>
          if i < |d.scheduled| {
            d.Release(i);
          }
      }
      assert steps[..k + 1][..k] == steps[..k] && (oks + [ok])[..k] == oks;
      oks := oks + [ok];
    }
    assert steps[..|steps|] == steps;
    d.WithinIffAligned();
  }

  /**
   A run after which there is more free space than the buffer has: with word lines of one page, eight
   sectors across a page boundary allocate one page and release two.
   */
  method OverfullRun() returns (d: Device)
    ensures d.Valid() && d.remaining == d.size + PGSZ
  {
    hide Device.Valid, Locals, Geo.Ok, TotalExcess;
    var geo := TinyGeo();
    TwoPages();
    d := new Device(geo, 1, PGSZ, {0, 1});
    var c := Command(4, 8);
    ExcessExample();
    assert d.accepted + [c] == [c];
    var ok := d.Write(c, _ => true, _ => 0);
    d.Drain();
    SinglePageLines(d);
    d.WithinIffAligned();
  }

  /** One die, blocks of four pages, five lines, and word lines of one page. */
  function TinyGeo(): (g: Geo)
    ensures g.Ok() && g.lines == 5 && g.pgsPerLine == 4 && g.ttPgs == 20 && g.pgsPerOneshot == 1
  {
    InitParams(1, 1, 1, 1, 4, 5)
  }

  lemma TwoPages()
    ensures forall i :: 0 <= i < 1 ==> |Locals({0, 1}, 1, i)| < 4
  {
    SubsetCard(Locals({0, 1}, 1, 0), {0, 1});
  }

  lemma SinglePageLines(d: Device)
    requires d.oneshot == 1
    ensures Sum(d.Partial()) == 0
  {
    SumZero(d.Partial());
  }
}
