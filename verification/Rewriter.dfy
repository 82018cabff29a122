/**
 The fragmenting rewriter: writes the mapped logical pages of the namespace again, to a new device,
 chunk by chunk. A chunk may be parked on a die and is preferred again when the write pointer
 comes back to that die; slices take turns; random draws decide where the pointer goes.

 Whatever the draws, every logical page is written exactly once and the loop ends.
 */
module Rewriter {
  import opened Arithmetic
  import opened Geometry
  import opened Chunks
  import opened LineLists
  import opened Partitions
  import ConvFtl

  /** How the rewriting of a chunk stopped; `at` is the next page to write. */
  datatype Outcome =
    | Finished
    | Park(at: nat, die: Die)
    | Pause(at: nat)
    | Preempt(at: nat, index: nat)

  /** What is left of a chunk. */
  function Rest(c: Chunk, r: Outcome): Chunk
  {
    c.(start := if r.Finished? then c.end + 1 else r.at)
  }

  // ----- Taking turns -----

  function Wrap(x: nat, n: nat): nat { if x >= n then x - n else x }

  /** Partition `i` has an active chunk. */
  ghost predicate HasChunk(active: seq<seq<Chunk>>, num: nat, i: nat)
  {
    exists c :: 0 <= c < num && Slot(i, c, num) < |active| && active[Slot(i, c, num)] != []
  }

  /** The turn passes to the next slice of a partition with an active chunk, else to the next partition. */
  ghost function Passed(active: seq<seq<Chunk>>, num: nat, parts: nat, i: nat, c: nat): (nat, nat)
  {
    if HasChunk(active, num, i) then (i, Wrap(c + 1, num)) else (Wrap(i + 1, parts), 0)
  }

  /** The list that is served next: the turn passes on when it is over, or when the list has no active chunk. */
  ghost function TurnOf(active: seq<seq<Chunk>>, num: nat, parts: nat, i: nat, c: nat, on: bool): (nat, nat)
  {
    if on && Slot(i, c, num) < |active| && active[Slot(i, c, num)] != [] then (i, c)
    else Passed(active, num, parts, i, c)
  }

  /**
   How far the turn has to go from slice `c` of partition `i` to a list with an active chunk: `b`
   slices if the partition has one, else `a` partitions.
   */
  ghost predicate Ahead(active: seq<seq<Chunk>>, num: nat, parts: nat, i: nat, c: nat, a: nat, b: nat)
  {
    if HasChunk(active, num, i) then
      a == 0 && b < num && c < num && Slot(i, Wrap(c + b, num), num) < |active|
          && active[Slot(i, Wrap(c + b, num), num)] != []
    else
      0 < a < parts && i < parts && HasChunk(active, num, Wrap(i + a, parts))
  }

  /** The turn can always reach a list with an active chunk if there is one. */
  lemma FindAhead(active: seq<seq<Chunk>>, num: nat, parts: nat, i: nat, c: nat, k: nat) returns (a: nat, b: nat)
    requires num > 0 && i < parts && c < num && |active| == parts * num && k < |active| && active[k] != []
    ensures Ahead(active, num, parts, i, c, a, b)
  {
    if HasChunk(active, num, i) {
      var x :| 0 <= x < num && Slot(i, x, num) < |active| && active[Slot(i, x, num)] != [];
      a, b := 0, if x >= c then x - c else x + num - c;
      assert Wrap(c + b, num) == x;
    } else {
      var (p, x) := (k / num, k % num);
      SlotBack(k, num, parts);
      assert Slot(p, x, num) == k;
      assert HasChunk(active, num, p);
      a, b := if p >= i then p - i else p + parts - i, 0;
      assert Wrap(i + a, parts) == p;
    }
  }

  lemma SlotBack(k: nat, num: nat, parts: nat)
    requires num > 0 && k < parts * num
    ensures Slot(k / num, k % num, num) == k && k / num < parts
  {
    if k / num >= parts {
      MulLe(parts, k / num, num);
    }
  }

  /** Passing the turn on from an empty list brings it nearer. */
  lemma AheadStep(active: seq<seq<Chunk>>, num: nat, parts: nat, i: nat, c: nat, a: nat, b: nat) returns (a': nat,
      b': nat)
    requires num > 0 && i < parts && c < num && |active| == parts * num && Ahead(active, num, parts, i, c, a, b)
    requires Slot(i, c, num) < |active| && active[Slot(i, c, num)] == []
    ensures var (i', c') := Passed(active, num, parts, i, c);
            Ahead(active, num, parts, i', c', a', b') && (a' < a || (a' == a && b' < b))
  {
    if HasChunk(active, num, i) {
      assert b > 0;
      a', b' := 0, b - 1;
      assert Wrap(Wrap(c + 1, num) + (b - 1), num) == Wrap(c + b, num);
    } else {
      var i' := Wrap(i + 1, parts);
      if HasChunk(active, num, i') {
        var x :| 0 <= x < num && Slot(i', x, num) < |active| && active[Slot(i', x, num)] != [];
        a', b' := 0, x;
        assert Wrap(0 + x, num) == x;
      } else {
        assert a > 1;
        a', b' := a - 1, 0;
        assert Wrap(i' + (a - 1), parts) == Wrap(i + a, parts);
      }
    }
  }

  lemma NonEmptyReplace(lists: seq<seq<Chunk>>, k: nat, j: nat, c: Chunk)
    requires NonEmpty(lists) && k < |lists| && j < |lists[k]| && c.start <= c.end
    ensures NonEmpty(lists[k := lists[k][j := c]])
  {
  }

  /** The parked and active lists after pages of parked chunk `j` of list `k` were written: it is taken
      out, becomes active, or stays parked. */
  function Settled(parked: seq<seq<Chunk>>, active: seq<seq<Chunk>>, k: nat, j: nat, r: Outcome, conti: int)
    : (seq<seq<Chunk>>, seq<seq<Chunk>>)
    requires k < |parked| == |active| && j < |parked[k]| && !r.Preempt?
  {
    var c := parked[k][j];
    match r
    case Finished => (Removed(parked, k, j), active)
    case Pause(at) => (Removed(parked, k, j), Appended(active, k, c.(start := at, die := None, conti := -1)))
    case Park(at, die) => (parked[k := parked[k][j := c.(start := at, die := Some(die), conti := conti)]], active)
  }

  /** The active and parked lists after pages of active chunk `j` of list `k` were written: it is taken out, is parked
      on the die of its last page, or stays where it is. */
  function Visited(active: seq<seq<Chunk>>, parked: seq<seq<Chunk>>, k: nat, j: nat, r: Outcome, conti: int)
    : (seq<seq<Chunk>>, seq<seq<Chunk>>)
    requires k < |parked| == |active| && j < |active[k]| && !r.Preempt?
  {
    var c := active[k][j];
    match r
    case Finished => (Removed(active, k, j), parked)
    case Pause(at) => (active[k := active[k][j := c.(start := at, conti := -1)]], parked)
    case Park(at, die) =>
      (Removed(active, k, j), Appended(parked, k, c.(start := at, die := Some(die), conti := conti)))
  }

  /** Active chunk `j` of list `k` gave way to the parked chunk at `r.index`, which was served with outcome `r'`: the
      first goes on where it stopped, and the second is settled. */
  ghost predicate GaveWay(active: seq<seq<Chunk>>, parked: seq<seq<Chunk>>, k: nat, j: nat, r: Outcome, conti: int,
                          r': Outcome, conti': int, active': seq<seq<Chunk>>, parked': seq<seq<Chunk>>)
  {
    && k < |parked| == |active| && j < |active[k]| && r.Preempt? && r.index < |parked[k]| && !r'.Preempt?
    && var kept := active[k := active[k][j := active[k][j].(start := r.at, die := None, conti := conti)]];
       (parked', active') == Settled(parked, kept, k, r.index, r', conti')
  }

  lemma SettleStep(target: set<nat>, before: set<nat>, done: set<nat>, parked: seq<seq<Chunk>>,
                   active: seq<seq<Chunk>>, num: nat, n: nat, k: nat, j: nat, r: Outcome, conti: int)
    requires n > 0 && num > 0 && |active| == |parked| == n * num && k < |parked| && j < |parked[k]| && !r.Preempt?
    requires Covered(target, before, active, parked, n)
    requires Shaped(active, num, n) && Shaped(parked, num, n) && NonEmpty(parked)
    requires var c := parked[k][j];
             && (!r.Finished? ==> r.at % n == c.idx && c.start <= r.at <= c.end)
             && done == before + (Lpns(c, n) - Lpns(Rest(c, r), n))
    ensures var (parked', active') := Settled(parked, active, k, j, r, conti);
            && |active'| == |parked'| == |active| && |active'[k]| >= |active[k]|
            && (forall i :: 0 <= i < |active| && i != k ==> active'[i] == active[i] && parked'[i] == parked[i])
            && Covered(target, done, active', parked', n)
            && Shaped(active', num, n) && Shaped(parked', num, n) && NonEmpty(parked')
            && TotalLen(active') + TotalLen(parked') <= TotalLen(active) + TotalLen(parked)
  {
    hide Covered, Shaped, NonEmpty, Pending, TotalLen;
    var c := parked[k][j];
    var (parked', active') := Settled(parked, active, k, j, r, conti);
    CoveredSwap(target, before, active, parked, n);
    match r {
      case Finished =>
        NoLpns(Rest(c, r), n);
        assert Lpns(c, n) - {} == Lpns(c, n);
        DropStep(target, before, parked, active, num, n, k, j);
      case Pause(at) =>
        MoveStep(target, before, parked, active, num, n, k, j, c.(start := at, die := None, conti := -1));
      case Park(at, die) =>
        KeepStep(target, before, parked, active, num, n, k, j, c.(start := at, die := Some(die), conti := conti));
        NonEmptyReplace(parked, k, j, c.(start := at, die := Some(die), conti := conti));
    }
    CoveredSwap(target, done, parked', active', n);
  }

  /** The first chunk of a list that is parked on die `d` is the one at `index`. */
  ghost predicate FirstOn(cs: seq<Chunk>, d: Die, index: nat)
  {
    index < |cs| && cs[index].die == Some(d) && NoneOn(cs[..index], d)
  }

  /** No chunk of a list is parked on die `d`. */
  ghost predicate NoneOn(cs: seq<Chunk>, d: Die) { forall j :: 0 <= j < |cs| ==> cs[j].die != Some(d) }

  /** The numbers `start`, `start + n`, ... below `end`. */
  ghost function Numbers(start: nat, n: nat, end: nat): seq<nat>
    requires n > 0
    decreases end - start
  {
    if start >= end then [] else [start] + Numbers(start + n, n, end)
  }

  lemma NumbersNone(start: nat, n: nat, end: nat)
    requires n > 0
    ensures Numbers(start, n, start) == [] && (start > end ==> Numbers(start, n, end + 1) == [])
  {
  }

  lemma {:induction false} NumbersNext(start: nat, n: nat, l: nat)
    requires n > 0 && start <= l && start % n == l % n
    ensures Numbers(start, n, l + n) == Numbers(start, n, l) + [l]
    decreases l - start
  {
    if start < l {
      ModGap(start, l, n);
      ModAdd(start, n);
      NumbersNext(start + n, n, l);
    } else {
      assert Numbers(l + n, n, l + n) == [];
    }
  }

  /** Between two numbers of the sequence nothing is added. */
  lemma {:induction false} NumbersEnd(start: nat, n: nat, end: nat, l: nat)
    requires n > 0 && start <= l && start % n == l % n && end < l <= end + n
    ensures Numbers(start, n, end + 1) == Numbers(start, n, l)
    decreases l - start
  {
    if start < l {
      ModGap(start, l, n);
      ModAdd(start, n);
      NumbersEnd(start + n, n, end, l);
    }
  }

  /**
   The pages of a chunk below `at`, and no others, were written, once each and in order; `log` and `count` follow.
   */
  ghost predicate Wrote(c: Chunk, n: nat, at: nat, done: set<nat>, done': set<nat>, log: seq<nat>, log': seq<nat>,
                        count: int, count': int)
    requires n > 0
  {
    && done' == done + (Lpns(c, n) - Lpns(c.(start := at), n))
    && log' == log + Numbers(c.start, n, at)
    && count' == count + |log'| - |log|
  }

  lemma WroteNone(c: Chunk, n: nat, done: set<nat>, log: seq<nat>, count: int)
    requires n > 0
    ensures Wrote(c, n, c.start, done, done, log, log, count, count)
  {
    assert c.(start := c.start) == c;
  }

  /** The next page of the chunk has not been written. */
  lemma WroteDone(c: Chunk, n: nat, l: nat, done: set<nat>, done': set<nat>, log: seq<nat>, log': seq<nat>,
                  count: int, count': int)
    requires n > 0 && Wrote(c, n, l, done, done', log, log', count, count') && c.start <= l <= c.end
    requires l % n == c.idx && Lpns(c, n) !! done
    ensures l in Lpns(c, n) && l !in done' && done <= done' <= done + Lpns(c, n)
  {
  }

  lemma WroteNext(c: Chunk, n: nat, l: nat, done: set<nat>, done': set<nat>, log: seq<nat>, log': seq<nat>,
                  count: int, count': int)
    requires n > 0 && Wrote(c, n, l, done, done', log, log', count, count') && c.start <= l <= c.end
    requires l % n == c.idx == c.start % n
    ensures Wrote(c, n, l + n, done, done' + {l}, log, log' + [l], count, count' + 1)
  {
    FirstLpn(c.(start := l), n);
    NumbersNext(c.start, n, l);
    assert Lpns(c, n) - Lpns(c.(start := l + n), n) == (Lpns(c, n) - Lpns(c.(start := l), n)) + {l};
  }

  /** Past its end the whole chunk is written. */
  lemma WroteAll(c: Chunk, n: nat, l: nat, done: set<nat>, done': set<nat>, log: seq<nat>, log': seq<nat>,
                 count: int, count': int)
    requires n > 0 && Wrote(c, n, l, done, done', log, log', count, count') && c.start <= l && c.end < l
    requires l % n == c.idx == c.start % n && (c.start < l ==> l <= c.end + n)
    ensures Wrote(c, n, c.end + 1, done, done', log, log', count, count')
  {
    hide Lpns, Numbers;
    NoLpns(c.(start := l), n);
    NoLpns(c.(start := c.end + 1), n);
    if c.start < l {
      NumbersEnd(c.start, n, c.end, l);
    } else {
      NumbersNone(c.start, n, c.end);
    }
  }

  /** No chunk of a list was parked on the die of any of the last writes. */
  ghost predicate Unclaimed(cs: seq<Chunk>, dies: seq<Die>, dies': seq<Die>)
  {
    |dies| <= |dies'| && forall i :: |dies| <= i < |dies'| ==> NoneOn(cs, dies'[i])
  }

  /**
   How the rewriting of chunk `c` of `n` partitions stops, with chunks `cs` parked, unless it is `forced` to go on past
   those, and `limit` pages to a turn. All pages before the stop were written, in order. It stops at the end of the
   turn, if it began before it, and no sooner unless it is finished or preempted: by the first chunk parked on the die
   `d` under the pointer. No page was written to a die that a parked chunk claims. A chunk that parks does so on the die
   of its last page.
   */
  ghost predicate Stops(c: Chunk, n: nat, cs: seq<Chunk>, forced: bool, r: Outcome, limit: int, d: Die,
                        done: set<nat>, done': set<nat>, log: seq<nat>, log': seq<nat>, dies: seq<Die>, dies': seq<Die>,
                        count: int, count': int)
    requires n > 0
  {
    && Wrote(c, n, Rest(c, r).start, done, done', log, log', count, count')
    && (count < limit ==> count' <= limit && (r.Preempt? ==> count' < limit))
    && (r.Park? || r.Pause? ==> count' >= limit)
    && (c.start <= Rest(c, r).start || c.start > c.end)
    && (!r.Finished? ==> r.at % n == c.idx && c.start <= r.at <= c.end)
    && (r.Preempt? ==> !forced && FirstOn(cs, d, r.index))
    && (!forced ==> Unclaimed(cs, dies, dies'))
    && (r.Park? ==> dies' != [] && r.die == dies'[|dies'| - 1])
    && (!r.Preempt? && c.start <= c.end ==> c.start in done' && c.start < Rest(c, r).start)
  }

  lemma StopsCounts(c: Chunk, n: nat, cs: seq<Chunk>, forced: bool, r: Outcome, limit: int, d: Die, done: set<nat>,
                    done': set<nat>, log: seq<nat>, log': seq<nat>, dies: seq<Die>, dies': seq<Die>, count: int,
                    count': int)
    requires n > 0 && Stops(c, n, cs, forced, r, limit, d, done, done', log, log', dies, dies', count, count')
    ensures count' - count == |log'| - |log| >= 0
    ensures count < limit ==> if r.Preempt? then count' < limit else count' <= limit && (r.Finished? || count' == limit)
  {
  }

  /** As Stops, amid the rewriting, before page `l`: all pages before it were written, and the turn is not over. */
  ghost predicate Going(c: Chunk, n: nat, cs: seq<Chunk>, forced: bool, l: nat, limit: int, done: set<nat>,
                        done': set<nat>, log: seq<nat>, log': seq<nat>, dies: seq<Die>, dies': seq<Die>,
                        count: int, count': int)
    requires n > 0
  {
    && Wrote(c, n, l, done, done', log, log', count, count')
    && c.start <= l && l % n == c.idx == c.start % n
    && (if c.start == l then count' == count else c.start in done' && count' < limit && l <= c.end + n)
    && (!forced ==> Unclaimed(cs, dies, dies'))
  }

  lemma GoingStart(c: Chunk, n: nat, cs: seq<Chunk>, forced: bool, limit: int, done: set<nat>, log: seq<nat>,
                   dies: seq<Die>, count: int)
    requires n > 0 && c.start % n == c.idx
    ensures Going(c, n, cs, forced, c.start, limit, done, done, log, log, dies, dies, count, count)
  {
    hide Wrote;
    WroteNone(c, n, done, log, count);
  }

  /** One more page, on die `d`, either goes on or ends the turn. */
  lemma GoingNext(c: Chunk, n: nat, cs: seq<Chunk>, forced: bool, l: nat, limit: int, d: Die, at: Die, park: bool,
                  done: set<nat>, done': set<nat>, log: seq<nat>, log': seq<nat>, dies: seq<Die>, dies': seq<Die>,
                  count: int, count': int)
    requires n > 0 && Going(c, n, cs, forced, l, limit, done, done', log, log', dies, dies', count, count')
    requires l <= c.end && (!forced ==> cs == [] || NoneOn(cs, d)) && (park ==> count' + 1 >= limit)
    ensures var (done'', log'', dies'') := (done' + {l}, log' + [l], dies' + [d]);
            if !park && count' + 1 < limit then
              Going(c, n, cs, forced, l + n, limit, done, done'', log, log'', dies, dies'', count, count' + 1)
            else
              Stops(c, n, cs, forced, if l + n > c.end then Finished else if park then Park(l + n, d)
                    else Pause(l + n), limit, at, done, done'', log, log'', dies, dies'', count, count' + 1)
  {
    hide Wrote, FirstOn, Lpns;
    WroteNext(c, n, l, done, done', log, log', count, count');
    ModAdd(l, n);
    if c.start < l {
    } else {
      assert c.start in done' + {l};
    }
    if l + n > c.end {
      WroteAll(c, n, l + n, done, done' + {l}, log, log' + [l], count, count' + 1);
    }
  }

  /** Past its end the chunk is finished. */
  lemma GoingEnd(c: Chunk, n: nat, cs: seq<Chunk>, forced: bool, l: nat, limit: int, d: Die, done: set<nat>,
                 done': set<nat>, log: seq<nat>, log': seq<nat>, dies: seq<Die>, dies': seq<Die>, count: int,
                 count': int)
    requires n > 0 && Going(c, n, cs, forced, l, limit, done, done', log, log', dies, dies', count, count') && l > c.end
    ensures Stops(c, n, cs, forced, Finished, limit, d, done, done', log, log', dies, dies', count, count')
  {
    hide Wrote, FirstOn, Unclaimed, Lpns;
    WroteAll(c, n, l, done, done', log, log', count, count');
  }

  /** The first chunk parked on the die under the pointer is preferred. */
  lemma GoingPreempt(c: Chunk, n: nat, cs: seq<Chunk>, l: nat, limit: int, d: Die, index: nat, done: set<nat>,
                     done': set<nat>, log: seq<nat>, log': seq<nat>, dies: seq<Die>, dies': seq<Die>, count: int,
                     count': int)
    requires n > 0 && Going(c, n, cs, false, l, limit, done, done', log, log', dies, dies', count, count') && l <= c.end
    requires FirstOn(cs, d, index)
    ensures Stops(c, n, cs, false, Preempt(l, index), limit, d, done, done', log, log', dies, dies', count, count')
  {
    hide Wrote, FirstOn, Unclaimed, Lpns;
  }

  /** The next page of the chunk has not been written. */
  lemma GoingDone(c: Chunk, n: nat, cs: seq<Chunk>, forced: bool, l: nat, limit: int, done: set<nat>, done': set<nat>,
                  log: seq<nat>, log': seq<nat>, dies: seq<Die>, dies': seq<Die>, count: int, count': int)
    requires n > 0 && Going(c, n, cs, forced, l, limit, done, done', log, log', dies, dies', count, count')
        && l <= c.end
    requires Lpns(c, n) !! done
    ensures l in Lpns(c, n) && l !in done' && done <= done' <= done + Lpns(c, n) && l % n == c.idx
  {
    hide Wrote, Unclaimed, Lpns;
    WroteDone(c, n, l, done, done', log, log', count, count');
  }

  /** Every page has its place in its partition, and no partition gets too many. */
  ghost predicate Enough(geo: Geo, n: nat, pages: set<nat>)
  {
    && n > 0 && geo.lines >= 4
    && (forall i :: 0 <= i < n ==> |Locals(pages, n, i)| < (geo.lines - 4) * geo.pgsPerLine)
    && (forall l :: l in pages ==> l / n < geo.ttPgs)
  }

  class Cleaner {
    const num: nat                 // slices
    const parts: seq<ConvFtl.Ftl>  // the new partitions
    const degree: int
    const maxCon: int
    ghost const target: set<nat>   // the logical pages to be written
    var active: seq<seq<Chunk>>
    var parked: seq<seq<Chunk>>
    var count: int
    ghost var done: set<nat>       // the logical pages written so far
    ghost var log: seq<nat>        // the writes, in order
    ghost var dies: seq<Die>       // the die the pointer stood on at each of them

    /** The partitions hold exactly the pages written so far, and each was written once. */
    ghost predicate PartsOk()
      reads this`done, this`log, this`dies, parts, Queues(parts), Buffers(parts)
    {
      Hold(parts, done) && multiset(log) == multiset(done) && |dies| == |log|
    }

    /** The pages to be written fit into the partitions. */
    ghost predicate Fits()
      requires |parts| > 0
    {
      && (forall i :: 0 <= i < |parts| ==> parts[i].Room(Locals(target, |parts|, i)))
      && (forall l, i :: l in target && 0 <= i < |parts| ==> l / |parts| < parts[i].g.ttPgs)
      && (forall i :: 0 <= i < |parts| ==> parts[i].g.pgsPerOneshot == parts[0].g.pgsPerOneshot)
    }

    /** The new partitions are empty, and every chunk is active. */
    constructor (geo: Geo, n: nat, slices: nat, lists: seq<seq<Chunk>>, ghost pages: set<nat>, deg: int, con: int)
      requires geo.Ok() && geo.lines >= 5 && n > 0 && slices > 0
      requires |lists| == n * slices && Shaped(lists, slices, n) && Pending(lists, n) == multiset(pages)
      requires Enough(geo, n, pages)
      ensures |parts| == n && num == slices && target == pages && fresh(parts) && fresh(Queues(parts))
          && fresh(Buffers(parts))
      ensures Inv() && NoneStuck()
    {
      hide ConvFtl.Ftl.Consistent, Locals, Covered, Shaped, NonEmpty, Pending, Fits, Geo.Ok, Enough, Inv, NoneStuck;
      var fs := NewPartitions(geo, n);
      num := slices;
      parts := fs;
      degree := deg;
      maxCon := con;
      target := pages;
      active := lists;
      parked := seq(|lists|, _ => []);
      count := 0;
      done := {};
      log, dies := [], [];
      new;
      StartInv(geo);
    }

    /** With empty partitions and nothing parked the invariant holds. */
    lemma StartInv(geo: Geo)
      requires |parts| > 0 && num > 0 && |active| == |parked| == |parts| * num && done == {} && log == [] && dies == []
      requires forall k :: 0 <= k < |parked| ==> parked[k] == []
      requires forall i :: 0 <= i < |parts| ==> parts[i].g == geo
      requires Hold(parts, {}) && Enough(geo, |parts|, target)
      requires Shaped(active, num, |parts|) && Pending(active, |parts|) == multiset(target)
      ensures Inv() && NoneStuck()
    {
      hide Hold, Locals, Covered, Shaped, NonEmpty, Pending, Fits, Enough;
      StartCovered(target, active, parked, num, |parts|);
      StartFits(geo);
    }

    lemma StartFits(geo: Geo)
      requires |parts| > 0 && forall i :: 0 <= i < |parts| ==> parts[i].g == geo
      requires Enough(geo, |parts|, target)
      ensures Fits()
    {
    }

    static lemma StartCovered(pages: set<nat>, lists: seq<seq<Chunk>>, parked: seq<seq<Chunk>>, num: nat, n: nat)
      requires n > 0 && Pending(lists, n) == multiset(pages)
      requires |parked| == |lists| && forall k :: 0 <= k < |parked| ==> parked[k] == []
      ensures Covered(pages, {}, lists, parked, n) && Shaped(parked, num, n) && NonEmpty(parked)
    {
      PendingEmpty(parked, n);
      assert multiset({}) + (Pending(lists, n) + Pending(parked, n)) == Pending(lists, n);
    }

    /** As many pages are written before another slice gets its turn. */
    function Limit(): nat
      requires |parts| > 0
    {
      16 * parts[0].g.pgsPerOneshot
    }

    /** Writes logical page `l` to its partition. */
    method RewriteOne(l: nat, conti: int) returns (park: bool, conti': int)
      requires |parts| > 0 && PartsOk() && Fits() && done <= target && l in target && l !in done
      modifies this`done, this`log, this`dies, this`count, parts, Queues(parts), Buffers(parts)
      ensures PartsOk() && done == old(done) + {l} && log == old(log) + [l]
      ensures dies == old(dies) + [old(parts[l % |parts|].wpDie)]
      ensures count == old(count) + 1
      ensures park ==> count >= Limit()
    {
      hide ConvFtl.Ftl.Consistent, ConvFtl.Ftl.Room, Locals, ConvFtl.WriteResult, ConvFtl.AfterStore, ConvFtl.RunAfter,
           ConvFtl.CleanerSteps, ConvFtl.ViewOf;
      var n := |parts|;
      var i := l % n;
      LocalsAdd(done, n, l, i);
      LocalsMono(done + {l}, target, n, i);
      RoomMono(parts[i], Locals(done + {l}, n, i), Locals(target, n, i));
      var random: int := *;
      ghost var die := parts[i].wpDie;
      ghost var v;
      park, count, conti', v := parts[i].RewritePage(l / n, 0, degree, count, conti, maxCon, random);
      done := done + {l};
      log, dies := log + [l], dies + [die];
      forall j | 0 <= j < n
        ensures parts[j].Consistent() && parts[j].maptbl.Keys == Locals(done, n, j)
      {
        LocalsAdd(old(done), n, l, j);
        if j != i {
          assert parts[j] != parts[i] && parts[j].vq != parts[i].vq && parts[j].vq.d != parts[i].vq.d;
        }
      }
    }

    /** The first chunk parked in list `k` on die `d`. */
    method FindParked(k: nat, d: Die) returns (found: bool, index: nat)
      requires k < |parked|
      ensures found ==> FirstOn(parked[k], d, index)
      ensures !found ==> NoneOn(parked[k], d)
    {
      found := false;
      index := 0;
      while index < |parked[k]|
        invariant index <= |parked[k]|
        invariant forall j :: 0 <= j < index ==> parked[k][j].die != Some(d)
      {
        if parked[k][index].die == Some(d) {
          found := true;
          return;
        }
        index := index + 1;
      }
    }

    /**
     Rewrites the pages of a chunk in order, until it is finished or has to give way: to a chunk
     parked on the die under the write pointer, to its own parking, or to the next slice at the end of
     the turn. It gives way to a parked chunk exactly before the first page that would go to its die,
     and it is parked on the die of the last page written.
     */
    method Phfrag(c: Chunk, k: nat, force0: bool, noReturn: bool) returns (r: Outcome, conti: int)
      requires |parts| > 0 && PartsOk() && Fits() && done <= target && k < |parked|
      requires c.idx < |parts| && c.start % |parts| == c.idx && Lpns(c, |parts|) <= target && Lpns(c, |parts|) !! done
      modifies this`done, this`log, this`dies, this`count, parts, Queues(parts), Buffers(parts)
      ensures Stops(c, |parts|, parked[k], force0 || noReturn, r, Limit(), parts[c.idx].wpDie, old(done), done,
                    old(log), log, old(dies), dies, old(count), count)
      ensures PartsOk()
    {
      hide PartsOk, Fits, FirstOn, NoneOn, Lpns, Going, Stops;
      var n, cs, forced, limit := |parts|, parked[k], force0 || noReturn, Limit();
      GoingStart(c, n, cs, forced, limit, done, log, dies, count);
      conti := c.conti;
      var force := force0 || parked[k] == [];
      var l := c.start;
      while l <= c.end
        invariant Going(c, n, cs, forced, l, limit, old(done), done, old(log), log, old(dies), dies, old(count), count)
        invariant PartsOk()
      {
        var die := parts[c.idx].wpDie;
        if !force && !noReturn {
          var found, index := FindParked(k, parts[c.idx].wpDie);
          if found {
            GoingPreempt(c, n, cs, l, limit, die, index, old(done), done, old(log), log, old(dies), dies, old(count),
                         count);
            return Preempt(l, index), conti;
          }
        }
        GoingDone(c, n, cs, forced, l, limit, old(done), done, old(log), log, old(dies), dies, old(count), count);
        ghost var (done', log', dies', count') := (done, log, dies, count);
        var park;
        park, conti := RewriteOne(l, conti);
        GoingNext(c, n, cs, forced, l, limit, die, parts[c.idx].wpDie, park, old(done), done', old(log), log',
                  old(dies), dies', old(count), count');
        if park || count >= limit {
          return if l + n > c.end then Finished else if park then Park(l + n, die) else Pause(l + n), conti;
        }
        l := l + n;
      }
      GoingEnd(c, n, cs, forced, l, limit, parts[c.idx].wpDie, old(done), done, old(log), log, old(dies), dies,
               old(count), count);
      r := Finished;
    }

    /** The invariant of the rewriter. */
    ghost predicate Inv()
      reads this, parts, Queues(parts), Buffers(parts)
    {
      Mid(done)
    }

    /** The invariant while the pages written since `before` are not yet taken off their chunk. */
    ghost predicate Mid(before: set<nat>)
      reads this, parts, Queues(parts), Buffers(parts)
    {
      && |parts| > 0 && num > 0
      && |active| == |parked| == |parts| * num
      && PartsOk() && Fits()
      && Covered(target, before, active, parked, |parts|)
      && Shaped(active, num, |parts|) && Shaped(parked, num, |parts|) && NonEmpty(parked)
    }

    /** Progress: more pages are written, or fewer chunks are left. */
    twostate predicate Progress()
      reads this
    {
      |old(done)| < |done| || (|old(done)| == |done| && TotalLen(active) +
          TotalLen(parked) < old(TotalLen(active) + TotalLen(parked)))
    }

    /** The pages written are counted, and a turn that is not over does not go beyond its limit. */
    twostate predicate Counts()
      reads this
    {
      && |parts| > 0 && count - old(count) == |log| - |old(log)| && old(count) <= count
      && (old(count) < Limit() ==> count <= Limit())
    }

    /** Only the lists with number `k` have changed. */
    twostate predicate OnlyList(k: nat)
      reads this
    {
      && |active| == old(|active|) && |parked| == old(|parked|)
      && (forall i :: 0 <= i < |active| && i != k ==> active[i] == old(active)[i])
      && (forall i :: 0 <= i < |parked| && i != k ==> parked[i] == old(parked)[i])
    }

    /** A parked chunk whose die came up goes on: it is finished, stays parked, or becomes active. */
    method ServeParked(k: nat, index: nat) returns (ghost r: Outcome, ghost conti: int)
      requires Inv() && k < |parked| && index < |parked[k]|
      modifies this, parts, Queues(parts), Buffers(parts)
      ensures Inv() && OnlyList(k) && |done| > |old(done)|
      ensures Stopped(old(parked[k][index]), old(parked[k]), true, r) && !r.Preempt?
          && (parked, active) == Settled(old(parked), old(active), k, index, r, conti)
      ensures Counts()
      ensures |active[k]| >= old(|active[k]|)
      ensures TotalLen(active) + TotalLen(parked) <= old(TotalLen(active) + TotalLen(parked))
    {
      hide PartsOk, Fits, Covered, Shaped, NonEmpty, TotalLen, Lpns;
      ParkedChunk(k, index);
      var c := parked[k][index];
      var out, conti' := Phfrag(c, k, true, true);
      MoreDone(old(done), done, c.start);
      SettleParked(k, index, out, conti', old(done));
      r, conti := out, conti';
    }

    /** What becomes of a parked chunk after pages of it were written. */
    method SettleParked(k: nat, index: nat, r: Outcome, conti: int, ghost before: set<nat>)
      requires Mid(before) && k < |parked| && index < |parked[k]| && !r.Preempt?
      requires var c := parked[k][index];
               && (!r.Finished? ==> r.at % |parts| == c.idx && c.start <= r.at <= c.end)
               && done == before + (Lpns(c, |parts|) - Lpns(Rest(c, r), |parts|))
      modifies this`active, this`parked
      ensures (parked, active) == Settled(old(parked), old(active), k, index, r, conti)
      ensures Inv() && OnlyList(k) && |active[k]| >= old(|active[k]|)
      ensures TotalLen(active) + TotalLen(parked) <= old(TotalLen(active) + TotalLen(parked))
    {
      hide Fits, Covered, Shaped, NonEmpty, ConvFtl.Ftl.Consistent, Pending, TotalLen, Locals, Settled;
      SettleStep(target, before, done, parked, active, num, |parts|, k, index, r, conti);
      var (parked', active') := Settled(parked, active, k, index, r, conti);
      parked, active := parked', active';
    }

    /** Chunk `c`, with `cs` parked, was rewritten up to `r`. */
    twostate predicate Stopped(c: Chunk, cs: seq<Chunk>, forced: bool, r: Outcome)
      reads this, parts
    {
      && c.idx < |parts|
      && Stops(c, |parts|, cs, forced, r, Limit(), parts[c.idx].wpDie, old(done), done, old(log), log, old(dies), dies,
               old(count), count)
    }

    static lemma MoreDone(d: set<nat>, d': set<nat>, l: nat)
      requires d <= d' && l in d' && l !in d
      ensures |d| < |d'|
    {
      SubsetCard(d + {l}, d');
    }

    /** What is known of a parked chunk. */
    lemma ParkedChunk(k: nat, j: nat)
      requires Inv() && k < |parked| && j < |parked[k]|
      ensures Covered(target, done, parked, active, |parts|)
      ensures var c := parked[k][j];
              && c.start <= c.end && c.idx < |parts| && c.start % |parts| == c.idx
              && Lpns(c, |parts|) <= target && Lpns(c, |parts|) !! done && done <= target
              && c.start in Lpns(c, |parts|)
    {
      hide PartsOk, Fits, Covered;
      CoveredSwap(target, done, active, parked, |parts|);
      CoveredChunk(target, done, parked, active, |parts|, k, j);
      assert InSlot(parked[k][j], k, num, |parts|);
    }

    /** What is known of an active chunk. */
    lemma ActiveChunk(k: nat, j: nat)
      requires Inv() && k < |active| && j < |active[k]|
      ensures var c := active[k][j];
              && c.idx < |parts| && c.start % |parts| == c.idx
              && Lpns(c, |parts|) <= target && Lpns(c, |parts|) !! done && done <= target
              && (c.start <= c.end ==> c.start in Lpns(c, |parts|))
    {
      hide PartsOk, Fits, Covered;
      CoveredChunk(target, done, active, parked, |parts|, k, j);
      assert InSlot(active[k][j], k, num, |parts|);
    }

    /** One turn of the walk over the active chunks of a list. */
    method VisitChunk(k: nat, j: nat) returns (restart: bool, kept: bool, ghost r: Outcome, ghost conti: int,
        ghost r': Outcome, ghost conti': int)
      requires Inv() && k < |active| && j < |active[k]|
      modifies this, parts, Queues(parts), Buffers(parts)
      ensures Inv() && OnlyList(k) && Progress()
      ensures TotalLen(active) + TotalLen(parked) <= old(TotalLen(active) + TotalLen(parked))
      ensures restart ==> active[k] != []
      ensures !restart ==> |active[k]| == old(|active[k]|) - (if kept then 0 else 1)
      ensures Counts() && (old(count) < Limit() && (r.Pause? || r.Park?) ==> count == Limit())
      ensures restart <==> r.Preempt?
      ensures kept <==> r.Preempt? || r.Pause?
      ensures restart ==> GaveWay(old(active), old(parked), k, j, r, conti, r', conti', active, parked)
      ensures !restart ==> Stopped(old(active[k][j]), old(parked[k]), false, r)
      ensures !restart ==> (active, parked) == Visited(old(active), old(parked), k, j, r, conti)
    {
      hide Inv, Mid, ConvFtl.Ftl.Consistent, Pending, TotalLen, Locals, Stops, Lpns, Removed, Appended, Limit,
           Settled;
      var c := active[k][j];
      var out, draws := RunActive(k, j);
      r, conti, r', conti' := out, draws, Finished, 0;
      if out.Preempt? {
        KeepActive(k, j, c.(start := out.at, die := None, conti := draws), old(done));
        r', conti' := ServePreempting(k, out.index, old(done));
        return true, true, r, conti, r', conti';
      }
      restart := false;
      kept := out.Pause?;
      SettleActive(k, j, out, draws, old(done));
    }

    /** Phfrag on an active chunk. */
    method RunActive(k: nat, j: nat) returns (r: Outcome, conti: int)
      requires Inv() && k < |active| && j < |active[k]|
      modifies this`done, this`log, this`dies, this`count, parts, Queues(parts), Buffers(parts)
      ensures |parked| == |active| && Stopped(active[k][j], parked[k], false, r)
      ensures Counts() && (old(count) < Limit() ==> if r.Preempt? then count < Limit()
                  else r.Finished? || count == Limit())
      ensures Mid(old(done)) && old(done) <= done && |old(done)| <= |done|
      ensures done == old(done) + (Lpns(active[k][j], |parts|) - Lpns(Rest(active[k][j], r), |parts|))
      ensures !r.Finished? ==> r.at % |parts| == active[k][j].idx && active[k][j].start <= r.at <= active[k][j].end
      ensures r.Preempt? ==> k < |parked| && r.index < |parked[k]|
      ensures !r.Preempt? && !r.Finished? ==> |done| > |old(done)|
    {
      hide PartsOk, Fits, Covered, Shaped, NonEmpty, ConvFtl.Ftl.Consistent, Pending, TotalLen, Locals;
      ActiveChunk(k, j);
      r, conti := Phfrag(active[k][j], k, false, false);
      StopsCounts(active[k][j], |parts|, parked[k], false, r, Limit(), parts[active[k][j].idx].wpDie, old(done), done,
                  old(log), log, old(dies), dies, old(count), count);
      SubsetCard(old(done), done);
      if active[k][j].start <= active[k][j].end && !r.Preempt? {
        MoreDone(old(done), done, active[k][j].start);
      }
    }

    /** What is left of a chunk stays in its place. */
    method KeepActive(k: nat, j: nat, c: Chunk, ghost before: set<nat>)
      requires Mid(before) && k < |active| && j < |active[k]|
      requires c.idx == active[k][j].idx && c.end == active[k][j].end && c.start >= active[k][j].start
          && c.start % |parts| == c.idx
      requires done == before + (Lpns(active[k][j], |parts|) - Lpns(c, |parts|))
      modifies this`active
      ensures active == old(active)[k := old(active[k])[j := c]]
      ensures Inv() && OnlyList(k) && |active[k]| == old(|active[k]|)
      ensures TotalLen(active) == old(TotalLen(active))
    {
      hide Fits, Covered, Shaped, NonEmpty, ConvFtl.Ftl.Consistent, Pending, TotalLen, Locals;
      KeepStep(target, before, active, parked, num, |parts|, k, j, c);
      active := active[k := active[k][j := c]];
    }

    /** A chunk leaves the active list: it is finished, or it is parked on a die. */
    method LeaveActive(k: nat, j: nat, r: Outcome, conti: int, ghost before: set<nat>)
      requires Mid(before) && k < |active| && j < |active[k]| && (r.Finished? || r.Park?)
      requires r.Park? ==> active[k][j].start <= r.at <= active[k][j].end && r.at % |parts| == active[k][j].idx
      requires done == before + (Lpns(active[k][j], |parts|) - Lpns(Rest(active[k][j], r), |parts|))
      modifies this`active, this`parked
      ensures (active, parked) == Visited(old(active), old(parked), k, j, r, conti)
      ensures Inv() && OnlyList(k) && |active[k]| == old(|active[k]|) - 1
      ensures TotalLen(active) + TotalLen(parked) <= old(TotalLen(active) + TotalLen(parked))
      ensures r.Finished? ==> TotalLen(active) + TotalLen(parked) < old(TotalLen(active) + TotalLen(parked))
    {
      hide Fits, Covered, Shaped, NonEmpty, ConvFtl.Ftl.Consistent, Pending, TotalLen, Locals;
      var c := active[k][j];
      if r.Finished? {
        NoLpns(Rest(c, r), |parts|);
        assert Lpns(c, |parts|) - {} == Lpns(c, |parts|);
        DropStep(target, before, active, parked, num, |parts|, k, j);
      } else {
        var c' := c.(start := r.at, die := Some(r.die), conti := conti);
        MoveStep(target, before, active, parked, num, |parts|, k, j, c');
        parked := Appended(parked, k, c');
      }
      active := Removed(active, k, j);
    }

    /** What becomes of an active chunk after pages of it were written. */
    method SettleActive(k: nat, j: nat, r: Outcome, conti: int, ghost before: set<nat>)
      requires Mid(before) && k < |active| && j < |active[k]| && !r.Preempt?
      requires !r.Finished? ==> active[k][j].start <= r.at <= active[k][j].end && r.at % |parts| == active[k][j].idx
      requires done == before + (Lpns(active[k][j], |parts|) - Lpns(Rest(active[k][j], r), |parts|))
      modifies this`active, this`parked
      ensures (active, parked) == Visited(old(active), old(parked), k, j, r, conti)
      ensures Inv() && OnlyList(k) && |active[k]| == old(|active[k]|) - (if r.Pause? then 0 else 1)
      ensures TotalLen(active) + TotalLen(parked) <= old(TotalLen(active) + TotalLen(parked))
      ensures r.Finished? ==> TotalLen(active) + TotalLen(parked) < old(TotalLen(active) + TotalLen(parked))
    {
      hide Fits, Covered, Shaped, NonEmpty, ConvFtl.Ftl.Consistent, Pending, TotalLen, Locals, PartsOk;
      if r.Pause? {
        KeepActive(k, j, active[k][j].(start := r.at, conti := -1), before);
      } else {
        LeaveActive(k, j, r, conti, before);
      }
    }

    /** ServeParked, after pages of the preempted chunk were written. */
    method ServePreempting(k: nat, index: nat, ghost before: set<nat>) returns (ghost r: Outcome, ghost conti: int)
      requires Inv() && k < |parked| && index < |parked[k]| && before <= done
      modifies this, parts, Queues(parts), Buffers(parts)
      ensures Inv() && OnlyList(k) && |done| > |before| && Counts()
      ensures !r.Preempt? && (parked, active) == Settled(old(parked), old(active), k, index, r, conti)
      ensures |active[k]| >= old(|active[k]|)
      ensures TotalLen(active) + TotalLen(parked) <= old(TotalLen(active) + TotalLen(parked))
    {
      hide Inv, TotalLen;
      SubsetCard(before, done);
      r, conti := ServeParked(k, index);
    }

    /**
     The walk over the active chunks of list `k`, in order, until the turn is over. It makes
     progress whenever there is a chunk and the turn is not over yet.
     */
    method ProcessList(k: nat) returns (restart: bool)
      requires Inv() && k < |active|
      modifies this, parts, Queues(parts), Buffers(parts)
      ensures Inv() && OnlyList(k)
      ensures old(active[k]) != [] && old(count) < Limit() ==> Progress()
      ensures !(old(active[k]) != [] && old(count) < Limit()) ==>
                !restart && active == old(active) && parked == old(parked) && done == old(done) && count == old(count)
      ensures restart ==> active[k] != []
      ensures Counts()
      ensures !restart && count < Limit() ==> active[k] == []
    {
      hide Inv, ConvFtl.Ftl.Consistent, Pending, TotalLen, Locals;
      GoodParts();
      restart := false;
      var j := 0;
      while j < |active[k]|
        invariant Inv() && OnlyList(k) && j <= |active[k]| && Counts() && (count < Limit() ==> j == 0)
        invariant !restart
        invariant Progress() || (active == old(active) && parked == old(parked) && done == old(done)
            && count == old(count) && j == 0)
        invariant Progress() ==> old(active[k]) != [] && old(count) < Limit()
        decreases |active[k]| - j
      {
        if count >= Limit() {
          break;
        }
        var stop, kept, _, _, _, _ := VisitChunk(k, j);
        restart := stop;
        assert Progress();
        if restart {
          return;
        }
        if kept {
          j := j + 1;
        }
      }
    }

    lemma GoodParts()
      requires Inv()
      ensures |parts| > 0 && num > 0 && |active| == |parked| == |parts| * num && |done| <= |target| && Limit() > 0
    {
      hide Fits, Shaped, NonEmpty, Covered, Locals;
      assert parts[0].Consistent();
      CoveredDone(target, done, active, parked, |parts|);
    }

    /** A list without active chunks has no parked ones either. */
    ghost predicate NoneStuck()
      reads this
    {
      |active| == |parked| && forall k :: 0 <= k < |active| && active[k] == [] ==> parked[k] == []
    }

    /** When a list runs out of active chunks one of its parked chunks becomes active. */
    method Unpark(k: nat)
      requires Inv() && k < |active|
      modifies this`active, this`parked
      ensures Inv() && OnlyList(k)
      ensures active[k] == [] ==> parked[k] == []
      ensures (active, parked) == if old(active[k]) != [] || old(parked[k]) == [] then old((active, parked)) else
                (Appended(old(active), k, old(parked[k][0]).(conti := -1)), Removed(old(parked), k, 0))
      ensures TotalLen(active) + TotalLen(parked) == old(TotalLen(active) + TotalLen(parked))
    {
      hide Fits, Covered, Shaped, NonEmpty, ConvFtl.Ftl.Consistent, Pending, TotalLen, Locals;
      if active[k] == [] && parked[k] != [] {
        var c := parked[k][0].(conti := -1);
        ParkedChunk(k, 0);
        MoveStep(target, done, parked, active, num, |parts|, k, 0, c);
        assert done + (Lpns(parked[k][0], |parts|) - Lpns(c, |parts|)) == done;
        active := Appended(active, k, c);
        parked := Removed(parked, k, 0);
        CoveredSwap(target, done, parked, active, |parts|);
      }
    }

    /** The list whose turn is next: the next slice of the same partition, or the first slice of
        the next partition when this one has no active chunk. */
    method NextTurn(i: nat, c: nat) returns (i': nat, c': nat)
      requires |parts| > 0 && i < |parts| && c < num && |active| == |parts| * num
      ensures (i', c') == Passed(active, num, |parts|, i, c)
      ensures i' < |parts| && c' < num
    {
      i', c' := i, c + 1;
      if c' >= num {
        c' := 0;
      }
      var have := false;
      for x := 0 to num
        invariant have <==> exists y :: 0 <= y < x && Slot(i, y, num) < |active| && active[Slot(i, y, num)] != []
      {
        SlotOf(i, x, num, |parts|);
        if active[Slot(i, x, num)] != [] {
          have := true;
        }
      }
      if !have {
        c' := 0;
        i' := i' + 1;
        if i' >= |parts| {
          i' := 0;
        }
      }
    }

    method AnyActive() returns (any: bool, ghost k: nat)
      ensures any ==> k < |active| && active[k] != []
      ensures !any ==> forall x :: 0 <= x < |active| ==> active[x] == []
    {
      any, k := false, 0;
      for x := 0 to |active|
        invariant forall y :: 0 <= y < x ==> active[y] == []
      {
        if active[x] != [] {
          return true, x;
        }
      }
    }

    method ResetCount()
      requires Inv()
      modifies this`count
      ensures Inv() && count == 0
    {
      hide Fits, Covered, Shaped, NonEmpty, ConvFtl.Ftl.Consistent, Locals;
      count := 0;
    }

    /** Stages without progress: 2 when a finished turn is still to be noticed, 1 when it is
        noticed, 0 when the turn is not over. */
    ghost function Stage(restart: bool): nat
      reads this
      requires |parts| > 0
    {
      if count < Limit() then 0 else if restart then 2 else 1
    }

    /**
     One pass of the main loop for the list of slice `c` of partition `i`. It makes progress, or it
     notices the end of the turn, or it passes the turn on from an empty list to another.
     */
    method Turn(i: nat, c: nat, restart: bool) returns (i': nat, c': nat, restart': bool)
      requires Inv() && NoneStuck() && i < |parts| && c < num
      modifies this, parts, Queues(parts), Buffers(parts)
      ensures 0 <= old(count) <= Limit() ==> 0 <= count <= Limit() && |log| - |old(log)| <= Limit()
      ensures (i', c') == TurnOf(old(active), num, |parts|, i, c, restart || old(count) < Limit())
      ensures Inv() && NoneStuck() && i' < |parts| && c' < num && OnlyList(Slot(i', c', num))
      ensures restart' ==> Progress() && Slot(i', c', num) < |active| && active[Slot(i', c', num)] != []
      ensures Progress() || (active == old(active) && done == old(done) && parked == old(parked))
      ensures Progress() || Stage(restart') < old(Stage(restart)) ||
              (&& Stage(restart') == old(Stage(restart)) == 0
               && Slot(i, c, num) < |active| && active[Slot(i, c, num)] == []
               && (i', c') == Passed(active, num, |parts|, i, c))
    {
      hide Inv, ConvFtl.Ftl.Consistent, Pending, TotalLen, Locals, HasChunk, Removed, Appended, Limit, Ahead;
      GoodParts();
      SlotOf(i, c, num, |parts|);
      i', c' := i, c;
      if (!restart && count >= Limit()) || active[Slot(i, c, num)] == [] {
        ResetCount();
        i', c' := NextTurn(i, c);
        SlotOf(i', c', num, |parts|);
      }
      var k := Slot(i', c', num);
      restart' := ProcessList(k);
      if !restart' {
        Unpark(k);
      }
    }

    /**
     The rewriter. All pages of the target are written, each exactly once, for every outcome of the
     random draws; then no chunk is left.
     */
    method CleanFtl()
      requires Inv() && NoneStuck()
      modifies this, parts, Queues(parts), Buffers(parts)
      ensures Inv() && done == target && multiset(log) == multiset(target)
      ensures |active| == |parked| && forall k :: 0 <= k < |active| ==> active[k] == [] && parked[k] == []
    {
      hide Inv, ConvFtl.Ftl.Consistent, Pending, TotalLen, Locals, Ahead, HasChunk;
      GoodParts();
      ResetCount();
      var restart, any := true, true;
      var i: nat, c: nat := 0, 0;
      ghost var a: nat, b: nat, first := 0, 0, true;
      while any
        invariant Inv() && NoneStuck() && i < |parts| && c < num && |done| <= |target|
        invariant !first && any ==> Ahead(active, num, |parts|, i, c, a, b)
        invariant !any ==> forall k :: 0 <= k < |active| ==> active[k] == []
        decreases any, first, |target| - |done|, TotalLen(active) + TotalLen(parked), Stage(restart), a, b
      {
        ghost var (pi, pc) := (i, c);
        i, c, restart := Turn(i, c, restart);
        GoodParts();
        ghost var k;
        any, k := AnyActive();
        any := restart || any;
        if any {
          a, b := Nearer(pi, pc, i, c, a, b, first, if restart then Slot(i, c, num) else k);
        }
        first := false;
      }
      AllWritten();
    }

    /** The way to the next list with an active chunk, shorter if the turn was passed on from an empty one. */
    lemma Nearer(pi: nat, pc: nat, i: nat, c: nat, a: nat, b: nat, first: bool, k: nat) returns (a': nat, b': nat)
      requires |active| == |parts| * num && num > 0 && pi < |parts| && pc < num && i < |parts| && c < num
      requires k < |active| && active[k] != []
      ensures Ahead(active, num, |parts|, i, c, a', b')
      ensures !first && Ahead(active, num, |parts|, pi, pc, a, b)
              && Slot(pi, pc, num) < |active| && active[Slot(pi, pc, num)] == []
              && (i, c) == Passed(active, num, |parts|, pi, pc) ==>
                a' < a || (a' == a && b' < b)
    {
      hide Ahead, HasChunk;
      if !first && Ahead(active, num, |parts|, pi, pc, a, b) && Slot(pi, pc, num) < |active|
          && active[Slot(pi, pc, num)] == []
         && (i, c) == Passed(active, num, |parts|, pi, pc) {
        a', b' := AheadStep(active, num, |parts|, pi, pc, a, b);
      } else {
        a', b' := FindAhead(active, num, |parts|, i, c, k);
      }
    }

    lemma AllWritten()
      requires Inv() && NoneStuck() && forall k :: 0 <= k < |active| ==> active[k] == []
      ensures done == target && multiset(log) == multiset(target)
    {
      CoveredEnd(target, done, active, parked, |parts|);
    }
  }

  /**
   The whole command: collects the mapped logical pages `m` of the namespace into chunks, starts
   with new partitions, and writes everything again. The new partitions map exactly the pages
   that were mapped before, and each was written once.

   The lists are exact because no run of mapped pages ends before page `n - 1`; see CreateListSplit.
   */
  method RewriteNamespace(geo: Geo, m: seq<bool>, n: nat, slices: nat, degree: int, maxCon: int) returns (c: Cleaner)
    requires geo.Ok() && geo.lines >= 5 && slices > 0 && 0 < n <= |m| && |m| == n * geo.ttPgs && |m| + 2 * n < TWO64
    requires forall last: nat :: !ShortRunAt(m, n, last)
    requires forall i :: 0 <= i < n ==> |Locals(Mapped(m), n, i)| < (geo.lines - 4) * geo.pgsPerLine
    ensures |c.parts| == n && multiset(c.log) == multiset(Mapped(m))
    ensures forall i :: 0 <= i < n ==> c.parts[i].Consistent() && c.parts[i].maptbl.Keys == Locals(Mapped(m), n, i)
  {
    hide Locals, ConvFtl.Ftl.Consistent, Pending, Shaped, Covered, ShortRunAt;
    var lists := SortedLists(m, n, slices);
    forall l | l in Mapped(m)
      ensures l / n < geo.ttPgs
    {
      LocalBound(l, n, geo.ttPgs);
    }
    c := new Cleaner(geo, n, slices, lists, Mapped(m), degree, maxCon);
    c.CleanFtl();
    assert c.PartsOk();
  }

  /** The lists of chunks, each sorted. */
  method SortedLists(m: seq<bool>, n: nat, slices: nat) returns (lists: seq<seq<Chunk>>)
    requires slices > 0 && 0 < n <= |m| && |m| + 2 * n < TWO64
    requires forall last: nat :: !ShortRunAt(m, n, last)
    ensures |lists| == n * slices && Shaped(lists, slices, n) && Pending(lists, n) == multiset(Mapped(m))
  {
    hide Pending, Shaped, ShortRunAt, AllCut;
    var head := CreateListSplit(m, slices, n);
    lists := [];
    for k := 0 to |head|
      invariant |lists| == k && forall x :: 0 <= x < k ==> multiset(lists[x]) == multiset(head[x])
    {
      var sorted := SortBySize(head[k]);
      lists := lists + [sorted];
    }
    PendingPermuted(head, lists, n);
    ShapedPermuted(head, lists, slices, n);
  }

  lemma LocalBound(l: nat, n: nat, t: nat)
    requires n > 0 && l < n * t
    ensures l / n < t
  {
    if l / n >= t {
      MulLe(t, l / n, n);
    }
  }
}
