/**
 The credit model of a transfer channel. Time is cut into slots of 4000 ns; a slot has a fixed number
 of credits, and a transfer uses the credits of the slot of its request time and of the slots after
 it. The credits left are kept in a ring that starts at the current time.
 */
module Channel {
  import opened Arithmetic
  import opened Sequences

  const TWO32: nat := 0x1_0000_0000
  const UNIT_TIME_INTERVAL: nat := 4000
  const UNIT_XFER_SIZE: nat := 128

  function Min(a: nat, b: nat): nat { if a < b then a else b }

  // ----- The plain table of slots -----

  /** Credits left in slot `s` when the ring `w` starts at slot `cur`: a slot outside the ring is full. */
  function CreditAt(w: seq<nat>, cur: nat, max: nat, s: nat): nat
  {
    if cur <= s < cur + |w| then w[s - cur] else max
  }

  /** Charges `rem` credits to the slots from `k` on, each as far as it goes, up to the end of the ring. */
  function Consume(w: seq<nat>, k: nat, rem: nat): (r: (seq<nat>, nat, nat))
    requires k < |w|
    decreases |w| - k
  {
    var take := Min(rem, w[k]);
    var w' := w[k := w[k] - take];
    if rem == take || k + 1 == |w| then (w', rem - take, k) else Consume(w', k + 1, rem - take)
  }

  lemma ConsumeStep(w: seq<nat>, k: nat, rem: nat)
    requires k < |w|
    ensures var take := Min(rem, w[k]);
            var w' := w[k := w[k] - take];
            Consume(w, k, rem) == if rem == take || k + 1 == |w| then (w', rem - take, k)
                else Consume(w', k + 1, rem - take)
  {
  }

  /**
   What a charge does: slots before the first and after the last one used are untouched, those in
   between are used up, no slot gains or goes below zero, exactly the request less what is left
   over is charged, and something is left over only when the ring is used up to its end.
   */
  lemma {:induction false} ConsumeCharges(w: seq<nat>, k: nat, rem: nat)
    requires k < |w|
    ensures var (w', left, last) := Consume(w, k, rem);
            && |w'| == |w| && k <= last < |w| && left <= rem
            && (forall j :: 0 <= j < |w| && (j < k || j > last) ==> w'[j] == w[j])
            && (forall j :: k <= j < last ==> w'[j] == 0)
            && (forall j :: 0 <= j < |w| ==> w'[j] <= w[j])
            && Sum(w') + (rem - left) == Sum(w)
            && (left > 0 ==> last == |w| - 1 && w'[last] == 0)
    decreases |w| - k
  {
    var take := Min(rem, w[k]);
    var w1 := w[k := w[k] - take];
    SumUpdate(w, k, w[k] - take);
    if rem != take && k + 1 != |w| {
      ConsumeCharges(w1, k + 1, rem - take);
      var (w', left, last) := Consume(w1, k + 1, rem - take);
      assert w'[k] == w1[k];
    }
  }

  /** The slots a transfer has to wait for on an idle channel. */
  function IdleDelay(rem: nat, max: nat): nat
    requires max > 0
    decreases rem
  {
    if rem <= max then 0 else 1 + IdleDelay(rem - max, max)
  }

  /** The slots passed by a charge when all slots from the first one on have `full` credits and `room` slots follow. */
  function Waits(credits: nat, full: nat, room: nat): nat
  {
    if credits == 0 then 0 else if full == 0 then room else Min((credits - 1) / full, room)
  }

  lemma WaitsStep(rem: nat, full: nat, room: nat)
    ensures rem <= full || room == 0 ==> Waits(rem, full, room) == 0
    ensures rem > full && room > 0 ==> Waits(rem, full, room) == 1 + Waits(rem - full, full, room - 1)
  {
    if full > 0 && rem > full {
      DivLess(rem - 1, full);
    } else if 0 < rem <= full {
      DivUnique(rem - 1, full, 0, rem - 1);
    }
  }

  /** On an idle ring the last slot charged is known. */
  lemma {:induction false} IdleConsume(w: seq<nat>, k: nat, rem: nat, full: nat)
    requires k < |w| && forall j :: k <= j < |w| ==> w[j] == full
    ensures Consume(w, k, rem).2 == k + Waits(rem, full, |w| - 1 - k)
    decreases |w| - k
  {
    hide Waits;
    WaitsStep(rem, full, |w| - 1 - k);
    if rem > full && k + 1 < |w| {
      IdleConsume(w[k := 0], k + 1, rem - full, full);
    }
  }

  /** A charge leaves something over exactly when the slots to the end of the ring hold too little. */
  lemma {:induction false} LeftOver(w: seq<nat>, k: nat, rem: nat)
    requires k < |w|
    ensures Consume(w, k, rem).1 == 0 <==> rem <= Sum(w[k..])
    decreases |w| - k
  {
    assert w[k..][1..] == w[k + 1..];
    var w' := w[k := w[k] - Min(rem, w[k])];
    if rem > w[k] && k + 1 < |w| {
      LeftOver(w', k + 1, rem - w[k]);
      assert w'[k + 1..] == w[k + 1..];
    }
  }

  // ----- The clock -----

  /** The ring after the clock has moved `offs` slots: the slots passed are dropped, full ones come in. */
  function Shifted(w: seq<nat>, offs: nat, max: nat): (r: seq<nat>)
    requires offs <= |w|
    ensures |r| == |w|
    ensures forall k :: 0 <= k < |w| ==> r[k] == if k + offs < |w| then w[k + offs] else max
  {
    w[offs..] + seq(offs, _ => max)
  }

  /** The slots the code moves on when the clock moves `gap` slots: the gap is kept in 32 bits, and no
      more than the used part of the ring is passed. */
  function ClockOffset(gap: nat, validLen: nat): nat { Min(gap % TWO32, validLen) }

  /** Slots from `cur + gap` on are seen unchanged after the clock has moved. */
  ghost predicate SeenAlike(w: seq<nat>, cur: nat, max: nat, gap: nat, validLen: nat)
    requires validLen <= |w|
  {
    forall s :: s >= cur + gap ==>
      CreditAt(Shifted(w, ClockOffset(gap, validLen), max), cur + gap, max, s) == CreditAt(w, cur, max, s)
  }

  /**
   The ring stands for the plain table of slots exactly when the truncation of the gap to 32 bits does
   no harm: either as many slots are passed as would be without it, or the used slots that
   stay in the ring are all full.
   */
  lemma ClockRefines(w: seq<nat>, cur: nat, max: nat, gap: nat, validLen: nat)
    requires validLen <= |w| <= TWO32 && forall k :: validLen <= k < |w| ==> w[k] == max
    ensures SeenAlike(w, cur, max, gap, validLen) <==>
            ClockOffset(gap, validLen) == Min(gap, validLen)
                || forall k :: ClockOffset(gap, validLen) <= k < validLen ==> w[k] == max
  {
    var offs := ClockOffset(gap, validLen);
    var w' := Shifted(w, offs, max);
    if offs == Min(gap, validLen) {
      forall s | s >= cur + gap
        ensures CreditAt(w', cur + gap, max, s) == CreditAt(w, cur, max, s)
      {
      }
    } else if forall k :: offs <= k < validLen ==> w[k] == max {
      forall s | s >= cur + gap
        ensures CreditAt(w', cur + gap, max, s) == CreditAt(w, cur, max, s)
      {
        WrappedGap(gap, validLen);
      }
    } else {
      WrappedGap(gap, validLen);
      var k :| offs <= k < validLen && w[k] != max;
      var s := cur + gap + (k - offs);
      assert CreditAt(w', cur + gap, max, s) == w[k];
      assert CreditAt(w, cur, max, s) == max;
    }
  }

  /** When the truncation matters the gap exceeds the used part of the ring. */
  lemma WrappedGap(gap: nat, validLen: nat)
    requires ClockOffset(gap, validLen) != Min(gap, validLen)
    ensures gap >= TWO32 && ClockOffset(gap, validLen) < validLen
    ensures validLen <= TWO32 ==> gap >= validLen
  {
    if gap < TWO32 {
      DivUnique(gap, TWO32, 0, gap);
    }
    assert gap % TWO32 <= gap;
  }

  /** For a clock that moves by fewer than 2^32 slots at a time, about 4.7 hours, the ring is exact. */
  lemma ClockExact(gap: nat, validLen: nat)
    requires gap < TWO32 || validLen == 0
    ensures ClockOffset(gap, validLen) == Min(gap, validLen)
  {
    if gap < TWO32 {
      DivUnique(gap, TWO32, 0, gap);
    }
  }

  /** A used-up slot comes back to life as a later one when the clock stands still for 2^32 slots. */
  lemma ClockWrapExample()
    ensures ClockOffset(TWO32, 1) == 0 && !SeenAlike([0], 0, 1, TWO32, 1)
  {
    ClockRefines([0], 0, 1, TWO32, 1);
    assert [0][0] == 0;
  }

  // ----- The ring -----

  /** A buffer read from position `h` on, going round once. */
  ghost function Rotated(a: seq<nat>, h: nat): (w: seq<nat>)
    requires h <= |a|
    ensures |w| == |a|
    ensures forall k :: 0 <= k < |a| ==> w[k] == a[Place(h, k, |a|)]
  {
    a[h..] + a[..h]
  }

  /** The position of slot `k` of a ring of `n` that starts at `h`. */
  function Place(h: nat, k: nat, n: nat): (p: nat)
    requires h <= n && k < n
    ensures p < n
  {
    if h + k < n then h + k else h + k - n
  }

  /** Refilling the slots passed and moving the start is a shift of the ring. */
  lemma ClockShifts(a: seq<nat>, a': seq<nat>, h: nat, offs: nat, max: nat)
    requires h < |a| == |a'| && offs <= |a|
    requires forall i :: 0 <= i < |a| ==>
               a'[i] == if h <= i < h + offs || i < h + offs - |a| then max else a[i]
    ensures Rotated(a', if h + offs >= |a| then h + offs - |a| else h + offs) == Shifted(Rotated(a, h), offs, max)
  {
    var n := |a|;
    var h' := if h + offs >= n then h + offs - n else h + offs;
    forall k | 0 <= k < n
      ensures Rotated(a', h')[k] == Shifted(Rotated(a, h), offs, max)[k]
    {
      var i := Place(h', k, n);
      if k + offs < n {
        assert Place(h, k + offs, n) == i;
      }
    }
  }

  /** No slot has more credits than a full one, and slots past the used part are full. */
  ghost predicate RingOk(w: seq<nat>, validLen: nat, max: nat)
  {
    && (forall k :: 0 <= k < |w| ==> w[k] <= max)
    && (forall k :: validLen <= k < |w| ==> w[k] == max)
  }

  lemma ShiftKeepsRing(w: seq<nat>, validLen: nat, offs: nat, max: nat)
    requires RingOk(w, validLen, max) && offs <= validLen <= |w|
    ensures RingOk(Shifted(w, offs, max), validLen - offs, max)
  {
  }

  /** A charge keeps the ring in order when the used part is stretched to the last slot charged. */
  lemma ConsumeKeepsRing(w: seq<nat>, validLen: nat, k: nat, rem: nat, full: nat)
    requires k < |w| && validLen <= |w| && RingOk(w, validLen, full)
    ensures var (w', _, last) := Consume(w, k, rem);
            |w'| == |w| && last < |w| && RingOk(w', if last + 1 > validLen then last + 1 else validLen, full)
  {
    ConsumeCharges(w, k, rem);
  }

  /** Writing one position of the buffer changes one slot of the ring. */
  lemma RotatedUpdate(a: seq<nat>, h: nat, k: nat, x: nat)
    requires h < |a| && k < |a|
    ensures Rotated(a[Place(h, k, |a|) := x], h) == Rotated(a, h)[k := x]
  {
  }

  // ----- What each slot has been charged -----

  /**
   `t` gives what each absolute slot has been charged so far: never more than a full slot, nothing
   past the used part of the ring, and together with what the ring shows as left never more than a
   full slot, or exactly a full slot as long as the clock has been followed `exact`ly.
   */
  ghost predicate Accounts(t: nat -> nat, w: seq<nat>, cur: nat, validLen: nat, full: nat, exact: bool)
  {
    forall s: nat :: && t(s) <= full
                     && (s >= cur + validLen ==> t(s) == 0)
                     && (s >= cur ==> CreditAt(w, cur, full, s) + t(s) <= full)
                     && (s >= cur && exact ==> CreditAt(w, cur, full, s) + t(s) == full)
  }

  /** The account after the ring has gone from `w` to `w'`. */
  ghost function Charged(t: nat -> nat, w: seq<nat>, w': seq<nat>, cur: nat, full: nat): nat -> nat
  {
    (s: nat) => var (before, after) := (CreditAt(w, cur, full, s), CreditAt(w', cur, full, s));
                if before >= after then t(s) + (before - after) else t(s)
  }

  lemma ConsumeAccounts(t: nat -> nat, w: seq<nat>, cur: nat, validLen: nat, full: nat, exact: bool, k: nat, rem: nat)
    requires Accounts(t, w, cur, validLen, full, exact) && k < |w| && validLen <= |w| && RingOk(w, validLen, full)
    ensures var (w', _, last) := Consume(w, k, rem);
            Accounts(Charged(t, w, w', cur, full), w', cur, if last + 1 > validLen then last + 1
                else validLen, full, exact)
  {
    ConsumeCharges(w, k, rem);
    var (w', left, last) := Consume(w, k, rem);
    var t' := Charged(t, w, w', cur, full);
    var v' := if last + 1 > validLen then last + 1 else validLen;
    forall s: nat
      ensures && t'(s) <= full && (s >= cur + v' ==> t'(s) == 0)
              && (s >= cur ==> CreditAt(w', cur, full, s) + t'(s) <= full)
              && (s >= cur && exact ==> CreditAt(w', cur, full, s) + t'(s) == full)
    {
      assert t(s) <= full;
      if cur <= s < cur + |w| {
        var j := s - cur;
        assert w'[j] <= w[j];
        assert j > last ==> w'[j] == w[j];
      }
    }
  }

  lemma ClockAccounts(t: nat -> nat, w: seq<nat>, cur: nat, validLen: nat, full: nat, exact: bool, gap: nat)
    requires Accounts(t, w, cur, validLen, full, exact) && validLen <= |w| <= TWO32 && RingOk(w, validLen, full)
    ensures var offs := ClockOffset(gap, validLen);
            Accounts(t, Shifted(w, offs, full), cur + gap, validLen - offs, full, exact && offs == Min(gap, validLen))
  {
    var offs := ClockOffset(gap, validLen);
    var w' := Shifted(w, offs, full);
    if offs == Min(gap, validLen) {
      ClockRefines(w, cur, full, gap, validLen);
    } else {
      WrappedGap(gap, validLen);
    }
    forall s: nat
      ensures && t(s) <= full && (s >= cur + gap + (validLen - offs) ==> t(s) == 0)
              && (s >= cur + gap ==> CreditAt(w', cur + gap, full, s) + t(s) <= full)
              && (s >= cur + gap && exact && offs == Min(gap, validLen) ==>
                  CreditAt(w', cur + gap, full, s) + t(s) == full)
    {
      assert t(s) <= full;
      if s >= cur + gap && offs == Min(gap, validLen) {
        assert CreditAt(w', cur + gap, full, s) == CreditAt(w, cur, full, s);
      }
    }
  }

  // ----- Latency -----

  function Units(length: nat): nat { (length + UNIT_XFER_SIZE - 1) / UNIT_XFER_SIZE % TWO32 }

  /** The units of a length below the limit of 32 bits are as few as hold it. */
  lemma UnitsCover(length: nat)
    requires length <= UNIT_XFER_SIZE * (TWO32 - 1)
    ensures UNIT_XFER_SIZE * (Units(length) - 1) < length <= UNIT_XFER_SIZE * Units(length)
  {
    var u := (length + UNIT_XFER_SIZE - 1) / UNIT_XFER_SIZE;
    DivUnique(u, TWO32, 0, u);
  }

  /**
   A transfer of `credits` credits that passed `passed` slots waits for as few of them as it takes for the others, each
   at the configured rate of `max` credits, to hold no more than the credits.
   */
  ghost predicate Waited(wait: int, passed: nat, credits: nat, max: nat)
  {
    && wait >= 0 && wait % UNIT_TIME_INTERVAL == 0
    && var slots := wait / UNIT_TIME_INTERVAL;
       && slots <= passed && max * (passed - slots) <= credits
       && (slots > 0 ==> credits < max * (passed - slots + 1))
  }

  /** The wait is the slots passed beyond those the credits fill. */
  lemma WaitedIff(wait: int, passed: nat, credits: nat, max: nat)
    requires max > 0
    ensures Waited(wait, passed, credits, max) <==>
            wait == if passed > credits / max then UNIT_TIME_INTERVAL * (passed - credits / max) else 0
  {
    var usual := credits / max;
    if passed <= usual {
      MulLe(passed, usual, max);
    }
    if Waited(wait, passed, credits, max) {
      var slots := wait / UNIT_TIME_INTERVAL;
      if slots > 0 {
        DivUnique(credits, max, passed - slots, credits - max * (passed - slots));
      } else {
        DivMono(max * passed, credits, max);
        DivUnique(max * passed, max, passed, 0);
      }
    }
  }

  /** A slot more than the credits fill costs the time of one slot. */
  lemma OneSlotMore(wait: int, wait': int, passed: nat, credits: nat, max: nat)
    requires max > 0 && Waited(wait, passed, credits, max) && Waited(wait', passed + 1, credits, max)
    ensures wait' - wait == if max * (passed + 1) > credits then UNIT_TIME_INTERVAL else 0
  {
    WaitedIff(wait, passed, credits, max);
    WaitedIff(wait', passed + 1, credits, max);
    if passed + 1 <= credits / max {
      MulLe(passed + 1, credits / max, max);
    } else {
      MulLe(credits / max + 1, passed + 1, max);
    }
  }

  /**
   A channel of 26 credits to a slot, about 800 MB/s. After 16384 bytes a transfer of 4096 bytes at the same time ends
   six slots later; one of them it fills itself, so it waits for five.
   */
  lemma BusyExample(w: seq<nat>)
    requires |w| > 6 && forall k :: 0 <= k < |w| ==> w[k] == 26
    ensures var (w', _, _) := Consume(w, 0, Units(16384));
            && |w'| == |w| && Consume(w', 0, Units(4096)).2 == 6
            && forall wait :: Waited(wait, 6, Units(4096), 26) ==> wait == 20000
  {
    hide Consume;
    ConsumeStep(w, 0, 128);
    ConsumeStep(w[0 := 0], 1, 102);
    ConsumeStep(w[0 := 0][1 := 0], 2, 76);
    ConsumeStep(w[0 := 0][1 := 0][2 := 0], 3, 50);
    ConsumeStep(w[0 := 0][1 := 0][2 := 0][3 := 0], 4, 24);
    var w' := w[0 := 0][1 := 0][2 := 0][3 := 0][4 := 2];
    for k := 0 to 4
      invariant Consume(w', 0, 32) == Consume(w', k, 32)
    {
      ConsumeStep(w', k, 32);
      assert w'[k := 0] == w';
    }
    ConsumeStep(w', 4, 32);
    ConsumeStep(w'[4 := 0], 5, 30);
    ConsumeStep(w'[4 := 0][5 := 0], 6, 4);
    forall wait | Waited(wait, 6, Units(4096), 26)
      ensures wait == 20000
    {
      WaitedIff(wait, 6, 32, 26);
    }
  }

  /** On an idle channel a transfer never waits: it takes the time of its units and no more. */
  lemma {:induction false} IdleNeverWaits(rem: nat, max: nat)
    requires max > 0
    ensures IdleDelay(rem, max) <= rem / max
    decreases rem
  {
    if rem > max {
      IdleNeverWaits(rem - max, max);
      DivLess(rem, max);
    }
  }

  /** A transfer of `length` bytes asked for at `time` that ended at `end`. */
  datatype Sent = Sent(time: nat, length: nat, end: nat)

  class Ring {
    const n: nat                  // slots in the ring
    const maxCredits: nat         // credits a slot should have
    const full: nat               // credits a full slot has: one byte of them is kept
    const commandCredits: nat
    const xferLat: nat            // time to transfer one unit
    const avail: array<nat>
    var head: nat
    var validLen: nat
    var curTime: nat
    ghost var charged: nat -> nat // what each slot, counted from time 0, has been charged
    ghost var exact: bool         // no clock step so far was cut short by the 32 bits of the gap

    ghost var sent: seq<Sent>     // the transfers so far

    /** The slots in the order of time, starting with the current one. */
    ghost function Window(): (w: seq<nat>)
      reads this, avail
      requires avail.Length == n && head <= n
      ensures |w| == n
    {
      Rotated(avail[..], head)
    }

    ghost predicate Valid()
      reads this, avail
    {
      && 0 < n <= TWO32 && maxCredits > 0 && full == maxCredits % 256 && avail.Length == n
      && head < n && validLen <= n
      && RingOk(Window(), validLen, full)
      && Accounts(charged, Window(), CurSlot(), validLen, full, exact)
    }

    function CurSlot(): nat reads this { curTime / UNIT_TIME_INTERVAL }

    constructor (slots: nat, max: nat, command: nat, lat: nat)
      requires 0 < slots <= TWO32 && max > 0
      ensures Valid() && fresh(avail) && n == slots && maxCredits == max && commandCredits == command && xferLat == lat
      ensures validLen == 0 && curTime == 0 && exact && forall s: nat :: charged(s) == 0
    {
      n, maxCredits, full, commandCredits, xferLat := slots, max, max % 256, command, lat;
      var level := max % 256;
      avail := new nat[slots](_ => level);
      charged, exact, sent := _ => 0, true, [];
      head, validLen, curTime := 0, 0, 0;
    }

    /** Refills the slots `from .. to` of the buffer. */
    method Fill(from: nat, to: nat)
      requires from <= to <= avail.Length
      modifies avail
      ensures forall i :: 0 <= i < avail.Length ==> avail[i] == if from <= i < to then full else old(avail[i])
    {
      var i := from;
      while i < to
        invariant from <= i <= to
        invariant forall j :: 0 <= j < avail.Length ==> avail[j] == if from <= j < i then full else old(avail[j])
      {
        avail[i] := full;
        i := i + 1;
      }
    }

    /** Refills the first `offs` slots of the ring. */
    method RefillPassed(offs: nat)
      requires avail.Length == n && head < n && offs <= n
      modifies avail
      ensures forall i :: 0 <= i < n ==>
                avail[i] == if head <= i < head + offs || i < head + offs - n then full else old(avail[i])
    {
      if head + offs >= n {
        Fill(head, n);
        Fill(0, offs - (n - head));
      } else {
        Fill(head, head + offs);
      }
    }

    /** The clock moves: the slots passed are refilled and become the end of the ring. */
    method MoveClock(now: nat)
      requires Valid() && now >= curTime
      modifies this`head, this`validLen, this`curTime, this`exact, avail
      ensures Valid() && curTime == now
      ensures now / UNIT_TIME_INTERVAL >= old(CurSlot())
      ensures var offs := ClockOffset(now / UNIT_TIME_INTERVAL - old(CurSlot()), old(validLen));
              Window() == Shifted(old(Window()), offs, full) && validLen == old(validLen) - offs
              && exact == (old(exact) && offs == Min(now / UNIT_TIME_INTERVAL - old(CurSlot()), old(validLen)))
    {
      hide Rotated, Shifted, RingOk, Accounts;
      ghost var (a, h, v) := (avail[..], head, validLen);
      assert now / UNIT_TIME_INTERVAL >= curTime / UNIT_TIME_INTERVAL;
      var gap := now / UNIT_TIME_INTERVAL - curTime / UNIT_TIME_INTERVAL;
      var offs := gap % TWO32;
      offs := if offs < validLen then offs else validLen;
      ClockAccounts(charged, Rotated(a, h), CurSlot(), v, full, exact, gap);
      exact := exact && offs == Min(gap, validLen);
      RefillPassed(offs);
      Below2(head + offs, n);
      head := (head + offs) % n;
      curTime := now;
      validLen := validLen - offs;
      ClockShifts(a, avail[..], h, offs, full);
      ShiftKeepsRing(Rotated(a, h), v, offs, full);
    }

    /** Takes as much of `left` as slot `k`, at position `pos`, has. */
    method Take(pos: nat, ghost k: nat, left: nat) returns (consumed: nat)
      requires avail.Length == n && head < n && k < n && pos == Place(head, k, n)
      modifies avail
      ensures consumed == Min(left, old(Window())[k]) && Window() == old(Window())[k := old(Window())[k] - consumed]
    {
      hide Rotated;
      RotatedUpdate(avail[..], head, k, avail[pos] - Min(left, avail[pos]));
      consumed := Min(left, avail[pos]);
      avail[pos] := avail[pos] - consumed;
    }

    /** Charges `rem` credits to the slots from `roffs` on: the charge of the plain list of slots. */
    method ConsumeFrom(roffs: nat, rem: nat) returns (left: nat, pos: nat, delay: nat)
      requires avail.Length == n && head < n && roffs < n
      modifies avail
      ensures roffs + delay < n && pos == Place(head, roffs + delay, n)
      ensures (Window(), left, roffs + delay) == Consume(old(Window()), roffs, rem)
    {
      hide Rotated, Consume, Window;
      Below2(head + roffs, n);
      pos := (head + roffs) % n;
      left, delay := rem, 0;
      while true
        invariant roffs + delay < n && pos == Place(head, roffs + delay, n)
        invariant Consume(Window(), roffs + delay, left) == Consume(old(Window()), roffs, rem)
        decreases n - delay
      {
        ConsumeStep(Window(), roffs + delay, left);
        var consumed := Take(pos, roffs + delay, left);
        left := left - consumed;
        if left == 0 { break; }
        Below2(pos + 1, n);
        var next := (pos + 1) % n;
        if next == head { break; }
        delay := delay + 1;
        pos := next;
      }
    }

    /** The slots between the current one and the one at `time`, in 32 bits. */
    function SlotsAhead(time: nat): nat
      reads this
      requires time >= curTime
    {
      (time / UNIT_TIME_INTERVAL - curTime / UNIT_TIME_INTERVAL) % TWO32
    }

    /**
     One transfer. The slots of the request time on are charged and the transfer ends once it has the
     credits; a request of the past, or past the end of the ring, is let through uncharged.
     */
    method Request(now: nat, time: nat, length: nat) returns (t: nat)
      requires Valid() && now >= curTime
      modifies this`head, this`validLen, this`curTime, this`exact, this`charged, this`sent, avail
      ensures Valid() && curTime == now && t >= time && sent == old(sent) + [Sent(time, length, t)]
      ensures now / UNIT_TIME_INTERVAL >= old(CurSlot())
      ensures var gap := now / UNIT_TIME_INTERVAL - old(CurSlot());
              var offs := ClockOffset(gap, old(validLen));
              var w := Shifted(old(Window()), offs, full);
              var (units, credits) := (Units(length), Credits(length));
              && exact == (old(exact) && offs == Min(gap, old(validLen)))
              && if time < now || SlotsAhead(time) >= n then
                   t == time && Window() == w && charged == old(charged)
                 else
                   var (w', left, last) := Consume(w, SlotsAhead(time), credits);
                   && Window() == w' && charged == Charged(old(charged), w, w', CurSlot(), full)
                   && last >= SlotsAhead(time)
                   && Waited(t - time - xferLat * units % TWO32, last - SlotsAhead(time), credits, maxCredits)
    {
      hide Rotated, Shifted, RingOk, Accounts, Charged, Consume, Waited, Place, Units;
      MoveClock(now);
      if time < now || SlotsAhead(time) >= n {
        t := time;
      } else {
        t := Transfer(time, Units(length), SlotsAhead(time), Credits(length));
      }
      sent := sent + [Sent(time, length, t)];
    }

    /** The part of a request that uses the ring. */
    method Transfer(time: nat, units: nat, roffs: nat, credits: nat) returns (t: nat)
      requires Valid() && roffs < n
      modifies this`validLen, this`charged, avail
      ensures Valid() && t >= time
      ensures var w := old(Window());
              var (w', left, last) := Consume(w, roffs, credits);
              && Window() == w' && charged == Charged(old(charged), w, w', CurSlot(), full)
              && last >= roffs
              && Waited(t - time - xferLat * units % TWO32, last - roffs, credits, maxCredits)
    {
      hide Rotated, RingOk, Accounts, Charged, Consume, Waited, Units;
      ghost var w := Window();
      ConsumeKeepsRing(w, validLen, roffs, credits, full);
      ConsumeAccounts(charged, w, CurSlot(), validLen, full, exact, roffs, credits);
      var left, pos, delay := ConsumeFrom(roffs, credits);
      charged := Charged(charged, w, Window(), CurSlot(), full);
      var validLength := if pos >= head then pos - head + 1 else n - (head - pos - 1);
      if validLength > validLen {
        validLen := validLength;
      }
      var usual := credits / maxCredits;
      var extra := if delay > usual then delay - usual else 0;
      t := time + (xferLat * units % TWO32 + extra * UNIT_TIME_INTERVAL);
      WaitedIff(extra * UNIT_TIME_INTERVAL, delay, credits, maxCredits);
    }

    function Credits(length: nat): nat { (Units(length) + commandCredits) % TWO32 }

    /** Below the limits of 32 bits a transfer needs a credit for every unit, and those of the command. */
    lemma CreditsCover(length: nat)
      requires length <= UNIT_XFER_SIZE * (TWO32 - 1) && Units(length) + commandCredits < TWO32
      ensures UNIT_XFER_SIZE * (Credits(length) - commandCredits - 1) < length
          <= UNIT_XFER_SIZE * (Credits(length) - commandCredits)
    {
      hide Units;
      UnitsCover(length);
      DivUnique(Units(length) + commandCredits, TWO32, 0, Units(length) + commandCredits);
    }

    /** The idle form of a request: it takes the time of the units and no more. */
    method RequestCopy(time: nat, length: nat) returns (t: nat)
      requires Valid()
      ensures t == time + xferLat * Units(length) % TWO32
    {
      hide Accounts, RingOk;
      var units := Units(length);
      var credits := Credits(length);
      var rem: nat, delay: nat := credits, 0;
      var usual := credits / maxCredits;
      while true
        invariant delay + IdleDelay(rem, maxCredits) == IdleDelay(credits, maxCredits)
        decreases rem
      {
        var consumed := Min(rem, maxCredits);
        if rem == consumed { break; }
        rem := rem - consumed;
        delay := delay + 1;
      }
      IdleNeverWaits(credits, maxCredits);
      var extra := if delay > usual then delay - usual else 0;
      t := time + (xferLat * units % TWO32 + extra * UNIT_TIME_INTERVAL);
    }
  }

  /**
   On an idle ring a request takes the time of its units alone if and only if it passes no more slots
   than it would fill if a slot held the credits it should. A slot holds one byte of them, so this is
   always so when they fit in a byte.
   */
  lemma IdleRequest(w: seq<nat>, roffs: nat, credits: nat, max: nat, wait: int)
    requires max > 0 && roffs < |w| && forall k :: roffs <= k < |w| ==> w[k] == max % 256
    ensures var last := Consume(w, roffs, credits).2;
            && last >= roffs
            && (Waited(wait, last - roffs, credits, max) ==>
                  (wait == 0 <==> Waits(credits, max % 256, |w| - 1 - roffs) <= credits / max))
    ensures max < 256 ==> Waits(credits, max % 256, |w| - 1 - roffs) <= credits / max
  {
    hide Consume, Waited;
    IdleConsume(w, roffs, credits, max % 256);
    WaitedIff(wait, Waits(credits, max % 256, |w| - 1 - roffs), credits, max);
    if max < 256 {
      DivUnique(max, 256, 0, max);
      if credits > 0 {
        DivMono(credits - 1, credits, max);
      }
    }
  }

  /** With 256 credits to a slot the byte kept of them is 0: one unit waits for the whole ring. */
  lemma ByteCreditsExample(w: seq<nat>)
    requires |w| > 1 && forall k :: 0 <= k < |w| ==> w[k] == 256 % 256
    ensures Waits(1, 256 % 256, |w| - 1) == |w| - 1 > 1 / 256
    ensures Consume(w, 0, 1).2 == |w| - 1 && Waited((|w| - 1) * UNIT_TIME_INTERVAL, |w| - 1, 1, 256)
  {
    WaitedIff((|w| - 1) * UNIT_TIME_INTERVAL, |w| - 1, 1, 256);
    IdleConsume(w, 0, 1, 0);
  }

  /**
   A request on an idle ring against its idle form. Inside the ring the two agree exactly under the
   condition above; a request of the past, or past the end of the ring, is let through without the time
   of its units.
   */
  method RequestBoth(r: Ring, now: nat, time: nat, length: nat) returns (t: nat, copy: nat)
    requires r.Valid() && now >= r.curTime
    requires forall k :: 0 <= k < r.n ==> r.Window()[k] == r.full
    modifies r, r.avail
    ensures r.Valid() && r.curTime == now
    ensures time < now || r.SlotsAhead(time) >= r.n ==> (t == copy <==> r.xferLat * Units(length) % TWO32 == 0)
    ensures time >= now && r.SlotsAhead(time) < r.n ==>
              (t == copy <==> Waits(r.Credits(length), r.full,
                  r.n - 1 - r.SlotsAhead(time)) <= r.Credits(length) / r.maxCredits)
    ensures time >= now && r.SlotsAhead(time) < r.n && r.maxCredits < 256 ==> t == copy
  {
    hide Rotated, RingOk, Accounts, Charged, Consume, Waited, Place, Units, Waits;
    copy := r.RequestCopy(time, length);
    ghost var offs := ClockOffset(now / UNIT_TIME_INTERVAL - r.CurSlot(), r.validLen);
    ghost var w := Shifted(r.Window(), offs, r.full);
    t := r.Request(now, time, length);
    if time >= now && r.SlotsAhead(time) < r.n {
      IdleRequest(w, r.SlotsAhead(time), r.Credits(length), r.maxCredits,
                  t - time - r.xferLat * Units(length) % TWO32);
    }
  }

  datatype Call = Call(now: nat, time: nat, length: nat)

  function Slot(time: nat): nat { time / UNIT_TIME_INTERVAL }

  /** The clock moves by fewer than 2^32 slots to call `i`, or no slot is in use before the first one. */
  ghost predicate NoJump(start: nat, validLen: nat, calls: seq<Call>, i: nat)
    requires i < |calls|
  {
    if i == 0 then validLen == 0 || Slot(calls[0].now) - Slot(start) < TWO32
    else Slot(calls[i].now) - Slot(calls[i - 1].now) < TWO32
  }

  /**
   Any run of requests under a clock that never goes back: no slot of all time is ever charged more than
   a full one. As long as the clock never jumps 2^32 slots from one request to the next, the ring shows
   exactly what is left of each slot; before the first request of a new ring it may jump by any amount.
   */
  method Serve(r: Ring, calls: seq<Call>) returns (ts: seq<nat>)
    requires r.Valid() && r.exact
    requires forall i :: 0 <= i < |calls| ==> r.curTime <= calls[i].now
    requires forall i, j :: 0 <= i < j < |calls| ==> calls[i].now <= calls[j].now
    modifies r, r.avail
    ensures r.Valid() && |ts| == |calls|
    ensures forall i :: 0 <= i < |ts| ==> ts[i] >= calls[i].time
    ensures forall s: nat :: r.charged(s) <= r.full
    ensures (forall i :: 0 <= i < |calls| ==> NoJump(old(r.curTime), old(r.validLen), calls, i)) ==>
              forall s: nat :: s >= r.CurSlot() ==>
                  CreditAt(r.Window(), r.CurSlot(), r.full, s) + r.charged(s) == r.full
  {
    hide Ring.Valid;
    ts := [];
    for k := 0 to |calls|
      invariant r.Valid() && |ts| == k
      invariant forall i :: k <= i < |calls| ==> r.curTime <= calls[i].now
      invariant forall i :: 0 <= i < k ==> ts[i] >= calls[i].time
      invariant k == 0 ==> r.curTime == old(r.curTime) && r.validLen == old(r.validLen)
      invariant k > 0 ==> r.curTime == calls[k - 1].now
      invariant (forall i :: 0 <= i < |calls| ==> NoJump(old(r.curTime), old(r.validLen), calls, i)) ==> r.exact
    {
      assert (forall i :: 0 <= i < |calls| ==> NoJump(old(r.curTime), old(r.validLen), calls, i)) ==>
               NoJump(old(r.curTime), old(r.validLen), calls, k);
      var t := ServeOne(r, calls[k]);
      ts := ts + [t];
    }
    Accounted(r);
  }

  method ServeOne(r: Ring, c: Call) returns (t: nat)
    requires r.Valid() && r.curTime <= c.now
    modifies r, r.avail
    ensures r.Valid() && r.curTime == c.now && t >= c.time
    ensures old(r.exact) && (old(r.validLen) == 0 || Slot(c.now) - Slot(old(r.curTime)) < TWO32) ==> r.exact
  {
    hide Rotated, Shifted, RingOk, Accounts, Charged, Consume, Waited, Place, Units, ClockOffset;
    var gap := c.now / UNIT_TIME_INTERVAL - r.curTime / UNIT_TIME_INTERVAL;
    assert gap >= 0;
    if gap < TWO32 || r.validLen == 0 {
      ClockExact(gap, r.validLen);
    }
    t := r.Request(c.now, c.time, c.length);
  }

  lemma Accounted(r: Ring)
    requires r.Valid()
    ensures r.avail.Length == r.n && r.head <= r.n
    ensures forall s: nat :: r.charged(s) <= r.full
    ensures r.exact ==> forall s: nat :: s >= r.CurSlot() ==>
                          CreditAt(r.Window(), r.CurSlot(), r.full, s) + r.charged(s) == r.full
  {
    hide RingOk, Rotated;
  }
}
