/** The source-independent 30/60 Hz host timeline of the virtual camera. */
module OutputSampleClocks {
  import opened Results

  const SECOND: nat := 1_000_000_000

  datatype Failure = UnsupportedRate | Exhausted

  datatype Tick = Tick(presentation: nat, frameRate: nat, skippedSlots: nat)

  /** The stored values; rate 0 means no call has chosen one yet. */
  datatype Clock = Clock(
    rate: nat, anchor: Option<nat>, lastSlot: Option<nat>, lastPresentation: Option<nat>, nextDeadline: Option<nat>)

  predicate Supported(rate: nat) {
    rate == 30 || rate == 60
  }

  // ----- Checked 64-bit arithmetic -----

  function Add(a: nat, b: nat): Result<nat, Failure> {
    if a + b < U64 then Ok(a + b) else Err(Exhausted)
  }

  function Multiply(a: nat, b: nat): Result<nat, Failure> {
    if a * b < U64 then Ok(a * b) else Err(Exhausted)
  }

  function Offset(slot: nat, rate: nat, ceil: bool): Result<nat, Failure>
    requires Supported(rate)
  {
    var remainder := (slot % rate) * SECOND;
    var whole :- Multiply(slot / rate, SECOND);
    Add(whole, (remainder + (if ceil then rate - 1 else 0)) / rate)
  }

  function SlotOf(elapsed: nat, rate: nat): Result<nat, Failure> {
    var whole :- Multiply(elapsed / SECOND, rate);
    Add(whole, (elapsed % SECOND) * rate / SECOND)
  }

  // ----- One call -----

  function Retimed(c: Clock, now: nat, frameRate: nat): Result<Clock, Failure>
    requires Supported(frameRate)
  {
    var anchor :-
      if c.lastPresentation.Some? then
        var gap :- Offset(1, frameRate, true);
        Add(c.lastPresentation.value, gap)
      else Ok(now);
    Ok(Clock(frameRate, Some(anchor), None, c.lastPresentation, Some(anchor)))
  }

  /** The call once the rate is settled. */
  function Advance(c: Clock, now: nat): (Clock, Result<Option<Tick>, Failure>)
    requires Supported(c.rate)
  {
    if c.anchor.None? || now < c.anchor.value then (c, Ok(None))
    else
      var slot := SlotOf(now - c.anchor.value, c.rate);
      if slot.Err? then (c, Err(slot.error))
      else if c.lastSlot.Some? && slot.value <= c.lastSlot.value then (c, Ok(None))
      else
        match Issue(c, slot.value)
        case Err(e) => (c, Err(e))
        case Ok((next, tick)) => (next, Ok(Some(tick)))
  }

  function Issue(c: Clock, slot: nat): Result<(Clock, Tick), Failure>
    requires Supported(c.rate) && c.anchor.Some? && (c.lastSlot.Some? ==> c.lastSlot.value < slot)
  {
    var begin :- Offset(slot, c.rate, false);
    var presentation :- Add(c.anchor.value, begin);
    var following :- Add(slot, 1);
    var end :- Offset(following, c.rate, true);
    var deadline :- Add(c.anchor.value, end);
    var skipped := if c.lastSlot.Some? then slot - c.lastSlot.value - 1 else slot;
    Ok((Clock(c.rate, c.anchor, Some(slot), Some(presentation), Some(deadline)), Tick(presentation, c.rate, skipped)))
  }

  /** A failed change of rate leaves the new rate beside the old anchor. */
  function Call(c: Clock, now: nat, frameRate: nat): (Clock, Result<Option<Tick>, Failure>) {
    if !Supported(frameRate) then (c, Err(UnsupportedRate))
    else if c.rate == frameRate then Advance(c, now)
    else
      match Retimed(c, now, frameRate)
      case Err(e) => (c.(rate := frameRate), Err(e))
      case Ok(d) => Advance(d, now)
  }

  class OutputSampleClock {
    var rate: nat
    var anchor: Option<nat>
    var lastSlot: Option<nat>
    var lastPresentation: Option<nat>
    var nextDeadline: Option<nat>

    constructor ()
      ensures View() == INIT
    {
      rate, anchor, lastSlot, lastPresentation, nextDeadline := 0, None, None, None, None;
    }

    function View(): Clock
      reads this
    {
      Clock(rate, anchor, lastSlot, lastPresentation, nextDeadline)
    }

    method TickAt(now: nat, frameRate: nat) returns (r: Result<Option<Tick>, Failure>)
      requires now < U64 && frameRate < U64
      modifies this
      ensures (View(), r) == Call(old(View()), now, frameRate)
    {
      hide Offset, Add, Multiply;
      if frameRate != 30 && frameRate != 60 {
        return Err(UnsupportedRate);
      }
      if rate != frameRate {
        rate := frameRate;
        if lastPresentation.Some? {
          var gap :- Offset(1, frameRate, true);
          var a :- Add(lastPresentation.value, gap);
          anchor := Some(a);
        } else {
          anchor := Some(now);
        }
        lastSlot := None;
        nextDeadline := anchor;
      }
      if anchor.None? || now < anchor.value {
        return Ok(None);
      }
      var elapsed := now - anchor.value;
      var slot :- SlotOf(elapsed, rate);
      if lastSlot.Some? && slot <= lastSlot.value {
        return Ok(None);
      }
      var begin :- Offset(slot, rate, false);
      var presentation :- Add(anchor.value, begin);
      var following :- Add(slot, 1);
      var end :- Offset(following, rate, true);
      var next :- Add(anchor.value, end);
      var skipped := if lastSlot.Some? then slot - lastSlot.value - 1 else slot;
      lastSlot := Some(slot);
      lastPresentation := Some(presentation);
      nextDeadline := Some(next);
      return Ok(Some(Tick(presentation, rate, skipped)));
    }
  }

  const INIT := Clock(0, None, None, None, None)

  // ----- The split arithmetic is exact -----

  function Floor(slot: nat, rate: nat): nat
    requires rate > 0
  {
    slot * SECOND / rate
  }

  function Ceil(slot: nat, rate: nat): nat
    requires rate > 0
  {
    (slot * SECOND + rate - 1) / rate
  }

  /** The slot never overflows and is the exact number of whole frame periods elapsed. */
  lemma SlotExact(elapsed: nat, rate: nat)
    requires elapsed < U64 && Supported(rate)
    ensures SlotOf(elapsed, rate) == Ok(elapsed * rate / SECOND)
  {
    var q, t := elapsed / SECOND, elapsed % SECOND;
    assert elapsed * rate == SECOND * (q * rate) + t * rate;
    assert elapsed * rate / SECOND == q * rate + t * rate / SECOND;
    assert q * rate <= 18_446_744_073 * 60;
  }

  lemma OffsetSplit(slot: nat, rate: nat, extra: nat)
    requires Supported(rate)
    ensures (slot * SECOND + extra) / rate == slot / rate * SECOND + (slot % rate * SECOND + extra) / rate
  {
    if rate == 30 {
      assert (slot * SECOND + extra) / 30 == slot / 30 * SECOND + (slot % 30 * SECOND + extra) / 30;
    } else {
      assert (slot * SECOND + extra) / 60 == slot / 60 * SECOND + (slot % 60 * SECOND + extra) / 60;
    }
  }

  /** An offset is the exact rounded time of its slot, and overflows exactly when that time does. */
  lemma OffsetExact(slot: nat, rate: nat, ceil: bool)
    requires Supported(rate)
    ensures var exact := if ceil then Ceil(slot, rate) else Floor(slot, rate);
            Offset(slot, rate, ceil) == if exact < U64 then Ok(exact) else Err(Exhausted)
  {
    OffsetSplit(slot, rate, if ceil then rate - 1 else 0);
  }

  // ----- The timeline -----

  /** Slot s covers the times from Floor(s) up to Ceil(s + 1). */
  lemma SlotCovers(elapsed: nat, rate: nat)
    requires Supported(rate)
    ensures var s := elapsed * rate / SECOND; Floor(s, rate) <= elapsed < Ceil(s + 1, rate)
  {
    var s := elapsed * rate / SECOND;
    assert s * SECOND <= elapsed * rate < (s + 1) * SECOND;
    if rate == 30 {
      assert elapsed * rate == elapsed * 30;
    } else {
      assert elapsed * rate == elapsed * 60;
    }
  }

  /** A time belongs to a later slot exactly from the deadline of the slot before on. */
  lemma LaterSlotFromDeadline(elapsed: nat, rate: nat, s: nat)
    requires Supported(rate)
    ensures s < elapsed * rate / SECOND <==> Ceil(s + 1, rate) <= elapsed
    ensures elapsed == Ceil(s + 1, rate) ==> elapsed * rate / SECOND == s + 1
  {
    if rate == 30 {
      assert elapsed * rate == elapsed * 30;
    } else {
      assert elapsed * rate == elapsed * 60;
    }
  }

  lemma PeriodsAdd(s: nat, t: nat, rate: nat)
    requires Supported(rate) && s < t
    ensures Floor(s, rate) + Floor(1, rate) <= Floor(t, rate)
    ensures Floor(s, rate) < Ceil(t, rate)
  {
  }

  /** What holds between calls until an overflow is reported. */
  ghost predicate Inv(c: Clock) {
    && (c.rate == 0 ==> c == INIT)
    && (c.rate != 0 ==> Supported(c.rate) && c.anchor.Some? && c.anchor.value < U64)
    && (c.lastSlot.Some? ==>
          && c.rate != 0
          && c.lastPresentation == Some(c.anchor.value + Floor(c.lastSlot.value, c.rate))
          && c.nextDeadline == Some(c.anchor.value + Ceil(c.lastSlot.value + 1, c.rate)))
    && (c.lastSlot.None? && c.rate != 0 ==> c.nextDeadline == c.anchor)
    && (c.lastSlot.None? && c.lastPresentation.Some? ==>
          c.rate != 0 && c.anchor.value == c.lastPresentation.value + Ceil(1, c.rate))
  }

  /** The slot a call at this rate and time falls in. */
  function SlotNow(c: Clock, now: nat): nat
    requires c.anchor.Some? && c.anchor.value <= now
  {
    (now - c.anchor.value) * c.rate / SECOND
  }

  /** Everything a call at the settled rate does, in exact arithmetic. */
  lemma AdvanceExact(c: Clock, now: nat)
    requires Inv(c) && c.rate != 0 && now < U64
    ensures var a := c.anchor.value; var (d, r) := Advance(c, now);
            if now < a || (c.lastSlot.Some? && SlotNow(c, now) <= c.lastSlot.value) then d == c && r == Ok(None)
            else
              var slot := SlotNow(c, now);
              var deadline := a + Ceil(slot + 1, c.rate);
              if deadline >= U64 then d == c && r == Err(Exhausted)
              else
                && d == Clock(c.rate, c.anchor, Some(slot), Some(a + Floor(slot, c.rate)), Some(deadline))
                && r == Ok(Some(Tick(a + Floor(slot, c.rate), c.rate,
                                     slot - (if c.lastSlot.Some? then c.lastSlot.value + 1 else 0))))
  {
    hide Offset, SlotOf, Floor, Ceil, Issue;
    if c.anchor.value <= now {
      var slot := SlotNow(c, now);
      SlotExact(now - c.anchor.value, c.rate);
      if c.lastSlot.None? || c.lastSlot.value < slot {
        SlotSmall(now - c.anchor.value, c.rate);
        IssueExact(c, slot);
      }
    }
  }

  lemma IssueExact(c: Clock, slot: nat)
    requires Supported(c.rate) && c.anchor.Some? && (c.lastSlot.Some? ==> c.lastSlot.value < slot) && slot + 1 < U64
    ensures var a := c.anchor.value; var deadline := a + Ceil(slot + 1, c.rate);
            Issue(c, slot) == if deadline >= U64 then Err(Exhausted)
                              else Ok((Clock(c.rate, c.anchor, Some(slot), Some(a + Floor(slot, c.rate)), Some(deadline)),
                                       Tick(a + Floor(slot, c.rate), c.rate,
                                            slot - (if c.lastSlot.Some? then c.lastSlot.value + 1 else 0))))
  {
    OffsetExact(slot, c.rate, false);
    OffsetExact(slot + 1, c.rate, true);
    PeriodsAdd(slot, slot + 1, c.rate);
    hide Offset, Floor, Ceil;
  }

  lemma SlotSmall(elapsed: nat, rate: nat)
    requires elapsed < U64 && Supported(rate)
    ensures elapsed * rate / SECOND + 1 < U64
  {
    assert elapsed * rate <= elapsed * 60;
  }

  lemma RetimedKeeps(c: Clock, now: nat, frameRate: nat)
    requires Inv(c) && now < U64 && Supported(frameRate) && Retimed(c, now, frameRate).Ok?
    ensures var d := Retimed(c, now, frameRate).value;
            && Inv(d) && d.rate == frameRate && d.lastSlot.None? && d.lastPresentation == c.lastPresentation
            && d.anchor == Some(if c.lastPresentation.Some? then c.lastPresentation.value + Ceil(1, frameRate) else now)
  {
    OffsetExact(1, frameRate, true);
    hide Offset, Floor, Ceil;
  }

  /** A new rate is taken up one rounded period after the last presentation; only that time can overflow. */
  lemma RetimedExactly(c: Clock, now: nat, frameRate: nat)
    requires Supported(frameRate) && now < U64
    ensures var period := if frameRate == 30 then 33_333_334 else 16_666_667;
            var anchor := if c.lastPresentation.Some? then c.lastPresentation.value + period else now;
            Retimed(c, now, frameRate) == if anchor >= U64 then Err(Exhausted)
                                          else Ok(Clock(frameRate, Some(anchor), None, c.lastPresentation, Some(anchor)))
  {
    OffsetExact(1, frameRate, true);
    hide Offset;
  }

  lemma RetimedFails(c: Clock, now: nat, frameRate: nat)
    requires Supported(frameRate)
    ensures Retimed(c, now, frameRate).Err? ==> Retimed(c, now, frameRate) == Err(Exhausted)
  {
  }

  lemma AdvanceKeeps(c: Clock, now: nat)
    requires Inv(c) && c.rate != 0 && now < U64
    ensures var (d, r) := Advance(c, now);
            && Inv(d) && d.rate == c.rate
            && (r.Ok? && r.value.Some? ==> Issued(c.lastPresentation, d, r.value.value, now, c.rate))
            && (r.Err? || r.value.None? ==> d == c)
  {
    hide Floor, Ceil, Advance;
    AdvanceExact(c, now);
    var (d, r) := Advance(c, now);
    if r.Ok? && r.value.Some? {
      IssuedOnTime(c, d, r.value.value, now);
    }
  }

  lemma IssuedOnTime(c: Clock, d: Clock, tick: Tick, now: nat)
    requires Inv(c) && Supported(c.rate) && c.anchor.value <= now
    requires var slot := SlotNow(c, now); var a := c.anchor.value;
             && (c.lastSlot.Some? ==> c.lastSlot.value < slot)
             && d.rate == c.rate && d.lastPresentation == Some(a + Floor(slot, c.rate))
             && a + Ceil(slot + 1, c.rate) < U64 && d.nextDeadline == Some(a + Ceil(slot + 1, c.rate))
             && tick.presentation == a + Floor(slot, c.rate) && tick.frameRate == c.rate
    ensures Issued(c.lastPresentation, d, tick, now, c.rate)
  {
    hide Floor, Ceil;
    var slot := SlotNow(c, now);
    SlotCovers(now - c.anchor.value, c.rate);
    if c.lastSlot.Some? {
      PeriodsAdd(c.lastSlot.value, slot, c.rate);
    } else {
      RoundedPeriod(c.rate);
    }
  }

  lemma RoundedPeriod(rate: nat)
    requires Supported(rate)
    ensures Floor(1, rate) <= Ceil(1, rate) == if rate == 30 then 33_333_334 else 16_666_667
  {
  }

  /**
   * A tick given out at time now: it lies in the present slot, comes at least one whole period after the tick before it,
   * and the deadline for the next one is still ahead.
   */
  ghost predicate Issued(last: Option<nat>, d: Clock, tick: Tick, now: nat, frameRate: nat) {
    && Supported(frameRate) && tick.frameRate == frameRate && d.rate == frameRate
    && d.lastPresentation == Some(tick.presentation)
    && (last.Some? ==> last.value + Floor(1, frameRate) <= tick.presentation)
    && d.nextDeadline.Some? && tick.presentation <= now < d.nextDeadline.value < U64
  }

  /** Every call, whatever rate it asks for, that does not report an overflow. */
  lemma CallKeeps(c: Clock, now: nat, frameRate: nat)
    requires Inv(c) && now < U64 && Call(c, now, frameRate).1 != Err(Exhausted)
    ensures var (d, r) := Call(c, now, frameRate);
            && Inv(d)
            && (r.Ok? && r.value.Some? ==> Issued(c.lastPresentation, d, r.value.value, now, frameRate))
            && (r.Err? || r.value.None? ==> d.lastPresentation == c.lastPresentation)
  {
    hide Inv, Advance, Retimed, Issued;
    if Supported(frameRate) {
      RetimedFails(c, now, frameRate);
      if c.rate == frameRate {
        AdvanceKeeps(c, now);
      } else if Retimed(c, now, frameRate).Ok? {
        RetimedKeeps(c, now, frameRate);
        AdvanceKeeps(Retimed(c, now, frameRate).value, now);
      }
    }
  }

  /** Only 30 and 60 frames a second are taken; any other rate is refused and changes nothing. */
  lemma RatesExactly(c: Clock, now: nat, frameRate: nat)
    requires Inv(c) && now < U64
    ensures Call(c, now, frameRate).1 == Err(UnsupportedRate) <==> frameRate != 30 && frameRate != 60
    ensures frameRate != 30 && frameRate != 60 ==> Call(c, now, frameRate).0 == c
  {
    hide Advance, Retimed, Floor, Ceil;
    if Supported(frameRate) {
      RetimedFails(c, now, frameRate);
      if c.rate == frameRate {
        AdvanceExact(c, now);
      } else if Retimed(c, now, frameRate).Ok? {
        RetimedKeeps(c, now, frameRate);
        AdvanceExact(Retimed(c, now, frameRate).value, now);
      }
    }
  }

  /**
   * A call that starts the clock or changes its rate: without a presentation so far the first tick is due at once;
   * after one, the new rate's slots begin one of its periods later.
   */
  lemma RateChangesExactly(c: Clock, now: nat, frameRate: nat)
    requires Inv(c) && Supported(frameRate) && c.rate != frameRate && now < U64
    ensures var (d, r) := Call(c, now, frameRate);
            var period := if frameRate == 30 then 33_333_334 else 16_666_667;
            if c.lastPresentation.None? then
              if now + period >= U64 then r == Err(Exhausted)
              else r == Ok(Some(Tick(now, frameRate, 0))) && d.anchor == Some(now) && d.nextDeadline == Some(now + period)
            else
              var anchor := c.lastPresentation.value + period;
              && (anchor >= U64 ==> r == Err(Exhausted) && d == c.(rate := frameRate))
              && (anchor < U64 && now < anchor ==> r == Ok(None) && d.nextDeadline == d.anchor == Some(anchor))
              && (anchor < U64 && now == anchor && anchor + period < U64 ==> r == Ok(Some(Tick(anchor, frameRate, 0))))
  {
    hide Advance, Retimed;
    RetimedExactly(c, now, frameRate);
    if Retimed(c, now, frameRate).Ok? {
      RetimedKeeps(c, now, frameRate);
      AdvanceExact(Retimed(c, now, frameRate).value, now);
    }
  }

  /** Once started, the clock is due exactly from its deadline on. */
  lemma DueFromDeadline(c: Clock, now: nat)
    requires Inv(c) && c.rate != 0 && now < U64
    ensures c.nextDeadline.Some?
    ensures Call(c, now, c.rate).1 == Ok(None) <==> now < c.nextDeadline.value
    ensures now == c.nextDeadline.value && Call(c, now, c.rate).1.Ok? ==>
              && Call(c, now, c.rate).0.lastSlot == Some(if c.lastSlot.Some? then c.lastSlot.value + 1 else 0)
              && Call(c, now, c.rate).1.value.value.skippedSlots == 0
  {
    hide Advance, Floor, Ceil;
    AdvanceExact(c, now);
    if c.anchor.value <= now && c.lastSlot.Some? {
      LaterSlotFromDeadline(now - c.anchor.value, c.rate, c.lastSlot.value);
    }
  }

  // ----- Runs -----

  datatype Poll = Poll(now: nat, frameRate: nat)

  function After(c: Clock, polls: seq<Poll>): Clock
    decreases |polls|
  {
    if polls == [] then c else After(Call(c, polls[0].now, polls[0].frameRate).0, polls[1..])
  }

  function Emitted(r: Result<Option<Tick>, Failure>): seq<Tick> {
    if r.Ok? && r.value.Some? then [r.value.value] else []
  }

  function Ticks(c: Clock, polls: seq<Poll>): seq<Tick>
    decreases |polls|
  {
    if polls == [] then []
    else
      var (d, r) := Call(c, polls[0].now, polls[0].frameRate);
      Emitted(r) + Ticks(d, polls[1..])
  }

  predicate Overflows(c: Clock, polls: seq<Poll>)
    decreases |polls|
  {
    polls != [] &&
    var (d, r) := Call(c, polls[0].now, polls[0].frameRate);
    r == Err(Exhausted) || Overflows(d, polls[1..])
  }

  ghost predicate Spaced(last: Option<nat>, ticks: seq<Tick>) {
    && (forall i | 0 <= i < |ticks| :: Supported(ticks[i].frameRate))
    && (last.Some? ==> forall i | 0 <= i < |ticks| :: last.value + Floor(1, ticks[i].frameRate) <= ticks[i].presentation)
    && forall i, j {:trigger ticks[i], ticks[j]} | 0 <= i < j < |ticks| ::
         ticks[i].presentation + Floor(1, ticks[j].frameRate) <= ticks[j].presentation
  }

  lemma SpacedMore(last: Option<nat>, tick: Tick, rest: seq<Tick>)
    requires Supported(tick.frameRate) && Spaced(Some(tick.presentation), rest)
    requires last.Some? ==> last.value + Floor(1, tick.frameRate) <= tick.presentation
    ensures Spaced(last, [tick] + rest)
  {
    hide Floor;
    var all := [tick] + rest;
    assert forall i | 0 < i < |all| :: all[i] == rest[i - 1];
  }

  lemma {:induction false} RunKeeps(c: Clock, polls: seq<Poll>)
    requires Inv(c) && !Overflows(c, polls) && forall p | p in polls :: p.now < U64
    ensures Inv(After(c, polls)) && Spaced(c.lastPresentation, Ticks(c, polls))
    decreases |polls|
  {
    if polls != [] {
      hide Inv, Call, Spaced, Floor;
      var (d, r) := Call(c, polls[0].now, polls[0].frameRate);
      assert polls[0] in polls;
      CallKeeps(c, polls[0].now, polls[0].frameRate);
      RunKeeps(d, polls[1..]);
      var rest := Ticks(d, polls[1..]);
      if r.Ok? && r.value.Some? {
        SpacedMore(c.lastPresentation, r.value.value, rest);
      } else {
        assert [] + rest == rest;
      }
    }
  }

  /**
   * Over every run of calls at any rates and times, until an overflow is reported, each tick is presented at least one
   * whole period of its own rate after every tick before it.
   */
  lemma PresentationsAreSpaced(polls: seq<Poll>)
    requires !Overflows(INIT, polls) && forall p | p in polls :: p.now < U64
    ensures Spaced(None, Ticks(INIT, polls))
  {
    RunKeeps(INIT, polls);
  }

  function Slots(c: Clock): nat {
    if c.lastSlot.Some? then c.lastSlot.value + 1 else 0
  }

  function Accounted(ticks: seq<Tick>): nat {
    if ticks == [] then 0 else 1 + ticks[0].skippedSlots + Accounted(ticks[1..])
  }

  lemma CallAccounts(c: Clock, now: nat)
    requires Inv(c) && c.rate != 0 && now < U64
    ensures var (d, r) := Call(c, now, c.rate);
            && Inv(d) && d.rate == c.rate && d.anchor == c.anchor && Accounted(Emitted(r)) + Slots(c) == Slots(d)
  {
    AdvanceKeeps(c, now);
    AdvanceExact(c, now);
    hide Floor, Ceil, Advance;
  }

  /**
   * Over any run at one rate every slot is either given out or counted as skipped, so the last presentation is its
   * anchor plus the exact time of all slots so far: rounding never accumulates.
   */
  lemma {:induction false} NoDrift(c: Clock, polls: seq<Poll>)
    requires Inv(c) && c.rate != 0 && forall p | p in polls :: p.now < U64 && p.frameRate == c.rate
    ensures var d := After(c, polls);
            && Inv(d) && d.rate == c.rate && d.anchor == c.anchor
            && Slots(d) == Slots(c) + Accounted(Ticks(c, polls))
            && (Slots(d) > 0 ==> d.lastPresentation == Some(c.anchor.value + Floor(Slots(d) - 1, c.rate)))
    decreases |polls|
  {
    hide Inv, Call, Floor, Slots, Emitted;
    if polls == [] {
      SlotsTell(c);
    } else {
      assert polls[0] in polls;
      CallAccounts(c, polls[0].now);
      var (d, r) := Call(c, polls[0].now, polls[0].frameRate);
      NoDrift(d, polls[1..]);
      AccountedMore(r, Ticks(d, polls[1..]));
    }
  }

  lemma SlotsTell(c: Clock)
    requires Inv(c) && c.rate != 0
    ensures Slots(c) > 0 ==> c.lastPresentation == Some(c.anchor.value + Floor(Slots(c) - 1, c.rate))
  {
  }

  lemma AccountedMore(r: Result<Option<Tick>, Failure>, rest: seq<Tick>)
    ensures Accounted(Emitted(r) + rest) == Accounted(Emitted(r)) + Accounted(rest)
  {
    if Emitted(r) == [] {
      assert Emitted(r) + rest == rest;
    } else {
      assert (Emitted(r) + rest)[1..] == rest;
    }
  }

  /** The same from the call that starts the clock or changes its rate: its anchor is new and its slots count from 0. */
  lemma NoDriftFromRateChange(c: Clock, polls: seq<Poll>, frameRate: nat)
    requires Inv(c) && Supported(frameRate) && c.rate != frameRate && polls != []
    requires forall p | p in polls :: p.now < U64 && p.frameRate == frameRate
    requires c.lastPresentation.Some? ==> c.lastPresentation.value + Ceil(1, frameRate) < U64
    ensures var d := After(c, polls);
            && d.anchor == Some(if c.lastPresentation.Some? then c.lastPresentation.value + Ceil(1, frameRate)
                                else polls[0].now)
            && Slots(d) == Accounted(Ticks(c, polls))
            && (Slots(d) > 0 ==> d.lastPresentation == Some(d.anchor.value + Floor(Slots(d) - 1, frameRate)))
  {
    hide Inv, Advance, Retimed, Floor, Ceil;
    assert polls[0] in polls;
    RetimedExactly(c, polls[0].now, frameRate);
    RoundedPeriod(frameRate);
    var r := Retimed(c, polls[0].now, frameRate).value;
    RetimedKeeps(c, polls[0].now, frameRate);
    assert Call(c, polls[0].now, frameRate) == Call(r, polls[0].now, frameRate);
    assert After(c, polls) == After(r, polls) && Ticks(c, polls) == Ticks(r, polls);
    NoDrift(r, polls);
  }
}
