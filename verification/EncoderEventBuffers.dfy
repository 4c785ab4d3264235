/** The bounded hand-off of encoded frames, which drops whole dependent groups when its consumer falls behind. */
module EncoderEventBuffers {
  import opened Results

  /** number counts the units in the order the encoder submitted them. */
  datatype AccessUnit = AccessUnit(streamEpoch: nat, encoderGeneration: nat, isKeyframe: bool, number: nat)

  datatype VideoEncoderEvent =
    | Unit(unit: AccessUnit)
    | Failure(streamEpoch: nat, encoderGeneration: nat)
    | QueueOverflow(streamEpoch: nat, encoderGeneration: nat)

  type Events = seq<VideoEncoderEvent>

  datatype Buffer = Buffer(capacity: nat, events: Events, waiting: bool)

  /** enqueue under the lock, with whether the event was taken in. */
  function Enqueue(b: Buffer, e: VideoEncoderEvent): (Buffer, bool) {
    match e
    case Unit(u) =>
      if b.waiting then
        if !u.isKeyframe then (b, false)
        else (b.(events := b.events + [e], waiting := false), true)
      else if |b.events| < b.capacity then (b.(events := b.events + [e]), true)
      else
        var overflow := QueueOverflow(u.streamEpoch, u.encoderGeneration);
        (b.(events := if u.isKeyframe then [overflow, e] else [overflow], waiting := !u.isKeyframe), true)
    case _ => (b.(events := if |b.events| >= b.capacity then [e] else b.events + [e]), true)
  }

  class VideoEncoderEventBuffer {
    const capacity: nat
    var events: Events
    var waitingForKeyframe: bool

    constructor (capacity: nat)
      requires capacity >= 2
      ensures View() == Buffer(capacity, [], false)
    {
      this.capacity := capacity;
      events, waitingForKeyframe := [], false;
    }

    function View(): Buffer
      reads this
    {
      Buffer(capacity, events, waitingForKeyframe)
    }

    method EnqueueEvent(e: VideoEncoderEvent) returns (didEnqueue: bool)
      modifies this
      ensures View() == Enqueue(old(View()), e).0 && didEnqueue == Enqueue(old(View()), e).1
    {
      match e
      case Unit(u) =>
        if waitingForKeyframe {
          if !u.isKeyframe {
            return false;
          }
          events := events + [e];
          waitingForKeyframe := false;
          return true;
        }
        if |events| >= capacity {
          events := [];
          events := events + [QueueOverflow(u.streamEpoch, u.encoderGeneration)];
          waitingForKeyframe := !u.isKeyframe;
          if u.isKeyframe {
            events := events + [e];
          }
          return true;
        }
        events := events + [e];
        return true;
      case _ =>
        if |events| >= capacity {
          events := [];
        }
        events := events + [e];
        return true;
    }

    method Drain() returns (drained: Events)
      modifies this`events
      ensures drained == old(events) && View() == old(View()).(events := [])
    {
      drained := events;
      events := [];
    }

    method DiscardUntilKeyframe()
      modifies this
      ensures View() == old(View()).(events := [], waiting := true)
    {
      events := [];
      waitingForKeyframe := true;
    }
  }

  // ----- Every run -----

  /** delivered is everything drained so far; submitted counts the units offered. */
  datatype State = State(buffer: Buffer, submitted: nat, delivered: Events)

  datatype Step =
    | Submit(streamEpoch: nat, encoderGeneration: nat, isKeyframe: bool)
    | Report(failed: bool, streamEpoch: nat, encoderGeneration: nat)
    | DrainAll
    | Discard

  function Native(failed: bool, streamEpoch: nat, encoderGeneration: nat): VideoEncoderEvent {
    if failed then Failure(streamEpoch, encoderGeneration) else QueueOverflow(streamEpoch, encoderGeneration)
  }

  function Next(s: State, step: Step): State {
    match step
    case Submit(epoch, generation, isKeyframe) =>
      s.(buffer := Enqueue(s.buffer, Unit(AccessUnit(epoch, generation, isKeyframe, s.submitted))).0,
         submitted := s.submitted + 1)
    case Report(failed, epoch, generation) => s.(buffer := Enqueue(s.buffer, Native(failed, epoch, generation)).0)
    case DrainAll => s.(buffer := s.buffer.(events := []), delivered := s.delivered + s.buffer.events)
    case Discard => s.(buffer := s.buffer.(events := [], waiting := true))
  }

  function Run(s: State, steps: seq<Step>): State
    decreases |steps|
  {
    if steps == [] then s else Run(Next(s, steps[0]), steps[1..])
  }

  function Init(capacity: nat): State {
    State(Buffer(capacity, [], false), 0, [])
  }

  // ----- What a consumer sees -----

  /** The number of the last unit in a log. */
  function LastUnit(log: Events): Option<nat> {
    if log == [] then None
    else
      var e := log[|log| - 1];
      if e.Unit? then Some(e.unit.number) else LastUnit(log[..|log| - 1])
  }

  /** A marker stands after the last unit. */
  predicate MarkedSince(log: Events) {
    log != [] && !log[|log| - 1].Unit?
  }

  /** This event follows the log in a way a decoder can use: its predecessor was the last unit, or a marker warns. */
  predicate Usable(log: Events, e: VideoEncoderEvent) {
    e.Unit? && !e.unit.isKeyframe && e.unit.number > 0 ==>
      LastUnit(log) == Some(e.unit.number - 1) || MarkedSince(log)
  }

  predicate Follows(log: Events, e: VideoEncoderEvent) {
    e.Unit? && !e.unit.isKeyframe && e.unit.number > 0 ==> LastUnit(log) == Some(e.unit.number - 1)
  }

  predicate InOrder(log: Events, e: VideoEncoderEvent) {
    e.Unit? ==> LastUnit(log).None? || LastUnit(log).value < e.unit.number
  }

  ghost predicate AllUsable(log: Events) {
    forall i {:trigger log[i]} | 0 <= i < |log| :: Usable(log[..i], log[i])
  }

  ghost predicate AllFollow(log: Events) {
    forall i {:trigger log[i]} | 0 <= i < |log| :: Follows(log[..i], log[i])
  }

  ghost predicate AllInOrder(log: Events) {
    forall i {:trigger log[i]} | 0 <= i < |log| :: InOrder(log[..i], log[i])
  }

  /** Everything delivered, then everything still queued. */
  function Log(s: State): Events {
    s.delivered + s.buffer.events
  }

  /** The next unit would be usable, or directly follow, if it were queued now. */
  predicate Warned(s: State) {
    s.submitted == 0 || LastUnit(Log(s)) == Some(s.submitted - 1) || MarkedSince(Log(s))
  }

  predicate Linked(s: State) {
    s.buffer.waiting || s.submitted == 0 || LastUnit(Log(s)) == Some(s.submitted - 1)
  }

  predicate Ordered(s: State) {
    LastUnit(Log(s)).None? || LastUnit(Log(s)).value < s.submitted
  }

  ghost predicate Inv(s: State) {
    && s.buffer.capacity >= 2
    && |s.buffer.events| <= s.buffer.capacity + (if s.buffer.waiting then 0 else 1)
    && AllUsable(Log(s)) && AllInOrder(Log(s)) && Ordered(s)
    && (s.buffer.waiting || Warned(s))
  }

  /** A native marker that meets a full queue holding units, while no keyframe is awaited. */
  predicate Breaks(s: State, step: Step) {
    && step.Report? && !s.buffer.waiting && |s.buffer.events| >= s.buffer.capacity
    && LastUnit(s.buffer.events).Some?
  }

  predicate Unbroken(s: State, steps: seq<Step>)
    decreases |steps|
  {
    steps == [] || (!Breaks(s, steps[0]) && Unbroken(Next(s, steps[0]), steps[1..]))
  }

  // ----- Logs grow by one event, or lose a queued tail -----

  lemma Extend(log: Events, e: VideoEncoderEvent)
    ensures LastUnit(log + [e]) == if e.Unit? then Some(e.unit.number) else LastUnit(log)
    ensures MarkedSince(log + [e]) == !e.Unit?
    ensures AllUsable(log) && Usable(log, e) ==> AllUsable(log + [e])
    ensures AllFollow(log) && Follows(log, e) ==> AllFollow(log + [e])
    ensures AllInOrder(log) && InOrder(log, e) ==> AllInOrder(log + [e])
  {
    var all := log + [e];
    assert all[..|log|] == log;
    assert forall i | 0 <= i < |log| :: all[..i] == log[..i];
  }

  lemma Prefix(log: Events, tail: Events)
    ensures AllUsable(log + tail) ==> AllUsable(log)
    ensures AllFollow(log + tail) ==> AllFollow(log)
    ensures AllInOrder(log + tail) ==> AllInOrder(log)
  {
    var all := log + tail;
    assert forall i | 0 <= i < |log| :: all[i] == log[i] && all[..i] == log[..i];
  }

  /** In an ordered log no earlier unit has a later number. */
  lemma {:induction false} EarlierIsSmaller(log: Events, tail: Events)
    requires AllInOrder(log + tail)
    ensures LastUnit(log).Some? ==> LastUnit(log + tail).Some? && LastUnit(log).value <= LastUnit(log + tail).value
    ensures LastUnit(tail).Some? ==>
              LastUnit(log + tail) == LastUnit(tail)
              && (LastUnit(log).Some? ==> LastUnit(log).value < LastUnit(tail).value)
    ensures LastUnit(tail).None? ==> LastUnit(log + tail) == LastUnit(log)
    decreases |tail|
  {
    if tail == [] {
      assert log + tail == log;
    } else {
      var init, e := tail[..|tail| - 1], tail[|tail| - 1];
      assert log + tail == log + init + [e] && tail == init + [e];
      Prefix(log + init, [e]);
      EarlierIsSmaller(log, init);
      Extend(log + init, e);
      Extend(init, e);
      assert InOrder((log + tail)[..|log + init|], (log + tail)[|log + init|]);
      assert (log + tail)[..|log + init|] == log + init;
    }
  }

  // ----- What every step keeps -----

  /** Good logs, whose last unit was submitted before the n-th. */
  ghost predicate Good(log: Events, n: nat) {
    AllUsable(log) && AllInOrder(log) && (LastUnit(log).None? || LastUnit(log).value < n)
  }

  lemma GoodWith(log: Events, n: nat, e: VideoEncoderEvent)
    requires Good(log, n) && (e.Unit? ==> e.unit.number == n)
    requires e.Unit? && !e.unit.isKeyframe && n > 0 ==> LastUnit(log) == Some(n - 1) || MarkedSince(log)
    ensures Good(log + [e], if e.Unit? then n + 1 else n)
    ensures LastUnit(log + [e]) == (if e.Unit? then Some(n) else LastUnit(log)) && MarkedSince(log + [e]) == !e.Unit?
  {
    hide AllUsable, AllInOrder;
    Extend(log, e);
  }

  lemma GoodBefore(log: Events, tail: Events, n: nat)
    requires Good(log + tail, n)
    ensures Good(log, n)
  {
    hide AllUsable, AllInOrder;
    Prefix(log, tail);
    EarlierIsSmaller(log, tail);
  }

  lemma SubmitKeeps(s: State, epoch: nat, generation: nat, isKeyframe: bool)
    requires Inv(s)
    ensures Inv(Next(s, Submit(epoch, generation, isKeyframe)))
  {
    hide AllUsable, AllInOrder, LastUnit, MarkedSince;
    var b, n, t := s.buffer, s.submitted, Next(s, Submit(epoch, generation, isKeyframe));
    var e := Unit(AccessUnit(epoch, generation, isKeyframe, n));
    assert Good(Log(s), n);
    if b.waiting || |b.events| < b.capacity {
      if !b.waiting || isKeyframe {
        GoodWith(Log(s), n, e);
        assert Log(t) == Log(s) + [e];
      }
    } else {
      var overflow := QueueOverflow(epoch, generation);
      GoodBefore(s.delivered, b.events, n);
      GoodWith(s.delivered, n, overflow);
      if isKeyframe {
        GoodWith(s.delivered + [overflow], n, e);
        assert Log(t) == s.delivered + [overflow] + [e];
      }
    }
  }

  lemma ReportKeeps(s: State, failed: bool, epoch: nat, generation: nat)
    requires Inv(s)
    ensures Inv(Next(s, Report(failed, epoch, generation)))
  {
    hide AllUsable, AllInOrder, LastUnit, MarkedSince;
    var b, n, t := s.buffer, s.submitted, Next(s, Report(failed, epoch, generation));
    var e := Native(failed, epoch, generation);
    assert Good(Log(s), n);
    if |b.events| >= b.capacity {
      GoodBefore(s.delivered, b.events, n);
      GoodWith(s.delivered, n, e);
    } else {
      GoodWith(Log(s), n, e);
      assert Log(t) == Log(s) + [e];
    }
  }

  lemma StepKeeps(s: State, step: Step)
    requires Inv(s)
    ensures Inv(Next(s, step))
  {
    match step
    case Submit(epoch, generation, isKeyframe) => SubmitKeeps(s, epoch, generation, isKeyframe);
    case Report(failed, epoch, generation) => ReportKeeps(s, failed, epoch, generation);
    case DrainAll =>
      assert Log(Next(s, step)) == Log(s);
    case Discard =>
      GoodBefore(s.delivered, s.buffer.events, s.submitted);
      assert Log(Next(s, step)) == s.delivered;
  }

  lemma {:induction false} RunKeeps(s: State, steps: seq<Step>)
    requires Inv(s)
    ensures Inv(Run(s, steps))
    decreases |steps|
  {
    hide Inv, Next;
    if steps != [] {
      StepKeeps(s, steps[0]);
      RunKeeps(Next(s, steps[0]), steps[1..]);
    }
  }

  lemma InitInv(capacity: nat)
    requires capacity >= 2
    ensures Inv(Init(capacity)) && Linked(Init(capacity)) && AllFollow(Log(Init(capacity)))
  {
  }

  // ----- When every delta unit directly follows its predecessor -----

  lemma SubmitKeepsLink(s: State, epoch: nat, generation: nat, isKeyframe: bool)
    requires Inv(s) && Linked(s) && AllFollow(Log(s))
    ensures var t := Next(s, Submit(epoch, generation, isKeyframe)); Linked(t) && AllFollow(Log(t))
  {
    hide AllUsable, AllInOrder, AllFollow, LastUnit, MarkedSince;
    var b, n, t := s.buffer, s.submitted, Next(s, Submit(epoch, generation, isKeyframe));
    var e := Unit(AccessUnit(epoch, generation, isKeyframe, n));
    if b.waiting || |b.events| < b.capacity {
      if !b.waiting || isKeyframe {
        Extend(Log(s), e);
        assert Log(t) == Log(s) + [e];
      }
    } else {
      var overflow := QueueOverflow(epoch, generation);
      Prefix(s.delivered, b.events);
      Extend(s.delivered, overflow);
      Extend(s.delivered + [overflow], e);
      assert isKeyframe ==> Log(t) == s.delivered + [overflow] + [e];
    }
  }

  lemma ReportKeepsLink(s: State, failed: bool, epoch: nat, generation: nat)
    requires Inv(s) && Linked(s) && AllFollow(Log(s)) && !Breaks(s, Report(failed, epoch, generation))
    ensures var t := Next(s, Report(failed, epoch, generation)); Linked(t) && AllFollow(Log(t))
  {
    hide AllUsable, AllInOrder, AllFollow, LastUnit, MarkedSince;
    var b, t := s.buffer, Next(s, Report(failed, epoch, generation));
    var e := Native(failed, epoch, generation);
    if |b.events| >= b.capacity {
      Prefix(s.delivered, b.events);
      Extend(s.delivered, e);
      EarlierIsSmaller(s.delivered, b.events);
    } else {
      Extend(Log(s), e);
      assert Log(t) == Log(s) + [e];
    }
  }

  lemma StepKeepsLink(s: State, step: Step)
    requires Inv(s) && Linked(s) && AllFollow(Log(s)) && !Breaks(s, step)
    ensures Linked(Next(s, step)) && AllFollow(Log(Next(s, step)))
  {
    match step
    case Submit(epoch, generation, isKeyframe) => SubmitKeepsLink(s, epoch, generation, isKeyframe);
    case Report(failed, epoch, generation) => ReportKeepsLink(s, failed, epoch, generation);
    case DrainAll =>
      assert Log(Next(s, step)) == Log(s);
    case Discard =>
      Prefix(s.delivered, s.buffer.events);
      assert Log(Next(s, step)) == s.delivered;
  }

  lemma {:induction false} UnbrokenRunKeepsLink(s: State, steps: seq<Step>)
    requires Inv(s) && Linked(s) && AllFollow(Log(s)) && Unbroken(s, steps)
    ensures Linked(Run(s, steps)) && AllFollow(Log(Run(s, steps)))
    decreases |steps|
  {
    hide Inv, Next, Linked, AllFollow, Breaks;
    if steps != [] {
      StepKeeps(s, steps[0]);
      StepKeepsLink(s, steps[0]);
      UnbrokenRunKeepsLink(Next(s, steps[0]), steps[1..]);
    }
  }

  // ----- The promises -----

  /** In every run the queue holds at most one event more than its capacity. */
  lemma LengthIsBounded(capacity: nat, steps: seq<Step>)
    requires capacity >= 2
    ensures |Run(Init(capacity), steps).buffer.events| <= capacity + 1
  {
    InitInv(capacity);
    RunKeeps(Init(capacity), steps);
    SameCapacity(Init(capacity), steps);
  }

  lemma {:induction false} SameCapacity(s: State, steps: seq<Step>)
    ensures Run(s, steps).buffer.capacity == s.buffer.capacity
    decreases |steps|
  {
    if steps != [] {
      SameCapacity(Next(s, steps[0]), steps[1..]);
    }
  }

  /** The queue passes its capacity exactly when a keyframe ends a wait during which markers have filled it. */
  lemma CapacityIsPassedExactly(capacity: nat, steps: seq<Step>, step: Step)
    requires capacity >= 2 && |Run(Init(capacity), steps).buffer.events| <= capacity
    ensures var s := Run(Init(capacity), steps);
            |Next(s, step).buffer.events| > capacity
            <==> step.Submit? && step.isKeyframe && s.buffer.waiting && |s.buffer.events| == capacity
  {
    SameCapacity(Init(capacity), steps);
  }

  function Reports(n: nat): seq<Step> {
    if n == 0 then [] else [Report(true, 0, 0)] + Reports(n - 1)
  }

  lemma {:induction false} ReportsThenKeyframe(s: State, n: nat)
    requires s.buffer.waiting && |s.buffer.events| + n == s.buffer.capacity
    ensures |Run(s, Reports(n) + [Submit(0, 0, true)]).buffer.events| == s.buffer.capacity + 1
    decreases n
  {
    var steps := Reports(n) + [Submit(0, 0, true)];
    if n == 0 {
      assert steps == [Submit(0, 0, true)];
      assert Run(Next(s, steps[0]), steps[1..]) == Next(s, steps[0]);
    } else {
      assert steps[0] == Report(true, 0, 0) && steps[1..] == Reports(n - 1) + [Submit(0, 0, true)];
      ReportsThenKeyframe(Next(s, steps[0]), n - 1);
    }
  }

  /** The bound is reached: a keyframe that ends a wait is not checked against the capacity. */
  lemma CapacityIsExceeded(capacity: nat)
    requires capacity >= 2
    ensures |Run(Init(capacity), [Discard] + (Reports(capacity) + [Submit(0, 0, true)])).buffer.events| == capacity + 1
  {
    var steps := [Discard] + (Reports(capacity) + [Submit(0, 0, true)]);
    assert steps[1..] == Reports(capacity) + [Submit(0, 0, true)];
    ReportsThenKeyframe(Next(Init(capacity), Discard), capacity);
  }

  /**
   * In every run units are delivered in submission order without repeats, and each delivered delta unit comes straight
   * after its predecessor or after a marker that stands behind every unit delivered before it.
   */
  lemma DeliveredUnitsAreUsable(capacity: nat, steps: seq<Step>)
    requires capacity >= 2
    ensures AllUsable(Run(Init(capacity), steps).delivered) && AllInOrder(Run(Init(capacity), steps).delivered)
  {
    InitInv(capacity);
    RunKeeps(Init(capacity), steps);
    var s := Run(Init(capacity), steps);
    Prefix(s.delivered, s.buffer.events);
  }

  /** While no native marker flushes queued units, every delivered delta unit directly follows its predecessor. */
  lemma UnbrokenDeliveryFollows(capacity: nat, steps: seq<Step>)
    requires capacity >= 2 && Unbroken(Init(capacity), steps)
    ensures AllFollow(Run(Init(capacity), steps).delivered)
  {
    InitInv(capacity);
    UnbrokenRunKeepsLink(Init(capacity), steps);
    var s := Run(Init(capacity), steps);
    Prefix(s.delivered, s.buffer.events);
  }

  /** The condition is exact: after such a flush the next delta unit is delivered without its predecessor. */
  lemma BrokenDeliverySkips(capacity: nat, steps: seq<Step>, report: Step)
    requires capacity >= 2 && Breaks(Run(Init(capacity), steps), report)
    ensures !AllFollow(Next(Next(Next(Run(Init(capacity), steps), report), Submit(0, 0, false)), DrainAll).delivered)
  {
    var s := Run(Init(capacity), steps);
    InitInv(capacity);
    RunKeeps(Init(capacity), steps);
    EarlierIsSmaller(s.delivered, s.buffer.events);
    hide LastUnit, AllUsable, AllInOrder;
    var m := Native(report.failed, report.streamEpoch, report.encoderGeneration);
    var e := Unit(AccessUnit(0, 0, false, s.submitted));
    var log := s.delivered + [m];
    Extend(s.delivered, m);
    var t := Next(Next(Next(s, report), Submit(0, 0, false)), DrainAll);
    assert t.delivered == log + [e];
    assert t.delivered[..|log|] == log && t.delivered[|log|] == e;
    assert !Follows(log, e);
  }

  /**
   * Over every run a unit is queued behind everything else unless it is a delta during a wait, or meets a full queue.
   * A full queue gives way to an overflow marker with the unit's epoch and generation: a keyframe follows it at once,
   * a delta unit is dropped and begins a wait. Consumers are woken for all but a delta dropped during a wait.
   */
  lemma SubmissionsExactly(capacity: nat, steps: seq<Step>, epoch: nat, generation: nat, isKeyframe: bool)
    requires capacity >= 2
    ensures var s := Run(Init(capacity), steps);
            var t := Next(s, Submit(epoch, generation, isKeyframe));
            var e := Unit(AccessUnit(epoch, generation, isKeyframe, s.submitted));
            var full := !s.buffer.waiting && |s.buffer.events| >= capacity;
            && t.delivered == s.delivered && t.submitted == s.submitted + 1
            && (Enqueue(s.buffer, e).1 <==> isKeyframe || !s.buffer.waiting)
            && t.buffer.waiting == (!isKeyframe && (s.buffer.waiting || full))
            && t.buffer.events == (if full then [QueueOverflow(epoch, generation)] else s.buffer.events)
                                  + (if isKeyframe || !(s.buffer.waiting || full) then [e] else [])
  {
    SameCapacity(Init(capacity), steps);
    var s := Run(Init(capacity), steps);
    assert s.buffer.events + [] == s.buffer.events;
  }

  /** Over every run a native marker is queued last and wakes the consumer; it flushes a full queue, and only that. */
  lemma ReportsExactly(capacity: nat, steps: seq<Step>, failed: bool, epoch: nat, generation: nat)
    requires capacity >= 2
    ensures var s := Run(Init(capacity), steps);
            var t := Next(s, Report(failed, epoch, generation));
            var e := if failed then Failure(epoch, generation) else QueueOverflow(epoch, generation);
            && t.delivered == s.delivered && t.buffer.waiting == s.buffer.waiting && t.submitted == s.submitted
            && t.buffer.events == (if |s.buffer.events| < capacity then s.buffer.events else []) + [e]
            && Enqueue(s.buffer, e).1
  {
    SameCapacity(Init(capacity), steps);
  }

  /** The last of these steps that begins or ends a wait begins one. */
  ghost predicate WaitBegun(capacity: nat, steps: seq<Step>) {
    exists k | 0 <= k < |steps| ::
      && BeginsWait(Run(Init(capacity), steps[..k]), steps[k])
      && forall j | k < j < |steps| :: !(steps[j].Submit? && steps[j].isKeyframe)
  }

  /** A discard, or a delta unit that meets a full queue. */
  predicate BeginsWait(s: State, step: Step) {
    step.Discard? || (step.Submit? && !step.isKeyframe && |s.buffer.events| >= s.buffer.capacity)
  }

  lemma {:induction false} RunAppends(s: State, steps: seq<Step>, step: Step)
    ensures Run(s, steps + [step]) == Next(Run(s, steps), step)
    decreases |steps|
  {
    hide Next;
    if steps == [] {
      assert steps + [step] == [step];
      assert Run(Next(s, step), []) == Next(s, step);
    } else {
      assert (steps + [step])[0] == steps[0] && (steps + [step])[1..] == steps[1..] + [step];
      RunAppends(Next(s, steps[0]), steps[1..], step);
    }
  }

  /** Over every run a keyframe is awaited exactly when none came since the last discard or overflowing delta unit. */
  lemma {:induction false} WaitsExactly(capacity: nat, steps: seq<Step>)
    requires capacity >= 2
    ensures Run(Init(capacity), steps).buffer.waiting <==> WaitBegun(capacity, steps)
    decreases |steps|
  {
    if steps != [] {
      var last := |steps| - 1;
      var init, step := steps[..last], steps[last];
      assert steps == init + [step];
      RunAppends(Init(capacity), init, step);
      WaitsExactly(capacity, init);
      forall k | 0 <= k < last
        ensures steps[..k] == init[..k] && steps[k] == init[k]
      {
      }
      if BeginsWait(Run(Init(capacity), init), step) {
        assert steps[..last] == init;
      }
    }
  }

  function OfferedBy(submitted: nat, step: Step): Events {
    match step
    case Submit(epoch, generation, isKeyframe) => [Unit(AccessUnit(epoch, generation, isKeyframe, submitted))]
    case Report(failed, epoch, generation) => [Native(failed, epoch, generation)]
    case _ => []
  }

  /** The events offered by a run's steps, in order. */
  function Offered(submitted: nat, steps: seq<Step>): Events
    decreases |steps|
  {
    if steps == [] then []
    else OfferedBy(submitted, steps[0]) + Offered(if steps[0].Submit? then submitted + 1 else submitted, steps[1..])
  }

  /** The consumer keeps up: nothing is offered to a full queue, and no discard is asked for. */
  predicate KeepsUp(s: State, steps: seq<Step>)
    decreases |steps|
  {
    steps == [] || (!steps[0].Discard? && (steps[0].DrainAll? || |s.buffer.events| < s.buffer.capacity)
                    && KeepsUp(Next(s, steps[0]), steps[1..]))
  }

  lemma NothingIsLostAt(s: State, step: Step)
    requires !s.buffer.waiting && !step.Discard? && (step.DrainAll? || |s.buffer.events| < s.buffer.capacity)
    ensures var t := Next(s, step);
            && Log(t) == Log(s) + OfferedBy(s.submitted, step) && !t.buffer.waiting
            && t.submitted == if step.Submit? then s.submitted + 1 else s.submitted
  {
  }

  /** A consumer that keeps up gets everything that is offered, in order. */
  lemma {:induction false} NothingIsLost(s: State, steps: seq<Step>)
    requires !s.buffer.waiting && KeepsUp(s, steps)
    ensures Log(Run(s, steps)) == Log(s) + Offered(s.submitted, steps) && !Run(s, steps).buffer.waiting
    decreases |steps|
  {
    hide Next, OfferedBy, Log;
    if steps != [] {
      var t := Next(s, steps[0]);
      NothingIsLostAt(s, steps[0]);
      NothingIsLost(t, steps[1..]);
    }
  }

  /** Whatever happened before, a keyframe is always queued and ends every wait. */
  lemma KeyframesAreQueued(s: State, epoch: nat, generation: nat)
    ensures var t := Next(s, Submit(epoch, generation, true));
            !t.buffer.waiting && LastUnit(Log(t)) == Some(s.submitted)
  {
    var t := Next(s, Submit(epoch, generation, true));
    assert Log(t)[|Log(t)| - 1] == Unit(AccessUnit(epoch, generation, true, s.submitted));
  }
}
