/** The macOS sink: a consume loop per client, gated by a generation, feeding one prepared sample. */
module CameraSinks {
  import opened Results

  type Client = nat

  /** What a delivered sample carries; image stands for its pixels. */
  datatype Sample = Sample(generation: nat, compatible: bool, discontinuous: bool, image: nat)

  // ----- The locked sections of the sink -----

  datatype Sink = Sink(generation: nat, pending: set<Client>, started: bool, demand: bool)

  /** A transition's locked section: the sink after it, the generation, and whether to start consuming. */
  datatype Opened = Opened(sink: Sink, generation: nat, consume: bool)

  function Start(s: Sink): Opened {
    Opened(s.(generation := s.generation + 1, started := true), s.generation + 1, s.demand)
  }

  function Stop(s: Sink): Opened {
    Opened(s.(generation := s.generation + 1, started := false), s.generation + 1, false)
  }

  function SetDemand(s: Sink, demanded: bool): Opened {
    if s.demand == demanded then Opened(s, s.generation, false)
    else
      Opened(s.(demand := demanded, generation := s.generation + 1), s.generation + 1, demanded && s.started)
  }

  predicate Admits(s: Sink, client: Client, generation: nat) {
    generation == s.generation && s.demand && s.started && client !in s.pending
  }

  function Admit(s: Sink, client: Client, generation: nat): Sink {
    if Admits(s, client, generation) then s.(pending := s.pending + {client}) else s
  }

  /** The callback's locked section. */
  function Release(s: Sink, client: Client): Sink {
    s.(pending := s.pending - {client})
  }

  function Restart(s: Sink, generation: nat): Option<nat> {
    if generation != s.generation && s.demand && s.started then Some(s.generation) else None
  }

  // ----- The frame queue's half -----

  /** What the output shows: the black fallback or a sink sample. */
  datatype Picture = Black | FromSink(sample: Sample)

  datatype Device = Device(generation: nat, prepared: Option<Picture>, dropped: bool)

  function Invalidate(d: Device, generation: nat): Device {
    Device(generation, None, true)
  }

  function Accept(d: Device, sample: Sample): Device {
    if sample.generation != d.generation || !sample.compatible then d.(dropped := true)
    else Device(d.generation, Some(FromSink(sample)), d.dropped || sample.discontinuous)
  }

  // ----- The objects -----

  class PicooCameraSinkStreamSource {
    var consumptionGeneration: nat
    var pendingClients: set<Client>
    var sinkStarted: bool
    var outputDemand: bool

    constructor ()
      ensures View() == Sink(0, {}, false, false)
    {
      consumptionGeneration, pendingClients, sinkStarted, outputDemand := 0, {}, false, false;
    }

    function View(): Sink
      reads this
    {
      Sink(consumptionGeneration, pendingClients, sinkStarted, outputDemand)
    }

    method StartSection() returns (generation: nat, consume: bool)
      modifies this
      ensures Opened(View(), generation, consume) == Start(old(View()))
    {
      consumptionGeneration := consumptionGeneration + 1;
      sinkStarted := true;
      return consumptionGeneration, outputDemand;
    }

    method StopSection() returns (generation: nat)
      modifies this
      ensures Opened(View(), generation, false) == Stop(old(View()))
    {
      consumptionGeneration := consumptionGeneration + 1;
      sinkStarted := false;
      return consumptionGeneration;
    }

    method DemandSection(demanded: bool) returns (generation: nat, consume: bool)
      modifies this
      ensures Opened(View(), generation, consume) == SetDemand(old(View()), demanded)
    {
      if outputDemand == demanded {
        return consumptionGeneration, false;
      }
      outputDemand := demanded;
      consumptionGeneration := consumptionGeneration + 1;
      return consumptionGeneration, demanded && sinkStarted;
    }

    method ConsumeSection(client: Client, generation: nat) returns (admitted: bool)
      modifies this`pendingClients
      ensures admitted == Admits(old(View()), client, generation)
      ensures View() == Admit(old(View()), client, generation)
    {
      if generation == consumptionGeneration && outputDemand && sinkStarted && client !in pendingClients {
        pendingClients := pendingClients + {client};
        return true;
      }
      return false;
    }

    method CallbackSection(client: Client, generation: nat) returns (current: bool, restart: Option<nat>)
      modifies this`pendingClients
      ensures View() == Release(old(View()), client)
      ensures current == (generation == old(View()).generation) && restart == Restart(old(View()), generation)
    {
      pendingClients := pendingClients - {client};
      current := generation == consumptionGeneration;
      restart := if !current && outputDemand && sinkStarted then Some(consumptionGeneration) else None;
    }
  }

  class PicooCameraDeviceSource {
    var sinkGeneration: nat
    var preparedPixelBuffer: Option<Picture>
    var sampleWasDropped: bool

    constructor ()
      ensures View() == Device(0, None, false)
    {
      sinkGeneration, preparedPixelBuffer, sampleWasDropped := 0, None, false;
    }

    function View(): Device
      reads this
    {
      Device(sinkGeneration, preparedPixelBuffer, sampleWasDropped)
    }

    method InvalidateSinkSamples(generation: nat)
      modifies this
      ensures View() == Invalidate(old(View()), generation)
    {
      sinkGeneration := generation;
      preparedPixelBuffer := None;
      sampleWasDropped := true;
    }

    method AcceptSinkSample(sample: Sample)
      modifies this
      ensures View() == Accept(old(View()), sample)
    {
      if sample.generation != sinkGeneration {
        sampleWasDropped := true;
        return;
      }
      if !sample.compatible {
        sampleWasDropped := true;
        return;
      }
      preparedPixelBuffer := Some(FromSink(sample));
      if sample.discontinuous {
        sampleWasDropped := true;
      }
    }
  }

  // ----- Every interleaving -----

  /** A transition between its steps; only one is under way at a time. */
  datatype Transition =
    | Idle
    | Invalidating(generation: nat, consume: bool)
    | Consuming(generation: nat, clients: set<Client>, todo: set<Client>)

  /** What a callback, or a retry timer, has still to do. */
  datatype Task =
    | Consume(client: Client, generation: nat)
    | DeliverThenConsume(client: Client, generation: nat, sample: Sample)
    | BackOff(client: Client, generation: nat)
    | Retry(client: Client, generation: nat)

  datatype InFlight = InFlight(client: Client, generation: nat)

  /**
   * outstanding are the consumes handed to the platform; deliveries wait on the frame queue; tried are the clients
   * for which the latest transition has already called the consume loop.
   */
  datatype State = State(
    sink: Sink, device: Device, transition: Transition, outstanding: seq<InFlight>, tasks: seq<Task>,
    deliveries: seq<Sample>, tried: set<Client>)

  datatype Event =
    | BeginStart
    | BeginStop
    | BeginDemand(demanded: bool)
    | RunInvalidation(clients: set<Client>)
    | ConsumeClient(client: Client)
    | FinishTransition
    | Callback(i: nat, sample: Option<Sample>)
    | RunTask(i: nat)
    | RunDelivery(i: nat)
    | ClearPrepared
    | EmitBlack
    | Emit
    | FailToEmit(black: bool)

  const INIT := State(Sink(0, {}, false, false), Device(0, None, false), Idle, [], [], [], {})

  function Begin(s: State, section: Opened): State {
    s.(sink := section.sink, transition := Invalidating(section.generation, section.consume),
       tried := if section.generation == s.sink.generation then s.tried else {})
  }

  /** consumeNext: one more consume handed to the platform, if it is admitted. */
  function ConsumeNext(s: State, client: Client, generation: nat): State {
    s.(sink := Admit(s.sink, client, generation),
       outstanding := if Admits(s.sink, client, generation) then s.outstanding + [InFlight(client, generation)]
                      else s.outstanding)
  }

  /** A platform callback up to the end of its locked section; the sample carries the generation it was consumed for. */
  function DoCallback(s: State, i: nat, sample: Option<Sample>): State
    requires i < |s.outstanding|
  {
    var f := s.outstanding[i];
    var restart := Restart(s.sink, f.generation);
    var next :=
      if f.generation != s.sink.generation then
        if restart.Some? then [Consume(f.client, restart.value)] else []
      else if sample.Some? then
        [DeliverThenConsume(f.client, f.generation, sample.value.(generation := f.generation))]
      else [BackOff(f.client, f.generation)];
    s.(sink := Release(s.sink, f.client), outstanding := Without(s.outstanding, i), tasks := s.tasks + next)
  }

  function DoTask(s: State, i: nat): State
    requires i < |s.tasks|
  {
    match s.tasks[i]
    case DeliverThenConsume(client, generation, sample) =>
      s.(deliveries := s.deliveries + [sample], tasks := s.tasks[i := Consume(client, generation)])
    case BackOff(client, generation) => s.(tasks := s.tasks[i := Retry(client, generation)])
    case Consume(client, generation) => ConsumeNext(s, client, generation).(tasks := Without(s.tasks, i))
    case Retry(client, generation) => ConsumeNext(s, client, generation).(tasks := Without(s.tasks, i))
  }

  /** One atomic step; an event that cannot happen leaves the state alone. */
  function Step(s: State, e: Event): State {
    match e
    case BeginStart => if s.transition.Idle? then Begin(s, Start(s.sink)) else s
    case BeginStop => if s.transition.Idle? then Begin(s, Stop(s.sink)) else s
    case BeginDemand(demanded) => if s.transition.Idle? then Begin(s, SetDemand(s.sink, demanded)) else s
    case RunInvalidation(clients) =>
      if s.transition.Invalidating? then
        var g := s.transition.generation;
        s.(device := Invalidate(s.device, g),
           transition := if s.transition.consume then Consuming(g, clients, clients) else Idle)
      else s
    case ConsumeClient(client) =>
      if s.transition.Consuming? && client in s.transition.todo then
        ConsumeNext(s, client, s.transition.generation).(
          transition := s.transition.(todo := s.transition.todo - {client}), tried := s.tried + {client})
      else s
    case FinishTransition => if s.transition.Consuming? && s.transition.todo == {} then s.(transition := Idle) else s
    case Callback(i, sample) => if i < |s.outstanding| then DoCallback(s, i, sample) else s
    case RunTask(i) => if i < |s.tasks| then DoTask(s, i) else s
    case RunDelivery(i) =>
      if i < |s.deliveries| then
        s.(device := Accept(s.device, s.deliveries[i]), deliveries := Without(s.deliveries, i))
      else s
    case ClearPrepared => s.(device := s.device.(prepared := None))
    case EmitBlack => s.(device := s.device.(prepared := Some(Black), dropped := false))
    case Emit => s.(device := s.device.(dropped := false))
    case FailToEmit(black) =>
      s.(device := s.device.(prepared := if black then Some(Black) else s.device.prepared, dropped := true))
  }

  function Run(s: State, events: seq<Event>): State
    decreases |events|
  {
    if events == [] then s else Run(Step(s, events[0]), events[1..])
  }

  // ----- Safety -----

  /** Exactly the pending clients have a consume outstanding, each exactly one. */
  ghost predicate OneEach(outstanding: seq<InFlight>, pending: set<Client>) {
    && (forall i, j {:trigger outstanding[i], outstanding[j]} | 0 <= i < j < |outstanding| ::
          outstanding[i].client != outstanding[j].client)
    && (forall i {:trigger outstanding[i]} | 0 <= i < |outstanding| :: outstanding[i].client in pending)
    && forall c {:trigger c in pending} | c in pending :: exists i :: 0 <= i < |outstanding| && outstanding[i].client == c
  }

  /** The loop of a client still turns: a consume is outstanding, or a task of the current generation will start one. */
  ghost predicate Turning(s: State, c: Client) {
    || c in s.sink.pending
    || exists i {:trigger s.tasks[i]} :: 0 <= i < |s.tasks| && s.tasks[i].client == c
                                         && s.tasks[i].generation == s.sink.generation
  }

  ghost predicate Inv(s: State) {
    && OneEach(s.outstanding, s.sink.pending)
    && (s.device.prepared.Some? && s.device.prepared.value.FromSink? ==>
          s.device.prepared.value.sample.generation == s.device.generation)
    && s.device.generation <= s.sink.generation
    && (!s.transition.Idle? ==> s.transition.generation == s.sink.generation)
    && (s.transition.Invalidating? && s.transition.consume ==> s.tried == {})
    && (s.transition.Consuming? ==> s.tried + s.transition.todo == s.transition.clients)
    && (s.sink.demand && s.sink.started ==> forall c | c in s.tried :: Turning(s, c))
  }

  lemma WithoutAt<T>(s: seq<T>, i: nat)
    requires i < |s|
    ensures forall k {:trigger s[k]} | 0 <= k < |s| && k != i :: Without(s, i)[if k < i then k else k - 1] == s[k]
    ensures forall k {:trigger Without(s, i)[k]} | 0 <= k < |s| - 1 :: Without(s, i)[k] == s[if k < i then k else k + 1]
  {
  }

  lemma AdmitKeepsOneEach(s: State, c: Client, g: nat)
    requires OneEach(s.outstanding, s.sink.pending)
    ensures OneEach(ConsumeNext(s, c, g).outstanding, ConsumeNext(s, c, g).sink.pending)
  {
    if Admits(s.sink, c, g) {
      var o, p := s.outstanding + [InFlight(c, g)], s.sink.pending + {c};
      assert o[|s.outstanding|].client == c;
      forall k {:trigger k in p} | k in p
        ensures exists i :: 0 <= i < |o| && o[i].client == k
      {
        if k in s.sink.pending {
          var i :| 0 <= i < |s.outstanding| && s.outstanding[i].client == k;
          assert o[i].client == k;
        }
      }
    }
  }

  /** Where a remaining consume stood before the i-th one was removed. */
  function Before(i: nat, k: nat): nat {
    if k < i then k else k + 1
  }

  lemma ReleaseKeepsDistinct(o: seq<InFlight>, p: set<Client>, i: nat, j: nat, k: nat)
    requires OneEach(o, p) && i < |o| && j < k < |o| - 1
    ensures Without(o, i)[j].client != Without(o, i)[k].client
  {
    assert Without(o, i)[j] == o[Before(i, j)] && Without(o, i)[k] == o[Before(i, k)];
  }

  lemma ReleaseKeepsMembers(o: seq<InFlight>, p: set<Client>, i: nat, j: nat)
    requires OneEach(o, p) && i < |o| && j < |o| - 1
    ensures Without(o, i)[j].client in p - {o[i].client}
  {
    var b := Before(i, j);
    assert Without(o, i)[j] == o[b];
    assert o[b].client != o[i].client by {
      if b < i { assert o[b].client != o[i].client; } else { assert o[i].client != o[b].client; }
    }
  }

  lemma ReleaseKeepsPending(o: seq<InFlight>, p: set<Client>, i: nat, c: Client)
    requires OneEach(o, p) && i < |o| && c in p && c != o[i].client
    ensures exists j :: 0 <= j < |o| - 1 && Without(o, i)[j].client == c
  {
    var k :| 0 <= k < |o| && o[k].client == c;
    assert Without(o, i)[if k < i then k else k - 1] == o[k];
  }

  lemma ReleaseKeepsOneEach(o: seq<InFlight>, p: set<Client>, i: nat)
    requires OneEach(o, p) && i < |o|
    ensures OneEach(Without(o, i), p - {o[i].client})
  {
    var r, q := Without(o, i), p - {o[i].client};
    assert OneEach(r, q) by {
      hide Without;
      forall j, k {:trigger r[j], r[k]} | 0 <= j < k < |r| ensures r[j].client != r[k].client {
        ReleaseKeepsDistinct(o, p, i, j, k);
      }
      forall j {:trigger r[j]} | 0 <= j < |r| ensures r[j].client in q { ReleaseKeepsMembers(o, p, i, j); }
      forall c {:trigger c in q} | c in q ensures exists j :: 0 <= j < |r| && r[j].client == c {
        ReleaseKeepsPending(o, p, i, c);
      }
    }
  }

  /** An admitted, or refused, consume of the current generation leaves its client turning, and every other as it was. */
  lemma ConsumeKeepsTurning(s: State, c: Client, g: nat)
    requires s.sink.demand && s.sink.started
    ensures var t := ConsumeNext(s, c, g);
            && (g == s.sink.generation ==> Turning(t, c))
            && forall k | Turning(s, k) :: Turning(t, k)
  {
    var t := ConsumeNext(s, c, g);
    forall k | Turning(s, k)
      ensures Turning(t, k)
    {
      if k !in s.sink.pending {
        var i :| 0 <= i < |s.tasks| && s.tasks[i].client == k && s.tasks[i].generation == s.sink.generation;
        assert t.tasks[i] == s.tasks[i];
      }
    }
  }

  /** A finished task takes nothing away from a client it has just served, or one it never concerned. */
  lemma DroppingTaskKeepsTurning(s: State, i: nat, k: Client)
    requires i < |s.tasks| && Turning(s, k)
    requires s.tasks[i].client == k && s.tasks[i].generation == s.sink.generation ==> k in s.sink.pending
    ensures Turning(s.(tasks := Without(s.tasks, i)), k)
  {
    if k !in s.sink.pending {
      var t := s.(tasks := Without(s.tasks, i));
      var j :| 0 <= j < |s.tasks| && s.tasks[j].client == k && s.tasks[j].generation == s.sink.generation;
      WithoutAt(s.tasks, i);
      hide Without;
      assert t.tasks[if j < i then j else j - 1] == s.tasks[j];
    }
  }

  lemma ReplacingTaskKeepsTurning(s: State, i: nat, task: Task, k: Client)
    requires i < |s.tasks| && Turning(s, k)
    requires task.client == s.tasks[i].client && task.generation == s.tasks[i].generation
    ensures Turning(s.(tasks := s.tasks[i := task]), k)
  {
    if k !in s.sink.pending {
      var j :| 0 <= j < |s.tasks| && s.tasks[j].client == k && s.tasks[j].generation == s.sink.generation;
      assert s.tasks[i := task][j].client == k && s.tasks[i := task][j].generation == s.sink.generation;
    }
  }

  lemma TaskKeeps(s: State, i: nat)
    requires Inv(s) && i < |s.tasks|
    ensures Inv(DoTask(s, i))
  {
    hide OneEach, Turning;
    var task := s.tasks[i];
    var t := DoTask(s, i);
    if s.sink.demand && s.sink.started {
      forall k | k in s.tried
        ensures Turning(t, k)
      {
        match task
        case DeliverThenConsume(c, g, sample) => 
          ReplacingTaskKeepsTurning(s, i, Consume(c, g), k);
          SameTurning(s.(tasks := t.tasks), t, k);
        case BackOff(c, g) => ReplacingTaskKeepsTurning(s, i, Retry(c, g), k);
        case _ =>
          ConsumeKeepsTurning(s, task.client, task.generation);
          DroppingTaskKeepsTurning(ConsumeNext(s, task.client, task.generation), i, k);
      }
    }
    if task.Consume? || task.Retry? {
      AdmitKeepsOneEach(s, task.client, task.generation);
    }
  }

  lemma SameTurning(s: State, t: State, k: Client)
    requires Turning(s, k) && t.sink == s.sink && t.tasks == s.tasks
    ensures Turning(t, k)
  {
  }

  lemma CallbackKeeps(s: State, i: nat, sample: Option<Sample>)
    requires Inv(s) && i < |s.outstanding|
    ensures Inv(DoCallback(s, i, sample))
  {
    var f := s.outstanding[i];
    var t := DoCallback(s, i, sample);
    ReleaseKeepsOneEach(s.outstanding, s.sink.pending, i);
    hide OneEach;
    if s.sink.demand && s.sink.started {
      forall k | k in s.tried
        ensures Turning(t, k)
      {
        if k == f.client {
          assert t.tasks[|s.tasks|].client == k && t.tasks[|s.tasks|].generation == t.sink.generation;
        } else if k !in s.sink.pending {
          var j :| 0 <= j < |s.tasks| && s.tasks[j].client == k && s.tasks[j].generation == s.sink.generation;
          assert t.tasks[j] == s.tasks[j];
        }
      }
    }
  }

  lemma StepKeeps(s: State, e: Event)
    requires Inv(s)
    ensures Inv(Step(s, e)) && Step(s, e).device.generation >= s.device.generation
  {
    hide OneEach, Turning, DoTask, DoCallback;
    var t := Step(s, e);
    match e
    case RunTask(i) =>
      if i < |s.tasks| {
        TaskKeeps(s, i);
        TaskKeepsDevice(s, i);
      }
    case Callback(i, sample) =>
      if i < |s.outstanding| {
        CallbackKeeps(s, i, sample);
        CallbackKeepsDevice(s, i, sample);
      }
    case ConsumeClient(client) =>
      if t != s {
        var g := s.transition.generation;
        AdmitKeepsOneEach(s, client, g);
        if s.sink.demand && s.sink.started {
          ConsumeKeepsTurning(s, client, g);
          forall k | k in t.tried
            ensures Turning(t, k)
          {
            SameTurning(ConsumeNext(s, client, g), t, k);
          }
        }
      }
    case _ =>
      if t.sink == s.sink && s.sink.demand && s.sink.started {
        forall k | k in t.tried
          ensures Turning(t, k)
        {
          SameTurning(s, t, k);
        }
      }
  }

  lemma TaskKeepsDevice(s: State, i: nat)
    requires i < |s.tasks|
    ensures DoTask(s, i).device == s.device
  {
  }

  lemma CallbackKeepsDevice(s: State, i: nat, sample: Option<Sample>)
    requires i < |s.outstanding|
    ensures DoCallback(s, i, sample).device == s.device
  {
  }

  lemma InitInv()
    ensures Inv(INIT)
  {
  }

  lemma {:induction false} RunKeeps(s: State, events: seq<Event>)
    requires Inv(s)
    ensures Inv(Run(s, events)) && Run(s, events).device.generation >= s.device.generation
    decreases |events|
  {
    hide Inv, Step;
    if events != [] {
      StepKeeps(s, events[0]);
      RunKeeps(Step(s, events[0]), events[1..]);
    }
  }

  /** At most one consume is outstanding per client, and it is exactly for the clients marked pending. */
  lemma OneConsumePerClient(events: seq<Event>)
    ensures OneEach(Run(INIT, events).outstanding, Run(INIT, events).sink.pending)
  {
    InitInv();
    RunKeeps(INIT, events);
  }

  /** While demanded and started, no client the latest transition tried to start has lost its loop. */
  lemma LoopsAreNeverLost(events: seq<Event>, c: Client)
    requires var s := Run(INIT, events); s.sink.demand && s.sink.started && c in s.tried
    ensures Turning(Run(INIT, events), c)
  {
    InitInv();
    RunKeeps(INIT, events);
  }

  /** A transition that starts consuming ends only when it has tried every client it was given. */
  lemma AllClientsAreTried(events: seq<Event>)
    requires Run(INIT, events).transition.Consuming?
    requires Step(Run(INIT, events), FinishTransition).transition.Idle?
    ensures Step(Run(INIT, events), FinishTransition).tried == Run(INIT, events).transition.clients
  {
    InitInv();
    RunKeeps(INIT, events);
  }

  // ----- A wanted sink consumes, and no other does -----

  /** The sink is started and its output is demanded. */
  predicate Wanted(s: State) {
    s.sink.demand && s.sink.started
  }

  /** A transition that is to consume, or does, is one of a wanted sink. */
  ghost predicate ConsumesWanted(s: State) {
    (s.transition.Invalidating? && s.transition.consume) || s.transition.Consuming? ==> Wanted(s)
  }

  lemma {:induction false} RunConsumesWanted(s: State, events: seq<Event>)
    requires ConsumesWanted(s)
    ensures ConsumesWanted(Run(s, events))
    decreases |events|
  {
    if events != [] {
      RunConsumesWanted(Step(s, events[0]), events[1..]);
    }
  }

  /**
   * Over every run a step hands at most one consume to the platform, and only while the sink is started and demanded:
   * for a client that has none, in the current generation.
   */
  lemma OnlyWantedConsumes(events: seq<Event>, e: Event)
    ensures var s := Run(INIT, events);
            var t := Step(s, e);
            || |t.outstanding| <= |s.outstanding|
            || (&& s.sink.demand && s.sink.started
                && exists c: Client ::
                     c !in s.sink.pending && t.outstanding == s.outstanding + [InFlight(c, s.sink.generation)])
  {
    var s := Run(INIT, events);
    var t := Step(s, e);
    if |t.outstanding| > |s.outstanding| {
      var c := if e.ConsumeClient? then e.client else s.tasks[e.i].client;
      assert c !in s.sink.pending && t.outstanding == s.outstanding + [InFlight(c, s.sink.generation)];
    }
  }

  /** A transition waits for its invalidation, which nothing but itself brings on. */
  lemma {:induction false} WaitsForInvalidation(s: State, events: seq<Event>)
    requires s.transition.Invalidating? && forall e | e in events :: !e.RunInvalidation?
    ensures var t := Run(s, events);
            && t.transition == s.transition && t.sink.generation == s.sink.generation
            && t.sink.demand == s.sink.demand && t.sink.started == s.sink.started
    decreases |events|
  {
    if events != [] {
      assert events[0] in events && forall e | e in events[1..] :: e in events;
      WaitsForInvalidation(Step(s, events[0]), events[1..]);
    }
  }

  /** Up to the next generation, these clients have been tried or are still to be. */
  ghost predicate Serves(s: State, g: nat, clients: set<Client>) {
    && s.sink.generation >= g
    && (s.sink.generation == g ==>
          Wanted(s) && clients <= s.tried + (if s.transition.Consuming? then s.transition.todo else {}))
  }

  lemma {:induction false} RunServes(s: State, events: seq<Event>, g: nat, clients: set<Client>)
    requires Serves(s, g, clients)
    ensures Serves(Run(s, events), g, clients)
    decreases |events|
  {
    if events != [] {
      StepServes(s, events[0], g, clients);
      RunServes(Step(s, events[0]), events[1..], g, clients);
    }
  }

  lemma StepServes(s: State, e: Event, g: nat, clients: set<Client>)
    requires Serves(s, g, clients)
    ensures Serves(Step(s, e), g, clients)
  {
  }

  /** The events that make a sink wanted. */
  predicate Raises(s: State, e: Event) {
    (e == BeginStart && s.sink.demand) || (e == BeginDemand(true) && !s.sink.demand && s.sink.started)
  }

  /**
   * Over every run a start under demand, or a demand raised while started, opens a new generation and, once the samples
   * are invalidated, consumes for all the clients it is given. When that transition, or any later one of the same
   * generation, is over, every one of these clients has a consume outstanding or a task that will start one.
   */
  lemma WantedSinksConsume(before: seq<Event>, e: Event, between: seq<Event>, clients: set<Client>, after: seq<Event>)
    requires Run(INIT, before).transition.Idle? && Raises(Run(INIT, before), e)
    requires forall k | k in between :: !k.RunInvalidation?
    ensures var s := Run(INIT, before);
            var asked := Step(s, e);
            var begun := Step(Run(asked, between), RunInvalidation(clients));
            var t := Run(begun, after);
            && asked.sink == Sink(s.sink.generation + 1, s.sink.pending, true, true)
            && begun.transition == Consuming(s.sink.generation + 1, clients, clients)
            && begun.device == Device(s.sink.generation + 1, None, true)
            && (t.transition.Idle? && t.sink.generation == s.sink.generation + 1 ==>
                  forall c | c in clients :: Turning(t, c))
  {
    hide OneEach, Turning;
    var s := Run(INIT, before);
    var asked := Step(s, e);
    var waiting := Run(asked, between);
    var begun := Step(waiting, RunInvalidation(clients));
    var t := Run(begun, after);
    WaitsForInvalidation(asked, between);
    RunServes(begun, after, s.sink.generation + 1, clients);
    InitInv();
    RunKeeps(INIT, before);
    StepKeeps(s, e);
    RunKeeps(asked, between);
    StepKeeps(waiting, RunInvalidation(clients));
    RunKeeps(begun, after);
  }

  /** The events that leave a sink unwanted; a demand that is already lowered changes nothing. */
  predicate Lowers(e: Event) {
    e == BeginStop || e == BeginDemand(false)
  }

  lemma {:induction false} UnwantedIsQuiet(s: State, events: seq<Event>)
    requires !Wanted(s) && ConsumesWanted(s)
    ensures var t := Run(s, events);
            && t.sink.generation >= s.sink.generation
            && (t.sink.generation == s.sink.generation ==>
                  !Wanted(t) && ConsumesWanted(t) && |t.outstanding| <= |s.outstanding|)
    decreases |events|
  {
    if events != [] {
      var t := Step(s, events[0]);
      if t.sink.generation == s.sink.generation {
        UnwantedIsQuiet(t, events[1..]);
      } else {
        GenerationsGrow(t, events[1..]);
      }
    }
  }

  lemma {:induction false} GenerationsGrow(s: State, events: seq<Event>)
    ensures Run(s, events).sink.generation >= s.sink.generation
    decreases |events|
  {
    if events != [] {
      GenerationsGrow(Step(s, events[0]), events[1..]);
    }
  }

  /**
   * Over every run a stop, or a lowered demand, starts no consume: until a later transition opens another generation,
   * no transition consumes and no further consume is handed out.
   */
  lemma UnwantedSinksAreQuiet(before: seq<Event>, e: Event, after: seq<Event>)
    requires Run(INIT, before).transition.Idle? && Lowers(e)
    ensures var s := Run(INIT, before);
            var asked := Step(s, e);
            var t := Run(asked, after);
            && asked.sink.generation == (if e == BeginStop || s.sink.demand then s.sink.generation + 1
                                          else s.sink.generation)
            && asked.sink.started == (s.sink.started && e != BeginStop)
            && asked.sink.demand == (s.sink.demand && e == BeginStop) && asked.transition.Invalidating?
            && (t.sink.generation == asked.sink.generation ==>
                  !t.transition.Consuming? && |t.outstanding| <= |s.outstanding|)
  {
    RunConsumesWanted(INIT, before);
    UnwantedIsQuiet(Step(Run(INIT, before), e), after);
  }

  /** Over every run a demand that repeats the present one changes no field of the sink and starts no consume. */
  lemma RepeatedDemandIsIdle(before: seq<Event>, between: seq<Event>, clients: set<Client>)
    requires Run(INIT, before).transition.Idle? && forall k | k in between :: !k.RunInvalidation?
    ensures var s := Run(INIT, before);
            var asked := Step(s, BeginDemand(s.sink.demand));
            asked.sink == s.sink && Step(Run(asked, between), RunInvalidation(clients)).transition.Idle?
  {
    var s := Run(INIT, before);
    WaitsForInvalidation(Step(s, BeginDemand(s.sink.demand)), between);
  }

  // ----- The mark of a drop -----

  /** What leaves a drop to be reported: an invalidation, a refused or discontinuous sample, an emission that failed. */
  predicate Marks(s: State, e: Event) {
    || (e.RunInvalidation? && s.transition.Invalidating?)
    || e.FailToEmit?
    || (e.RunDelivery? && e.i < |s.deliveries|
        && (s.deliveries[e.i].generation != s.device.generation || !s.deliveries[e.i].compatible
            || s.deliveries[e.i].discontinuous))
  }

  lemma {:induction false} RunAppends(s: State, events: seq<Event>, e: Event)
    ensures Run(s, events + [e]) == Step(Run(s, events), e)
    decreases |events|
  {
    hide Step;
    if events == [] {
      assert ([e])[1..] == [] && events + [e] == [e];
      assert Run(Step(s, e), []) == Step(s, e);
    } else {
      assert (events + [e])[0] == events[0] && (events + [e])[1..] == events[1..] + [e];
      RunAppends(Step(s, events[0]), events[1..], e);
    }
  }

  /** Over every run a drop waits to be reported exactly when one has been marked since the last sample went out. */
  lemma {:induction false} DropsAreReported(events: seq<Event>)
    ensures Run(INIT, events).device.dropped <==>
              exists k | 0 <= k < |events| :: MarksLast(events, k)
    decreases |events|
  {
    if events != [] {
      var last := |events| - 1;
      var init, e := events[..last], events[last];
      assert events == init + [e];
      RunAppends(INIT, init, e);
      DropsAreReported(init);
      MarkOf(Run(INIT, init), e);
      forall k | 0 <= k < last
        ensures MarksLast(events, k) <==> MarksLast(init, k) && e != Emit && e != EmitBlack
      {
        assert events[..k] == init[..k] && events[k] == init[k];
        assert e == events[last] && forall j | k < j < last :: events[j] == init[j];
      }
      assert MarksLast(events, last) <==> Marks(Run(INIT, init), e);
      if k :| 0 <= k < last && MarksLast(init, k) {
        assert MarksLast(events, k) <==> e != Emit && e != EmitBlack;
      }
    }
  }

  /** The k-th event marks a drop, and no sample went out after it. */
  ghost predicate MarksLast(events: seq<Event>, k: nat)
    requires k < |events|
  {
    && Marks(Run(INIT, events[..k]), events[k])
    && forall j | k < j < |events| :: events[j] != Emit && events[j] != EmitBlack
  }

  lemma MarkOf(s: State, e: Event)
    ensures Step(s, e).device.dropped <==> Marks(s, e) || (s.device.dropped && e != Emit && e != EmitBlack)
  {
  }

  /** A delivery prepares its sample exactly when that is of the device's generation and compatible. */
  lemma DeliveriesPrepare(s: State, i: nat)
    requires i < |s.deliveries|
    ensures var sample := s.deliveries[i];
            var t := Step(s, RunDelivery(i));
            && t.device.prepared == (if sample.generation == s.device.generation && sample.compatible
                                     then Some(FromSink(sample)) else s.device.prepared)
            && t.device.generation == s.device.generation && |t.deliveries| == |s.deliveries| - 1
  {
  }

  /** Once an invalidation has run, no sample of an older generation is prepared again, whatever happens later. */
  lemma NoStaleSample(before: seq<Event>, clients: set<Client>, after: seq<Event>)
    requires Run(INIT, before).transition.Invalidating?
    ensures var g := Run(INIT, before).transition.generation;
            var s := Run(Step(Run(INIT, before), RunInvalidation(clients)), after);
            s.device.prepared.Some? && s.device.prepared.value.FromSink? ==> s.device.prepared.value.sample.generation >= g
  {
    InitInv();
    RunKeeps(INIT, before);
    StepKeeps(Run(INIT, before), RunInvalidation(clients));
    RunKeeps(Step(Run(INIT, before), RunInvalidation(clients)), after);
  }

  /**
   * The gates lose nothing they should keep: a usable sample consumed in the current generation, with its invalidation
   * done, becomes the prepared one, and its client is free to consume again.
   */
  lemma CurrentSampleIsPrepared(events: seq<Event>, i: nat, sample: Sample)
    requires var s := Run(INIT, events);
             && i < |s.outstanding| && s.outstanding[i].generation == s.sink.generation == s.device.generation
             && sample.compatible
    ensures var s := Run(INIT, events);
            var f := s.outstanding[i];
            var t := Step(Step(Step(s, Callback(i, Some(sample))), RunTask(|s.tasks|)), RunDelivery(|s.deliveries|));
            && t.device.prepared == Some(FromSink(sample.(generation := f.generation)))
            && f.client !in t.sink.pending && t.tasks == s.tasks + [Consume(f.client, f.generation)]
  {
  }
}
