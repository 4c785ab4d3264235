/** Publication of native frames to one bounded, ordered subscription. */
module FrameBuses {
  import opened Results

  const ORDERED_CAPACITY: nat := 8
  /** 150 ms, in nanoseconds. */
  const MAX_ORDERED_AGE: int := 150_000_000

  /** A frame, told from every other by its identity. */
  datatype Frame = Frame(identity: nat)

  datatype End = QueueFull(identity: nat) | TooOld(identity: nat) | Reset | PublisherStopped | Cancelled

  datatype Queued = Queued(frame: Frame, at: int)

  // ----- What publisher, subscription and cutoff share -----

  /** The bounded channel, the once-set end and the gate; sender and receiver say which halves still exist. */
  datatype Channel = Channel(
    accepting: bool, end: Option<End>, queue: seq<Queued>, sender: bool, receiver: bool)

  const OPEN := Channel(true, None, [], true, true)

  datatype Publication = Published | Detach | Ended(end: End)

  /** The locked part of a publication. */
  function Offer(c: Channel, frame: Frame, now: int): (Channel, Publication) {
    if c.end.Some? then (c.(accepting := false), Ended(c.end.value))
    else if !c.accepting then (c, Detach)
    else if !c.receiver then (c.(accepting := false), Detach)
    else if |c.queue| == ORDERED_CAPACITY then
      (c.(accepting := false, end := Some(QueueFull(frame.identity))), Ended(QueueFull(frame.identity)))
    else (c.(queue := c.queue + [Queued(frame, now)]), Published)
  }

  /** Setting the end counts only the first time. */
  function SetOnce(end: Option<End>, reason: End): Option<End> {
    if end.Some? then end else Some(reason)
  }

  function EndWith(c: Channel, reason: End): Channel {
    if c.accepting then c.(accepting := false, end := SetOnce(c.end, reason)) else c
  }

  function Close(c: Channel): Channel {
    c.(accepting := false)
  }

  /** Without its receiver the channel forgets what was queued. */
  function DropReceiver(c: Channel): Channel {
    c.(receiver := false, queue := [])
  }

  function DropSender(c: Channel): Channel {
    c.(sender := false)
  }

  function DropSubscription(c: Channel): Channel {
    DropReceiver(EndWith(c, Cancelled))
  }

  predicate Expired(q: Queued, now: int) {
    (if now > q.at then now - q.at else 0) > MAX_ORDERED_AGE
  }

  /** One poll: the channel after it, whether the subscription is now at its normal end, and the answer. */
  function Poll(c: Channel, normalEnd: bool, now: int): (Channel, bool, Result<Option<Frame>, End>) {
    if normalEnd then (c, true, Ok(None))
    else if c.end.Some? then (DropReceiver(c.(accepting := false)), false, Err(c.end.value))
    else if !c.receiver then
      if !c.accepting then (c, true, Ok(None)) else (c, false, Err(PublisherStopped))
    else if c.queue != [] then
      var q := c.queue[0];
      if Expired(q, now) then
        (DropReceiver(c.(accepting := false, end := Some(TooOld(q.frame.identity)))), false,
         Err(TooOld(q.frame.identity)))
      else (c.(queue := c.queue[1..]), false, Ok(Some(q.frame)))
    else if c.sender then
      if !c.accepting then (DropReceiver(c), true, Ok(None)) else (c, false, Ok(None))
    else if !c.accepting then (DropReceiver(c), true, Ok(None))
    else (DropReceiver(c), false, Err(PublisherStopped))
  }

  // ----- The objects -----

  class Shared {
    var accepting: bool
    var end: Option<End>
    var queue: seq<Queued>
    var sender: bool
    var receiver: bool

    constructor ()
      ensures View() == OPEN
    {
      accepting, end, queue, sender, receiver := true, None, [], true, true;
    }

    function View(): Channel
      reads this
    {
      Channel(accepting, end, queue, sender, receiver)
    }

    /** The cutoff handle's only operation. */
    method CloseGate()
      modifies this
      ensures View() == Close(old(View()))
    {
      accepting := false;
    }
  }

  class FrameBus {
    var latest: Option<Frame>
    var ordered: Shared?

    constructor ()
      ensures latest == None && ordered == null
    {
      latest, ordered := None, null;
    }

    /** Refused, without effect, while a subscription is live. */
    method SubscribeOrdered() returns (r: Option<NativeFrameSubscription>)
      modifies this`ordered, if ordered != null then {ordered} else {}
      ensures r.None? <==> old(ordered) != null && old(ordered.end.None? && ordered.accepting)
      ensures r.None? ==> ordered == old(ordered) && ordered.View() == old(ordered.View())
      ensures r.Some? ==>
                && fresh(r.value) && ordered == r.value.shared && fresh(ordered)
                && ordered.View() == OPEN && !r.value.normalEnd
                && (old(ordered) != null ==> old(ordered).View() == DropSender(old(ordered.View())))
    {
      if ordered != null && ordered.end.None? && ordered.accepting {
        return None;
      }
      if ordered != null {
        ordered.sender := false;
      }
      ordered := new Shared();
      var subscription := new NativeFrameSubscription(ordered);
      return Some(subscription);
    }

    method PublishAt(frame: Frame, now: int) returns (r: Option<End>)
      modifies this, if ordered != null then {ordered} else {}
      ensures latest == Some(frame)
      ensures old(ordered) == null ==> r == None && ordered == null
      ensures old(ordered) != null ==>
                var (c, publication) := Offer(old(ordered.View()), frame, now);
                if publication == Published then
                  r == None && ordered == old(ordered) && ordered.View() == c
                else
                  && ordered == null && old(ordered).View() == DropSender(c)
                  && r == if publication.Ended? then Some(publication.end) else None
    {
      latest := Some(frame);
      if ordered == null {
        return None;
      }
      var publication;
      if ordered.end.Some? {
        ordered.accepting := false;
        publication := Ended(ordered.end.value);
      } else if !ordered.accepting {
        publication := Detach;
      } else if !ordered.receiver {
        ordered.accepting := false;
        publication := Detach;
      } else if |ordered.queue| == ORDERED_CAPACITY {
        ordered.end := Some(QueueFull(frame.identity));
        ordered.accepting := false;
        publication := Ended(QueueFull(frame.identity));
      } else {
        ordered.queue := ordered.queue + [Queued(frame, now)];
        publication := Published;
      }
      match publication
      case Published => return None;
      case Detach =>
        ordered.sender := false;
        ordered := null;
        return None;
      case Ended(end) =>
        ordered.sender := false;
        ordered := null;
        return Some(end);
    }

    method EndOrdered(reason: End)
      modifies this`ordered, if ordered != null then {ordered} else {}
      ensures ordered == null
      ensures old(ordered) != null ==> old(ordered).View() == DropSender(EndWith(old(ordered.View()), reason))
    {
      if ordered != null {
        if ordered.accepting {
          ordered.accepting := false;
          ordered.end := SetOnce(ordered.end, reason);
        }
        ordered.sender := false;
        ordered := null;
      }
    }

    method ResetOrderedSource()
      modifies this`ordered, if ordered != null then {ordered} else {}
      ensures ordered == null && latest == old(latest)
      ensures old(ordered) != null ==> old(ordered).View() == DropSender(EndWith(old(ordered.View()), Reset))
    {
      EndOrdered(Reset);
    }

    method Clear()
      modifies this, if ordered != null then {ordered} else {}
      ensures ordered == null && latest == None
      ensures old(ordered) != null ==> old(ordered).View() == DropSender(EndWith(old(ordered.View()), Reset))
    {
      latest := None;
      ResetOrderedSource();
    }

    method Drop()
      modifies this`ordered, if ordered != null then {ordered} else {}
      ensures ordered == null
      ensures old(ordered) != null ==>
                old(ordered).View() == DropSender(EndWith(old(ordered.View()), PublisherStopped))
    {
      EndOrdered(PublisherStopped);
    }
  }

  class NativeFrameSubscription {
    const shared: Shared
    var normalEnd: bool

    constructor (shared: Shared)
      ensures this.shared == shared && !normalEnd
    {
      this.shared := shared;
      normalEnd := false;
    }

    method TryNextAt(now: int) returns (r: Result<Option<Frame>, End>)
      modifies this`normalEnd, shared
      ensures (shared.View(), normalEnd, r) == Poll(old(shared.View()), old(normalEnd), now)
    {
      if normalEnd {
        return Ok(None);
      }
      if shared.end.Some? {
        shared.accepting := false;
        shared.receiver, shared.queue := false, [];
        return Err(shared.end.value);
      }
      if !shared.receiver {
        if !shared.accepting {
          normalEnd := true;
          return Ok(None);
        }
        return Err(PublisherStopped);
      }
      if shared.queue != [] {
        var queued := shared.queue[0];
        shared.queue := shared.queue[1..];
        if !Expired(queued, now) {
          return Ok(Some(queued.frame));
        }
        var end := TooOld(queued.frame.identity);
        shared.end := Some(end);
        shared.accepting := false;
        shared.receiver, shared.queue := false, [];
        return Err(end);
      }
      if shared.sender {
        if !shared.accepting {
          shared.receiver, shared.queue := false, [];
          normalEnd := true;
        }
        return Ok(None);
      }
      shared.receiver, shared.queue := false, [];
      if !shared.accepting {
        normalEnd := true;
        return Ok(None);
      }
      // The end was unset at the top and the lock is still held.
      return Err(PublisherStopped);
    }

    method Drop()
      modifies shared
      ensures shared.View() == DropSubscription(old(shared.View()))
    {
      if shared.accepting {
        shared.accepting := false;
        shared.end := SetOnce(shared.end, Cancelled);
      }
      shared.receiver, shared.queue := false, [];
    }
  }

  // ----- Every interleaving -----

  /** A subscription with what happened to it: since holds every frame published since it was made. */
  datatype Sub = Sub(
    channel: Channel, normalEnd: bool, dropped: bool,
    since: seq<Frame>, admitted: seq<Frame>, delivered: seq<Frame>, failed: Option<End>, cut: bool)

  /**
   * dropping is the subscription whose sender the publisher is about to drop, after its locked section and before its
   * call returns; the publisher does nothing else meanwhile.
   */
  datatype State = State(
    latest: Option<Frame>, alive: bool, ordered: Option<nat>, dropping: Option<nat>, subs: seq<Sub>)

  datatype Event =
    | Publish(frame: Frame, at: int)
    | Subscribe
    | ResetSource
    | ClearAll
    | DropBus
    | FinishDrop
    | TryNext(i: nat, now: int)
    | CloseCutoff(i: nat)
    | DropSub(i: nat)

  const INIT := State(None, true, None, None, [])
  const NEW_SUB := Sub(OPEN, false, false, [], [], [], None, false)

  function NoteSince(subs: seq<Sub>, frame: Frame): (r: seq<Sub>)
    ensures |r| == |subs|
    ensures forall i {:trigger r[i]} | 0 <= i < |subs| :: r[i] == subs[i].(since := subs[i].since + [frame])
  {
    seq(|subs|, i requires 0 <= i < |subs| => subs[i].(since := subs[i].since + [frame]))
  }

  function DoPublish(s: State, frame: Frame, at: int): State {
    var noted := NoteSince(s.subs, frame);
    if s.ordered.None? || s.ordered.value >= |noted| then s.(latest := Some(frame), subs := noted)
    else
      var i := s.ordered.value;
      var u := noted[i];
      var (c, publication) := Offer(u.channel, frame, at);
      var v := u.(channel := c, admitted := if publication == Published then u.admitted + [frame] else u.admitted);
      State(Some(frame), s.alive, s.ordered, if publication == Published then None else Some(i), noted[i := v])
  }

  function DoSubscribe(s: State): State {
    if s.ordered.Some? && s.ordered.value < |s.subs| then
      var i := s.ordered.value;
      var c := s.subs[i].channel;
      if c.end.None? && c.accepting then s
      else
        s.(ordered := Some(|s.subs|), subs := s.subs[i := s.subs[i].(channel := DropSender(c))] + [NEW_SUB])
    else s.(ordered := Some(|s.subs|), subs := s.subs + [NEW_SUB])
  }

  function DoEnd(s: State, reason: End): State {
    if s.ordered.Some? && s.ordered.value < |s.subs| then
      var i := s.ordered.value;
      s.(ordered := None, dropping := Some(i),
         subs := s.subs[i := s.subs[i].(channel := EndWith(s.subs[i].channel, reason))])
    else s.(ordered := None)
  }

  function DoFinishDrop(s: State): State {
    if s.dropping.Some? && s.dropping.value < |s.subs| then
      var i := s.dropping.value;
      s.(ordered := None, dropping := None,
         subs := s.subs[i := s.subs[i].(channel := DropSender(s.subs[i].channel))])
    else s
  }

  function DoPoll(u: Sub, now: int): Sub {
    var (c, normalEnd, r) := Poll(u.channel, u.normalEnd, now);
    u.(channel := c, normalEnd := normalEnd,
       delivered := if r.Ok? && r.value.Some? then u.delivered + [r.value.value] else u.delivered,
       failed := if r.Err? then Some(r.error) else u.failed)
  }

  function DoClose(u: Sub): Sub {
    u.(channel := Close(u.channel), cut := u.cut || u.channel.accepting)
  }

  /** One atomic step. Publisher steps wait for its pending drop; an event that cannot happen leaves the state alone. */
  function Step(s: State, e: Event): State {
    match e
    case FinishDrop => DoFinishDrop(s)
    case TryNext(i, now) =>
      if i < |s.subs| && !s.subs[i].dropped then s.(subs := s.subs[i := DoPoll(s.subs[i], now)]) else s
    case CloseCutoff(i) => if i < |s.subs| then s.(subs := s.subs[i := DoClose(s.subs[i])]) else s
    case DropSub(i) =>
      if i < |s.subs| && !s.subs[i].dropped then
        s.(subs := s.subs[i := s.subs[i].(dropped := true, channel := DropSubscription(s.subs[i].channel))])
      else s
    case _ =>
      if !s.alive || s.dropping.Some? then s
      else
        match e
        case Publish(frame, at) => DoPublish(s, frame, at)
        case Subscribe => DoSubscribe(s)
        case ResetSource => DoEnd(s, Reset)
        case ClearAll => DoEnd(s.(latest := None), Reset)
        case DropBus => DoEnd(s, PublisherStopped).(alive := false)
        case _ => s
  }

  function Run(s: State, events: seq<Event>): State
    decreases |events|
  {
    if events == [] then s else Run(Step(s, events[0]), events[1..])
  }

  function Frames(queue: seq<Queued>): (r: seq<Frame>)
    ensures |r| == |queue| && forall k | 0 <= k < |queue| :: r[k] == queue[k].frame
  {
    seq(|queue|, k requires 0 <= k < |queue| => queue[k].frame)
  }

  /** What holds of one subscription whatever happened. */
  ghost predicate SubInv(u: Sub) {
    var c := u.channel;
    && |c.queue| <= ORDERED_CAPACITY
    && (c.accepting ==> c.end.None? && c.sender && c.receiver && u.admitted == u.since)
    && u.admitted <= u.since && u.delivered <= u.admitted
    && (c.receiver ==> u.admitted == u.delivered + Frames(c.queue))
    && (!c.receiver ==> c.queue == [])
    && (!c.receiver && !u.dropped ==> u.normalEnd || c.end.Some?)
    && (u.normalEnd ==> !c.accepting && c.end.None? && u.delivered == u.admitted)
    && (u.failed.Some? ==> c.end == u.failed)
    && (u.cut ==> !c.accepting && (c.end.Some? ==> c.end.value.TooOld?))
  }

  ghost predicate Inv(s: State) {
    && (forall i {:trigger s.subs[i]} | 0 <= i < |s.subs| :: SubInv(s.subs[i]))
    && (forall i {:trigger s.subs[i]} | 0 <= i < |s.subs| && s.subs[i].channel.accepting ::
          s.ordered == Some(i) && s.dropping.None?)
    && (s.ordered.Some? ==> s.ordered.value < |s.subs|)
    && (s.dropping.Some? ==> s.dropping.value < |s.subs| && !s.subs[s.dropping.value].channel.accepting)
  }

  /** u became v: what never changes again once it is so. */
  ghost predicate Later(u: Sub, v: Sub) {
    && u.since <= v.since && u.admitted <= v.admitted && u.delivered <= v.delivered
    && (u.channel.end.Some? ==> v.channel.end == u.channel.end)
    && (!u.channel.accepting ==> !v.channel.accepting && v.admitted == u.admitted)
    && (u.failed.Some? ==> v.failed == u.failed)
    && (u.normalEnd ==> v.normalEnd)
    && (u.cut ==> v.cut)
  }

  lemma OfferKeeps(u: Sub, frame: Frame, at: int)
    requires SubInv(u)
    ensures var (c, publication) := Offer(u.channel, frame, at);
            var v := u.(since := u.since + [frame], channel := c,
                        admitted := if publication == Published then u.admitted + [frame] else u.admitted);
            && SubInv(v) && Later(u, v) && (v.channel.accepting ==> u.channel.accepting && publication == Published)
  {
    var (c, publication) := Offer(u.channel, frame, at);
    if publication == Published {
      assert Frames(c.queue) == Frames(u.channel.queue) + [frame];
    }
  }

  lemma UnofferedKeeps(u: Sub, frame: Frame)
    requires SubInv(u) && !u.channel.accepting
    ensures SubInv(u.(since := u.since + [frame])) && Later(u, u.(since := u.since + [frame]))
  {
  }

  lemma HeadMoves(all: seq<Frame>, done: seq<Frame>, q: seq<Queued>)
    requires q != [] && all == done + Frames(q)
    ensures all == done + [q[0].frame] + Frames(q[1..]) && done + [q[0].frame] <= all
  {
    FramesHead(q);
    Regroup(done, [q[0].frame], Frames(q[1..]));
  }

  lemma Regroup<T>(a: seq<T>, b: seq<T>, c: seq<T>)
    ensures a + (b + c) == a + b + c && a + b <= a + b + c
  {
  }

  lemma FramesHead(q: seq<Queued>)
    requires q != []
    ensures Frames(q) == [q[0].frame] + Frames(q[1..])
  {
    var f, g := Frames(q), [q[0].frame] + Frames(q[1..]);
    forall k | 0 <= k < |q|
      ensures f[k] == g[k]
    {
    }
  }

  lemma PollEnds(u: Sub, c: Channel, normalEnd: bool, failed: Option<End>)
    requires SubInv(u) && !u.dropped && !u.normalEnd && c == DropReceiver(u.channel.(accepting := false, end := c.end))
    requires u.channel.end.Some? ==> c.end == u.channel.end
    requires c.end.Some? && c.end != u.channel.end ==> c.end.value.TooOld?
    requires failed == if c.end.Some? then c.end else u.failed
    requires normalEnd ==> c.end.None? && u.delivered == u.admitted
    requires normalEnd || c.end.Some?
    ensures var v := u.(channel := c, normalEnd := normalEnd, failed := failed); SubInv(v) && Later(u, v)
  {
  }

  lemma PollKeeps(u: Sub, now: int)
    requires SubInv(u) && !u.dropped
    ensures SubInv(DoPoll(u, now)) && Later(u, DoPoll(u, now))
    ensures DoPoll(u, now).channel.accepting ==> u.channel.accepting
  {
    var c := u.channel;
    var v := DoPoll(u, now);
    if u.normalEnd || (c.end.None? && c.receiver && c.queue == [] && c.accepting) {
      assert v == u;
    } else if c.end.None? && c.receiver && c.queue != [] && !Expired(c.queue[0], now) {
      HeadMoves(u.admitted, u.delivered, c.queue);
    } else {
      if c.receiver && c.queue == [] {
        assert u.delivered + Frames([]) == u.delivered;
      }
      PollEnds(u, v.channel, v.normalEnd, v.failed);
    }
  }

  lemma OthersKeep(u: Sub, reason: End)
    requires SubInv(u) && (u.cut ==> !u.channel.accepting)
    ensures SubInv(u.(channel := EndWith(u.channel, reason))) && Later(u, u.(channel := EndWith(u.channel, reason)))
    ensures !u.channel.accepting ==>
              SubInv(u.(channel := DropSender(u.channel))) && Later(u, u.(channel := DropSender(u.channel)))
    ensures SubInv(DoClose(u)) && Later(u, DoClose(u))
    ensures var v := u.(dropped := true, channel := DropSubscription(u.channel)); SubInv(v) && Later(u, v)
  {
  }

  lemma LaterSame(u: Sub)
    ensures Later(u, u)
  {
  }

  /** Every subscription that existed before a step has moved on by it, and no other has become live. */
  ghost predicate Progress(s: State, t: State) {
    |s.subs| <= |t.subs| && forall i {:trigger t.subs[i]} | 0 <= i < |s.subs| :: Later(s.subs[i], t.subs[i])
  }

  lemma PublishKeeps(s: State, frame: Frame, at: int)
    requires Inv(s) && s.dropping.None?
    ensures Inv(DoPublish(s, frame, at)) && Progress(s, DoPublish(s, frame, at))
  {
    hide SubInv, Later, Offer;
    var t := DoPublish(s, frame, at);
    forall i {:trigger t.subs[i]} | 0 <= i < |s.subs|
      ensures SubInv(t.subs[i]) && Later(s.subs[i], t.subs[i])
      ensures t.subs[i].channel.accepting ==> s.subs[i].channel.accepting && t.ordered == Some(i) && t.dropping.None?
    {
      var u := s.subs[i];
      if s.ordered == Some(i) {
        OfferKeeps(u, frame, at);
      } else {
        UnofferedKeeps(u, frame);
      }
    }
    if t.dropping.Some? {
      OfferKeeps(s.subs[t.dropping.value], frame, at);
    }
  }

  lemma UpdateKeeps(s: State, t: State, i: nat, v: Sub)
    requires Inv(s) && i < |s.subs| && t.subs == s.subs[i := v]
    requires SubInv(v) && Later(s.subs[i], v)
    requires v.channel.accepting ==> s.subs[i].channel.accepting && t.ordered == s.ordered && t.dropping == s.dropping
    requires t.ordered == s.ordered || (t.ordered.None? && (s.ordered == Some(i) || s.dropping.Some?))
    requires t.dropping == s.dropping || t.dropping.None? || (t.dropping == Some(i) && s.ordered == Some(i))
    requires t.dropping == Some(i) ==> !v.channel.accepting
    ensures Inv(t) && Progress(s, t)
  {
    hide SubInv, Later;
    forall k {:trigger t.subs[k]} | 0 <= k < |s.subs|
      ensures SubInv(t.subs[k]) && Later(s.subs[k], t.subs[k])
      ensures t.subs[k].channel.accepting ==> t.ordered == Some(k) && t.dropping.None?
    {
      LaterSame(s.subs[k]);
      assert k != i ==> t.subs[k] == s.subs[k];
    }
  }

  lemma SubscribeKeeps(s: State)
    requires Inv(s) && s.dropping.None?
    ensures Inv(DoSubscribe(s)) && Progress(s, DoSubscribe(s))
  {
    hide SubInv, Later;
    var t := DoSubscribe(s);
    forall k {:trigger t.subs[k]} | 0 <= k < |s.subs|
      ensures SubInv(t.subs[k]) && Later(s.subs[k], t.subs[k]) && (t != s ==> !t.subs[k].channel.accepting)
    {
      CutStops(s.subs[k]);
      OthersKeep(s.subs[k], Reset);
      LaterSame(s.subs[k]);
      EndedIsClosed(s.subs[k]);
    }
    NewSubInv();
  }

  lemma EndedIsClosed(u: Sub)
    requires SubInv(u)
    ensures u.channel.end.Some? ==> !u.channel.accepting
  {
  }

  lemma NewSubInv()
    ensures SubInv(NEW_SUB)
  {
  }

  lemma EndKeeps(s: State, reason: End)
    requires Inv(s) && s.dropping.None?
    ensures Inv(DoEnd(s, reason)) && Progress(s, DoEnd(s, reason))
  {
    hide SubInv, Later;
    if s.ordered.Some? {
      var i := s.ordered.value;
      CutStops(s.subs[i]);
      OthersKeep(s.subs[i], reason);
      UpdateKeeps(s, DoEnd(s, reason), i, s.subs[i].(channel := EndWith(s.subs[i].channel, reason)));
    } else {
      SameSubs(s, DoEnd(s, reason));
    }
  }

  lemma CutStops(u: Sub)
    requires SubInv(u)
    ensures u.cut ==> !u.channel.accepting
  {
  }

  lemma SameSubs(s: State, t: State)
    requires Inv(s) && t.subs == s.subs && t.ordered == s.ordered && t.dropping == s.dropping
    ensures Inv(t) && Progress(s, t)
  {
  }

  lemma StepKeeps(s: State, e: Event)
    requires Inv(s)
    ensures Inv(Step(s, e)) && Progress(s, Step(s, e))
  {
    hide SubInv, Later, DoPublish, DoSubscribe, DoEnd, DoPoll, DoClose, DropSubscription;
    SameSubs(s, s);
    match e
    case FinishDrop =>
      if s.dropping.Some? {
        var i := s.dropping.value;
        CutStops(s.subs[i]);
        OthersKeep(s.subs[i], Reset);
        UpdateKeeps(s, Step(s, e), i, s.subs[i].(channel := DropSender(s.subs[i].channel)));
      }
    case TryNext(i, now) =>
      if i < |s.subs| && !s.subs[i].dropped {
        PollKeeps(s.subs[i], now);
        StopsDropping(s, i, DoPoll(s.subs[i], now));
        UpdateKeeps(s, Step(s, e), i, DoPoll(s.subs[i], now));
      }
    case CloseCutoff(i) =>
      if i < |s.subs| {
        CutStops(s.subs[i]);
        OthersKeep(s.subs[i], Reset);
        CloseStops(s.subs[i]);
        UpdateKeeps(s, Step(s, e), i, DoClose(s.subs[i]));
      }
    case DropSub(i) =>
      if i < |s.subs| && !s.subs[i].dropped {
        CutStops(s.subs[i]);
        OthersKeep(s.subs[i], Reset);
        CloseStops(s.subs[i]);
        UpdateKeeps(s, Step(s, e), i,
                    s.subs[i].(dropped := true, channel := DropSubscription(s.subs[i].channel)));
      }
    case Publish(frame, at) =>
      if s.alive && s.dropping.None? {
        PublishKeeps(s, frame, at);
      }
    case Subscribe =>
      if s.alive && s.dropping.None? {
        SubscribeKeeps(s);
      }
    case ResetSource =>
      if s.alive && s.dropping.None? {
        EndKeeps(s, Reset);
      }
    case ClearAll =>
      if s.alive && s.dropping.None? {
        var cleared := s.(latest := None);
        SameSubs(s, cleared);
        EndKeeps(cleared, Reset);
      }
    case DropBus =>
      if s.alive && s.dropping.None? {
        EndKeeps(s, PublisherStopped);
        var t := DoEnd(s, PublisherStopped);
        SameSubs(t, t.(alive := false));
      }
  }

  lemma StopsDropping(s: State, i: nat, v: Sub)
    requires Inv(s) && i < |s.subs| && (v.channel.accepting ==> s.subs[i].channel.accepting)
    ensures s.dropping == Some(i) ==> !v.channel.accepting
  {
  }

  lemma CloseStops(u: Sub)
    ensures !DoClose(u).channel.accepting && !DropSubscription(u.channel).accepting
  {
  }

  lemma LaterIsTransitive(u: Sub, v: Sub, w: Sub)
    requires Later(u, v) && Later(v, w)
    ensures Later(u, w)
  {
  }

  lemma {:induction false} RunKeeps(s: State, events: seq<Event>)
    requires Inv(s)
    ensures Inv(Run(s, events)) && Progress(s, Run(s, events))
    decreases |events|
  {
    hide SubInv, Later, Step;
    if events == [] {
      forall i {:trigger s.subs[i]} | 0 <= i < |s.subs|
        ensures Later(s.subs[i], s.subs[i])
      {
        LaterSame(s.subs[i]);
      }
    } else {
      var t, u := Step(s, events[0]), Run(s, events);
      StepKeeps(s, events[0]);
      RunKeeps(t, events[1..]);
      forall i {:trigger u.subs[i]} | 0 <= i < |s.subs|
        ensures Later(s.subs[i], u.subs[i])
      {
        assert Later(s.subs[i], t.subs[i]);
        LaterIsTransitive(s.subs[i], t.subs[i], u.subs[i]);
      }
    }
  }

  lemma {:induction false} RunAppends(s: State, first: seq<Event>, next: seq<Event>)
    ensures Run(s, first + next) == Run(Run(s, first), next)
    decreases |first|
  {
    hide Step;
    if first == [] {
      assert first + next == next;
    } else {
      assert (first + next)[0] == first[0] && (first + next)[1..] == first[1..] + next;
      RunAppends(Step(s, first[0]), first[1..], next);
    }
  }

  // ----- What follows for every run -----

  lemma InitInv()
    ensures Inv(INIT)
  {
  }

  /**
   * Over every interleaving, what a subscription has delivered is a prefix of the frames published since it was made:
   * in order, without gap or repetition. Its queue never holds more than eight, and no two subscriptions are live.
   */
  lemma DeliversAPrefix(events: seq<Event>, i: nat)
    requires i < |Run(INIT, events).subs|
    ensures var u := Run(INIT, events).subs[i];
            && u.delivered <= u.admitted <= u.since && |u.channel.queue| <= ORDERED_CAPACITY
            && (u.channel.receiver ==> u.admitted == u.delivered + Frames(u.channel.queue))
            && (u.channel.accepting ==> u.admitted == u.since)
  {
    InitInv();
    RunKeeps(INIT, events);
  }

  lemma OneLiveSubscription(events: seq<Event>, i: nat, j: nat)
    requires var subs := Run(INIT, events).subs;
             i < |subs| && j < |subs| && subs[i].channel.accepting && subs[j].channel.accepting
    ensures i == j
  {
    InitInv();
    RunKeeps(INIT, events);
  }

  /**
   * The cutoff: whatever follows a close, nothing more is admitted; a normal end means everything admitted before it
   * was delivered; and had the subscription still been live, the only failure left is an expired frame.
   */
  lemma CutoffIsFinal(before: seq<Event>, after: seq<Event>, i: nat)
    requires i < |Run(INIT, before).subs|
    ensures var u := Run(INIT, before).subs[i];
            var t := Run(Run(INIT, before), [CloseCutoff(i)] + after);
            && i < |t.subs|
            && var v := t.subs[i];
               && !v.channel.accepting && v.admitted == u.admitted && v.delivered <= u.admitted
               && (v.normalEnd ==> v.delivered == u.admitted)
               && (u.channel.accepting && v.failed.Some? ==> v.failed.value.TooOld?)
  {
    hide SubInv, Later, Step;
    var s := Run(INIT, before);
    var e := CloseCutoff(i);
    var closed := Step(s, e);
    var t := Run(closed, after);
    assert ([e] + after)[0] == e && ([e] + after)[1..] == after;
    InitInv();
    RunKeeps(INIT, before);
    StepKeeps(s, e);
    RunKeeps(closed, after);
    CloseStep(s, i);
    assert Later(closed.subs[i], t.subs[i]);
    AfterCut(s.subs[i], closed.subs[i], t.subs[i]);
  }

  lemma CloseStep(s: State, i: nat)
    requires i < |s.subs|
    ensures Step(s, CloseCutoff(i)).subs[i] == DoClose(s.subs[i])
  {
  }

  lemma AfterCut(u: Sub, closed: Sub, v: Sub)
    requires SubInv(u) && closed == DoClose(u) && Later(closed, v) && SubInv(v)
    ensures !v.channel.accepting && v.admitted == u.admitted && v.delivered <= u.admitted
    ensures v.normalEnd ==> v.delivered == u.admitted
    ensures u.channel.accepting && v.failed.Some? ==> v.failed.value.TooOld?
  {
  }

  /** A failure, once answered, is answered unchanged by every later poll, and nothing is delivered after it. */
  lemma FailuresAreFinal(before: seq<Event>, after: seq<Event>, i: nat, now: int)
    requires i < |Run(INIT, before).subs| && Run(INIT, before).subs[i].failed.Some?
    ensures var u := Run(INIT, before).subs[i];
            var t := Run(Run(INIT, before), after);
            && i < |t.subs| && t.subs[i].failed == u.failed
            && (var (_, _, r) := Poll(t.subs[i].channel, t.subs[i].normalEnd, now); r == Err(u.failed.value))
  {
    InitInv();
    RunKeeps(INIT, before);
    RunKeeps(Run(INIT, before), after);
    assert Later(Run(INIT, before).subs[i], Run(Run(INIT, before), after).subs[i]);
  }

  /** Every error a poll answers is the recorded end: neither fallback to PublisherStopped is ever taken. */
  lemma FallbacksAreUnreachable(events: seq<Event>, i: nat, now: int)
    requires i < |Run(INIT, events).subs| && !Run(INIT, events).subs[i].dropped
    ensures var u := Run(INIT, events).subs[i];
            var (c, _, r) := Poll(u.channel, u.normalEnd, now);
            r.Err? ==> c.end == Some(r.error)
  {
    InitInv();
    RunKeeps(INIT, events);
  }

  // ----- What each operation answers -----

  /** What a poll of subscription i answers. */
  function Answer(s: State, i: nat, now: int): Result<Option<Frame>, End>
    requires i < |s.subs|
  {
    Poll(s.subs[i].channel, s.subs[i].normalEnd, now).2
  }

  /**
   * Over every run, a poll of a subscription that has not ended delivers the head of its queue when that has waited at
   * most 150 ms, and ends it with TooOld and the head's identity when it has waited longer. With nothing queued it
   * answers none, and comes to its normal end exactly when the gate is closed.
   */
  lemma PollsDeliver(events: seq<Event>, i: nat, now: int)
    requires var s := Run(INIT, events);
             i < |s.subs| && !s.subs[i].dropped && s.subs[i].channel.end.None? && !s.subs[i].normalEnd
    ensures var s := Run(INIT, events);
            var u, v := s.subs[i], Step(s, TryNext(i, now)).subs[i];
            var queue := u.channel.queue;
            if queue == [] then
              && Answer(s, i, now) == Ok(None) && v.delivered == u.delivered && v.channel.end.None?
              && v.normalEnd == !u.channel.accepting && v.channel.accepting == u.channel.accepting
            else if now - queue[0].at <= 150_000_000 then
              && Answer(s, i, now) == Ok(Some(queue[0].frame)) && v.delivered == u.delivered + [queue[0].frame]
              && v.channel == u.channel.(queue := queue[1..]) && !v.normalEnd && v.failed == u.failed
            else
              && Answer(s, i, now) == Err(TooOld(queue[0].frame.identity)) && v.delivered == u.delivered
              && v.channel.end == v.failed == Some(TooOld(queue[0].frame.identity)) && !v.channel.accepting
  {
    InitInv();
    RunKeeps(INIT, events);
    assert SubInv(Run(INIT, events).subs[i]);
  }

  /** An end is answered by the next poll, and without a delivery. */
  lemma EndsAreAnswered(events: seq<Event>, i: nat, now: int)
    requires var s := Run(INIT, events); i < |s.subs| && s.subs[i].channel.end.Some?
    ensures var s := Run(INIT, events); Answer(s, i, now) == Err(s.subs[i].channel.end.value)
  {
    InitInv();
    RunKeeps(INIT, events);
    assert SubInv(Run(INIT, events).subs[i]);
  }

  /** A live subscription answers none exactly when nothing is queued. */
  lemma LiveAnswersNoneExactly(events: seq<Event>, i: nat, now: int)
    requires var s := Run(INIT, events); i < |s.subs| && !s.subs[i].dropped && s.subs[i].channel.accepting
    ensures var s := Run(INIT, events); Answer(s, i, now) == Ok(None) <==> s.subs[i].channel.queue == []
  {
    InitInv();
    RunKeeps(INIT, events);
    assert SubInv(Run(INIT, events).subs[i]);
  }

  /** Nothing is admitted by v, and its end is as it was. */
  predicate Untouched(u: Sub, v: Sub) {
    && v.admitted == u.admitted && v.delivered == u.delivered && v.channel.queue == u.channel.queue
    && v.channel.end == u.channel.end && v.channel.accepting == u.channel.accepting && v.normalEnd == u.normalEnd
  }

  /**
   * Over every run a publication becomes the latest frame; a live subscription with fewer than eight queued admits it,
   * at the back and with its time, and one with eight ends with QueueFull and the frame's identity. No other
   * subscription is touched.
   */
  lemma PublicationsAreAdmitted(events: seq<Event>, frame: Frame, at: int, i: nat)
    requires var s := Run(INIT, events); s.alive && s.dropping.None?
    ensures var s := Run(INIT, events);
            var t := Step(s, Publish(frame, at));
            && t.latest == Some(frame) && |t.subs| == |s.subs|
            && (i < |s.subs| ==>
               var u, v := s.subs[i], t.subs[i];
               && v.since == u.since + [frame]
               && if !u.channel.accepting then Untouched(u, v)
                  else if |u.channel.queue| < 8 then
                    && v.channel == u.channel.(queue := u.channel.queue + [Queued(frame, at)])
                    && v.admitted == u.admitted + [frame] && t.dropping.None?
                  else
                    && v.channel.end == Some(QueueFull(frame.identity)) && !v.channel.accepting
                    && v.admitted == u.admitted && t.dropping == Some(i))
  {
    InitInv();
    RunKeeps(INIT, events);
    var s := Run(INIT, events);
    if i < |s.subs| {
      assert SubInv(s.subs[i]);
      assert NoteSince(s.subs, frame)[i] == s.subs[i].(since := s.subs[i].since + [frame]);
    }
  }

  /** The publisher is told of exactly the ends that are set, and detaches from a closed subscription without one. */
  lemma PublicationsReport(u: Sub, frame: Frame, at: int)
    requires SubInv(u)
    ensures var r := Offer(u.channel, frame, at).1;
            && (r == Published <==> u.channel.accepting && |u.channel.queue| < 8)
            && (r == Detach <==> !u.channel.accepting && u.channel.end.None?)
            && (forall end :: r == Ended(end) <==>
                  || u.channel.end == Some(end)
                  || (u.channel.accepting && |u.channel.queue| >= 8 && end == QueueFull(frame.identity)))
  {
  }

  /** Over every run a subscription is refused exactly while one is live; a new one is live, empty and the only one. */
  lemma SubscribesExactly(events: seq<Event>)
    requires var s := Run(INIT, events); s.alive && s.dropping.None?
    ensures var s := Run(INIT, events);
            var t := Step(s, Subscribe);
            if exists i | 0 <= i < |s.subs| :: s.subs[i].channel.accepting then t == s
            else
              && |t.subs| == |s.subs| + 1 && t.ordered == Some(|s.subs|) && t.latest == s.latest
              && t.subs[|s.subs|] == Sub(Channel(true, None, [], true, true), false, false, [], [], [], None, false)
              && forall i {:trigger t.subs[i]} | 0 <= i < |s.subs| :: Untouched(s.subs[i], t.subs[i])
  {
    InitInv();
    RunKeeps(INIT, events);
    var s := Run(INIT, events);
    if s.ordered.Some? {
      assert SubInv(s.subs[s.ordered.value]);
    }
  }

  /** The reason a publisher's event gives a live subscription to end. */
  function ReasonOf(e: Event): Option<End> {
    if e.ResetSource? || e.ClearAll? then Some(Reset) else if e.DropBus? then Some(PublisherStopped) else None
  }

  /** Over every run a reset, a clear or the end of the bus ends the live subscription with its reason, and no other. */
  lemma EndsReachTheLive(events: seq<Event>, e: Event, i: nat)
    requires var s := Run(INIT, events); s.alive && s.dropping.None? && i < |s.subs| && ReasonOf(e).Some?
    ensures var s := Run(INIT, events);
            var t := Step(s, e);
            && (e.ClearAll? ==> t.latest.None?) && (!e.ClearAll? ==> t.latest == s.latest) && (t.alive <==> !e.DropBus?)
            && i < |t.subs|
            && if s.subs[i].channel.accepting then t.subs[i].channel.end == ReasonOf(e) && !t.subs[i].channel.accepting
               else Untouched(s.subs[i], t.subs[i])
  {
    InitInv();
    RunKeeps(INIT, events);
    var s := Run(INIT, events);
    assert SubInv(s.subs[i]);
  }

  /** Over every run dropping a live subscription ends it with Cancelled; what it had queued is gone. */
  lemma DropsCancel(events: seq<Event>, i: nat)
    requires var s := Run(INIT, events); i < |s.subs| && !s.subs[i].dropped
    ensures var s := Run(INIT, events);
            var u, v := s.subs[i], Step(s, DropSub(i)).subs[i];
            && v.dropped && v.channel.queue == [] && !v.channel.accepting
            && v.channel.end == if u.channel.accepting then Some(Cancelled) else u.channel.end
  {
    InitInv();
    RunKeeps(INIT, events);
    assert SubInv(Run(INIT, events).subs[i]);
  }

  // ----- Every poll delivers -----

  function Min(a: nat, b: nat): nat {
    if a < b then a else b
  }

  lemma OwnPollDelivers(u: Sub, now: int)
    requires SubInv(u) && !u.dropped && DoPoll(u, now).channel.end.None?
    ensures |DoPoll(u, now).delivered| >= Min(|u.delivered| + 1, |u.admitted|)
  {
  }

  lemma StaysUndropped(s: State, e: Event, i: nat)
    requires i < |s.subs| && !s.subs[i].dropped && e != DropSub(i)
    ensures i < |Step(s, e).subs| && !Step(s, e).subs[i].dropped
  {
    hide Poll, Offer, EndWith, DropSubscription;
    if e.Publish? {
      assert NoteSince(s.subs, e.frame)[i].dropped == s.subs[i].dropped;
    }
  }

  lemma LaterCounts(u: Sub, v: Sub)
    requires Later(u, v)
    ensures |u.delivered| <= |v.delivered| && |u.admitted| <= |v.admitted|
    ensures v.channel.end.None? ==> u.channel.end.None?
  {
  }

  lemma {:induction false} EveryPollDeliversFrom(s: State, i: nat, events: seq<Event>)
    requires Inv(s) && i < |s.subs| && !s.subs[i].dropped && DropSub(i) !in events
    ensures i < |Run(s, events).subs|
    ensures Run(s, events).subs[i].channel.end.None? ==>
              |Run(s, events).subs[i].delivered| >= Min(|s.subs[i].delivered| + Polls(i, events), |s.subs[i].admitted|)
    decreases |events|
  {
    hide SubInv, Inv, Step, DoPoll, Later;
    if events != [] {
      var e, rest := events[0], events[1..];
      var t := Step(s, e);
      assert e in events && forall k | k in rest :: k in events;
      StepKeeps(s, e);
      StaysUndropped(s, e, i);
      assert Later(s.subs[i], t.subs[i]);
      LaterCounts(s.subs[i], t.subs[i]);
      EveryPollDeliversFrom(t, i, rest);
      RunKeeps(t, rest);
      assert Later(t.subs[i], Run(t, rest).subs[i]);
      LaterCounts(t.subs[i], Run(t, rest).subs[i]);
      if e.TryNext? && e.i == i && t.subs[i].channel.end.None? {
        OwnPoll(s, i, e.now);
        SubInvOf(s, i);
        OwnPollDelivers(s.subs[i], e.now);
      }
    }
  }

  lemma SubInvOf(s: State, i: nat)
    requires Inv(s) && i < |s.subs|
    ensures SubInv(s.subs[i])
  {
  }

  /**
   * A published frame arrives, over every run: admitted by a live subscription behind n others, it has been delivered
   * once the subscription was polled n + 1 times, whatever came between, unless the subscription has ended by then.
   */
  lemma PublishedFramesArrive(before: seq<Event>, frame: Frame, at: int, after: seq<Event>, i: nat)
    requires var s := Run(INIT, before);
             && s.alive && s.dropping.None? && i < |s.subs| && !s.subs[i].dropped && s.subs[i].channel.accepting
             && |s.subs[i].channel.queue| < 8 && DropSub(i) !in after && Polls(i, after) > |s.subs[i].channel.queue|
    ensures var u := Run(INIT, before).subs[i];
            var t := Run(Run(INIT, before), [Publish(frame, at)] + after);
            && i < |t.subs|
            && (t.subs[i].channel.end.None? ==> u.admitted + [frame] <= t.subs[i].delivered)
  {
    hide SubInv, Inv, Step, Later;
    var s := Run(INIT, before);
    var e := Publish(frame, at);
    var m := Step(s, e);
    assert ([e] + after)[0] == e && ([e] + after)[1..] == after;
    InitInv();
    RunKeeps(INIT, before);
    StepKeeps(s, e);
    PublicationsAreAdmitted(before, frame, at, i);
    StaysUndropped(s, e, i);
    EveryPollDeliversFrom(m, i, after);
    RunKeeps(m, after);
    SubInvOf(s, i);
    SubInvOf(Run(m, after), i);
    QueuedIsTheRest(s.subs[i]);
    assert Later(s.subs[i], m.subs[i]) && Later(m.subs[i], Run(m, after).subs[i]);
    LaterCounts(s.subs[i], m.subs[i]);
    Arrived(s.subs[i], m.subs[i], Run(m, after).subs[i], frame);
  }

  lemma QueuedIsTheRest(u: Sub)
    requires SubInv(u) && u.channel.accepting
    ensures |u.admitted| == |u.delivered| + |u.channel.queue|
  {
  }

  lemma Arrived(u: Sub, m: Sub, v: Sub, frame: Frame)
    requires SubInv(v) && Later(u, m) && Later(m, v) && m.admitted == u.admitted + [frame]
    requires v.channel.end.None? ==> |v.delivered| >= |m.admitted|
    ensures v.channel.end.None? ==> m.admitted <= v.delivered
  {
  }

  // ----- Draining after a cutoff -----

  /** How often these events poll subscription i. */
  function Polls(i: nat, events: seq<Event>): nat
    decreases |events|
  {
    if events == [] then 0 else (if events[0].TryNext? && events[0].i == i then 1 else 0) + Polls(i, events[1..])
  }

  /** None of these polls comes too late for a queued frame. */
  ghost predicate InTime(queue: seq<Queued>, i: nat, events: seq<Event>) {
    forall e, q | e in events && e.TryNext? && e.i == i && q in queue :: !Expired(q, e.now)
  }

  /** A subscription whose gate is closed without an end, and which may still hold admitted frames. */
  ghost predicate Draining(u: Sub) {
    SubInv(u) && !u.dropped && !u.channel.accepting && u.channel.end.None?
  }

  /** The same to its consumer: only the publisher's half may differ. */
  predicate SameToConsumer(u: Sub, v: Sub) {
    && v.channel.queue == u.channel.queue && v.channel.receiver == u.channel.receiver
    && v.channel.accepting == u.channel.accepting && v.channel.end == u.channel.end && v.dropped == u.dropped
    && v.admitted == u.admitted && v.delivered == u.delivered && v.normalEnd == u.normalEnd && v.failed == u.failed
  }

  /** Nothing but its own polls and drop touches what a draining subscription has still to deliver. */
  lemma OthersLeaveDraining(s: State, e: Event, i: nat)
    requires Inv(s) && i < |s.subs| && Draining(s.subs[i]) && e != DropSub(i) && !(e.TryNext? && e.i == i)
    ensures i < |Step(s, e).subs| && SameToConsumer(s.subs[i], Step(s, e).subs[i])
  {
    hide SubInv, Inv, DoPoll, DoPublish, DoSubscribe, DoEnd, DoFinishDrop, DoClose, DropSubscription;
    match e
    case Publish(frame, at) => PublishLeavesDraining(s, frame, at, i);
    case Subscribe => SubscribeLeavesDraining(s, i);
    case ResetSource => EndLeavesDraining(s, Reset, i);
    case ClearAll => EndLeavesDraining(s.(latest := None), Reset, i);
    case DropBus => EndLeavesDraining(s, PublisherStopped, i);
    case FinishDrop => FinishDropLeavesDraining(s, i);
    case CloseCutoff(k) => CloseLeavesDraining(s.subs[i]);
    case _ =>
  }

  lemma FinishDropLeavesDraining(s: State, i: nat)
    requires i < |s.subs| && Draining(s.subs[i])
    ensures i < |DoFinishDrop(s).subs| && SameToConsumer(s.subs[i], DoFinishDrop(s).subs[i])
  {
    hide SubInv;
  }

  lemma CloseLeavesDraining(u: Sub)
    requires Draining(u)
    ensures SameToConsumer(u, DoClose(u))
  {
    hide SubInv;
  }

  lemma SubscribeLeavesDraining(s: State, i: nat)
    requires i < |s.subs| && Draining(s.subs[i])
    ensures i < |DoSubscribe(s).subs| && SameToConsumer(s.subs[i], DoSubscribe(s).subs[i])
  {
    hide SubInv;
  }

  lemma EndLeavesDraining(s: State, reason: End, i: nat)
    requires i < |s.subs| && Draining(s.subs[i])
    ensures i < |DoEnd(s, reason).subs| && SameToConsumer(s.subs[i], DoEnd(s, reason).subs[i])
  {
    hide SubInv;
  }

  lemma PublishLeavesDraining(s: State, frame: Frame, at: int, i: nat)
    requires Inv(s) && i < |s.subs| && Draining(s.subs[i])
    ensures i < |DoPublish(s, frame, at).subs| && SameToConsumer(s.subs[i], DoPublish(s, frame, at).subs[i])
  {
    hide SubInv;
    assert NoteSince(s.subs, frame)[i] == s.subs[i].(since := s.subs[i].since + [frame]);
  }

  lemma PollDrains(u: Sub, now: int)
    requires Draining(u) && forall q | q in u.channel.queue :: !Expired(q, now)
    ensures var v := DoPoll(u, now); var queue := u.channel.queue;
            && Draining(v) && v.admitted == u.admitted && v.failed == u.failed
            && v.normalEnd == (u.normalEnd || queue == [])
            && v.channel.queue == (if queue == [] then [] else queue[1..])
  {
    PollKeeps(u, now);
    var queue := u.channel.queue;
    if u.channel.receiver && queue != [] {
      assert queue[0] in queue;
    }
  }

  lemma StillInTime(queue: seq<Queued>, later: seq<Queued>, i: nat, events: seq<Event>)
    requires InTime(queue, i, events) && events != [] && forall q | q in later :: q in queue
    ensures InTime(later, i, events[1..])
  {
    hide Expired;
    assert forall e | e in events[1..] :: e in events;
  }

  lemma {:induction false} DrainsInEveryRun(s: State, i: nat, events: seq<Event>)
    requires Inv(s) && i < |s.subs| && Draining(s.subs[i]) && DropSub(i) !in events
    requires InTime(s.subs[i].channel.queue, i, events)
    requires s.subs[i].normalEnd || Polls(i, events) > |s.subs[i].channel.queue|
    ensures var t := Run(s, events);
            && i < |t.subs| && Draining(t.subs[i]) && t.subs[i].normalEnd
            && t.subs[i].admitted == s.subs[i].admitted && t.subs[i].failed == s.subs[i].failed
    decreases |events|
  {
    hide SubInv, Inv, Step, Poll, DoPoll, Expired;
    if events != [] {
      var e, rest, u := events[0], events[1..], s.subs[i];
      assert e in events && forall k | k in rest :: k in events;
      StillInTime(u.channel.queue, u.channel.queue, i, events);
      StepKeeps(s, e);
      if e.TryNext? && e.i == i {
        OwnPoll(s, i, e.now);
        PollDrains(u, e.now);
        StillInTime(u.channel.queue, DoPoll(u, e.now).channel.queue, i, events);
      } else {
        OthersLeaveDraining(s, e, i);
        NowDraining(s, Step(s, e), i);
      }
      DrainsInEveryRun(Step(s, e), i, rest);
    }
  }

  lemma OwnPoll(s: State, i: nat, now: int)
    requires i < |s.subs| && !s.subs[i].dropped
    ensures var t := Step(s, TryNext(i, now)); i < |t.subs| && t.subs[i] == DoPoll(s.subs[i], now)
  {
    hide Poll;
  }

  lemma NowDraining(s: State, t: State, i: nat)
    requires Inv(t) && i < |s.subs| && i < |t.subs| && Draining(s.subs[i]) && SameToConsumer(s.subs[i], t.subs[i])
    ensures Draining(t.subs[i])
  {
  }

  /**
   * The drain after a cutoff, over every run: once a live or detached subscription is closed, polling it often enough
   * and in time ends normally with everything admitted delivered, whatever publications, resets, drops of the bus and
   * other subscriptions come in between.
   */
  lemma DrainsToNormalEnd(before: seq<Event>, after: seq<Event>, i: nat)
    requires var s := Run(INIT, before);
             && i < |s.subs| && !s.subs[i].dropped && s.subs[i].channel.end.None?
             && DropSub(i) !in after && InTime(s.subs[i].channel.queue, i, after)
             && Polls(i, after) > |s.subs[i].channel.queue|
    ensures var u := Run(INIT, before).subs[i];
            var t := Run(Run(INIT, before), [CloseCutoff(i)] + after);
            && i < |t.subs| && t.subs[i].normalEnd && t.subs[i].delivered == u.admitted && t.subs[i].failed.None?
  {
    hide SubInv, Later, Step, Inv, InTime;
    var s := Run(INIT, before);
    var closed := Step(s, CloseCutoff(i));
    assert ([CloseCutoff(i)] + after)[0] == CloseCutoff(i) && ([CloseCutoff(i)] + after)[1..] == after;
    InitInv();
    RunKeeps(INIT, before);
    StepKeeps(s, CloseCutoff(i));
    CloseStep(s, i);
    ClosedDrains(closed, i);
    DrainsInEveryRun(closed, i, after);
    EndedWell(Run(closed, after).subs[i]);
  }

  lemma ClosedDrains(s: State, i: nat)
    requires Inv(s) && i < |s.subs| && !s.subs[i].dropped && !s.subs[i].channel.accepting && s.subs[i].channel.end.None?
    ensures Draining(s.subs[i])
  {
  }

  lemma EndedWell(u: Sub)
    requires Draining(u) && u.normalEnd
    ensures u.delivered == u.admitted && u.failed.None?
  {
  }
}
