/** The desktop preview: a capacity-one worker gated by generations, and the cadence that feeds it. */
module PreviewPipelines {
  import opened Results

  const U64_MAX: nat := U64 - 1
  const PREVIEW_TARGET_FRAME_INTERVAL: nat := 16_666_667

  // ----- The cadence -----

  /** The deadline after a poll, and whether the poll is accepted. */
  function TakeDue(interval: nat, deadline: Option<nat>, now: nat): (Option<nat>, bool) {
    if deadline.None? then (Some(now + interval), true)
    else if now < deadline.value then (deadline, false)
    else if now - deadline.value >= interval then (Some(now + interval), true)
    else (Some(deadline.value + interval), true)
  }

  class PreviewCadence {
    const interval: nat
    var nextDeadline: Option<nat>

    constructor (interval: nat)
      ensures this.interval == interval && nextDeadline == None
    {
      this.interval, nextDeadline := interval, None;
    }

    method Poll(now: nat) returns (due: bool)
      modifies this
      ensures (nextDeadline, due) == TakeDue(interval, old(nextDeadline), now)
    {
      if nextDeadline.None? {
        nextDeadline := Some(now + interval);
        return true;
      }
      var deadline := nextDeadline.value;
      if now < deadline {
        return false;
      }
      nextDeadline := if now - deadline >= interval then Some(now + interval) else Some(deadline + interval);
      return true;
    }
  }

  /** The times of the accepted polls. */
  function Accepted(interval: nat, deadline: Option<nat>, polls: seq<nat>): seq<nat>
    decreases |polls|
  {
    if polls == [] then []
    else
      var (next, due) := TakeDue(interval, deadline, polls[0]);
      (if due then [polls[0]] else []) + Accepted(interval, next, polls[1..])
  }

  /** However late earlier polls were, the k-th acceptance from here is at least k intervals after the deadline. */
  lemma {:induction false} AcceptedAfterDeadline(interval: nat, deadline: nat, polls: seq<nat>, k: nat)
    requires k < |Accepted(interval, Some(deadline), polls)|
    ensures Accepted(interval, Some(deadline), polls)[k] >= deadline + k * interval
    decreases |polls|
  {
    var (next, due) := TakeDue(interval, Some(deadline), polls[0]);
    if !due {
      assert Accepted(interval, Some(deadline), polls) == Accepted(interval, next, polls[1..]);
      AcceptedAfterDeadline(interval, deadline, polls[1..], k);
    } else if k > 0 {
      AcceptedAfterDeadline(interval, next.value, polls[1..], k - 1);
      assert k * interval == (k - 1) * interval + interval;
    }
  }

  /** Any n + 1 accepted polls span more than n - 1 intervals: no burst, after however long a pause. */
  lemma {:induction false} NoBurst(interval: nat, deadline: Option<nat>, polls: seq<nat>, i: nat, n: nat)
    requires interval > 0 && n > 0 && i + n < |Accepted(interval, deadline, polls)|
    ensures var a := Accepted(interval, deadline, polls); a[i + n] - a[i] > (n - 1) * interval
    decreases |polls|
  {
    var (next, due) := TakeDue(interval, deadline, polls[0]);
    var a := Accepted(interval, deadline, polls);
    if !due {
      assert a == Accepted(interval, next, polls[1..]);
      NoBurst(interval, next, polls[1..], i, n);
    } else {
      assert a[1..] == Accepted(interval, next, polls[1..]);
      if i > 0 {
        NoBurst(interval, next, polls[1..], i - 1, n);
      } else {
        AcceptedAfterDeadline(interval, next.value, polls[1..], n - 1);
      }
    }
  }

  /** An accepted poll leaves a deadline ahead of it, by at most one interval: a poll one interval later is accepted. */
  lemma AcceptedWithinInterval(interval: nat, deadline: Option<nat>, now: nat, later: nat)
    requires interval > 0 && TakeDue(interval, deadline, now).1 && later >= now + interval
    ensures var next := TakeDue(interval, deadline, now).0;
            next.Some? && now < next.value && TakeDue(interval, next, later).1
  {
  }

  /** Poll k lies in the k-th interval from the deadline on. */
  predicate InPhase(interval: nat, deadline: nat, polls: seq<nat>) {
    forall k | 0 <= k < |polls| :: deadline + k * interval <= polls[k] < deadline + k * interval + interval
  }

  /** Polling jitter keeps the phase: polls that each come within their interval are all accepted. */
  lemma {:induction false} PhaseIsKept(interval: nat, deadline: nat, polls: seq<nat>)
    requires InPhase(interval, deadline, polls)
    ensures Accepted(interval, Some(deadline), polls) == polls
    ensures DeadlineAfter(interval, Some(deadline), polls) == Some(deadline + |polls| * interval)
    decreases |polls|
  {
    if polls != [] {
      assert polls[0] - deadline < interval;
      forall k | 0 <= k < |polls| - 1
        ensures deadline + interval + k * interval <= polls[1..][k] < deadline + interval + k * interval + interval
      {
        assert polls[1..][k] == polls[k + 1];
        assert (k + 1) * interval == k * interval + interval;
      }
      PhaseIsKept(interval, deadline + interval, polls[1..]);
      assert |polls| * interval == interval + (|polls| - 1) * interval;
    }
  }

  function DeadlineAfter(interval: nat, deadline: Option<nat>, polls: seq<nat>): Option<nat>
    decreases |polls|
  {
    if polls == [] then deadline else DeadlineAfter(interval, TakeDue(interval, deadline, polls[0]).0, polls[1..])
  }

  /** The first poll, and one a whole interval late, begin a new phase; one before the deadline is refused. */
  lemma PollsExactly(interval: nat, deadline: Option<nat>, now: nat)
    ensures var (next, due) := TakeDue(interval, deadline, now);
            && (due <==> deadline.None? || deadline.value <= now)
            && (!due ==> next == deadline)
            && (due && (deadline.None? || deadline.value + interval <= now) ==> next == Some(now + interval))
            && (due && deadline.Some? && now < deadline.value + interval ==> next == Some(deadline.value + interval))
  {
  }

  // ----- The worker's shared state -----

  /** epoch, the number of invalidations before the submission, is history for the proofs. */
  datatype Request = Request(sequence: nat, generation: nat, frame: nat, width: nat, epoch: nat)

  datatype Worker = Worker(generation: nat, pending: Option<Request>, completed: Option<Request>, stopped: bool)

  function Enqueued(w: Worker, r: Request): Worker {
    w.(pending := Some(r))
  }

  function Published(w: Worker, r: Request): Worker {
    if w.completed.None? || r.sequence > w.completed.value.sequence then w.(completed := Some(r)) else w
  }

  function Invalidated(w: Worker): Worker {
    (if w.generation < U64_MAX then w.(generation := w.generation + 1) else w.(stopped := true)).(
      pending := None, completed := None)
  }

  /** The end of a preparation, under the lock; a preparation can fail. */
  function Finished(w: Worker, r: Request, prepared: bool): Worker {
    if w.stopped || w.generation != r.generation || !prepared then w else Published(w, r)
  }

  class WorkerState {
    var generation: nat
    var pending: Option<Request>
    var completed: Option<Request>
    var stopped: bool

    constructor ()
      ensures View() == Worker(0, None, None, false)
    {
      generation, pending, completed, stopped := 0, None, None, false;
    }

    function View(): Worker
      reads this
    {
      Worker(generation, pending, completed, stopped)
    }

    method EnqueueLatest(r: Request)
      modifies this`pending
      ensures View() == Enqueued(old(View()), r)
    {
      pending := Some(r);
    }

    method PublishLatest(r: Request)
      modifies this`completed
      ensures View() == Published(old(View()), r)
    {
      if completed.None? || r.sequence > completed.value.sequence {
        completed := Some(r);
      }
    }

    /** The worker's first locked section, once it has been woken. */
    method TakePending() returns (request: Option<Request>)
      requires pending.Some? || stopped
      modifies this`pending
      ensures request == if old(stopped) then None else old(pending)
      ensures View() == if old(stopped) then old(View()) else old(View()).(pending := None)
    {
      if stopped {
        return None;
      }
      request := pending;
      pending := None;
    }

    /** The worker's second locked section; continue is false when the worker returns. */
    method Finish(r: Request, prepared: bool) returns (continues: bool)
      modifies this`completed
      ensures View() == Finished(old(View()), r, prepared) && continues == !old(stopped)
    {
      if stopped {
        return false;
      }
      if generation != r.generation {
        return true;
      }
      if prepared {
        PublishLatest(r);
      }
      return true;
    }
  }

  // ----- The UI's half -----

  datatype Pipeline = Pipeline(
    lastSequence: nat, lastFrame: Option<nat>, lastWidth: nat, deadline: Option<nat>, targetWidth: nat)

  function Admitted(p: Pipeline, now: nat, frame: nat): (Pipeline, bool) {
    if p.lastFrame == Some(frame) && p.lastWidth == p.targetWidth then (p, false)
    else
      var (deadline, due) := TakeDue(PREVIEW_TARGET_FRAME_INTERVAL, p.deadline, now);
      if !due then (p, false)
      else if p.lastSequence == U64_MAX then (p.(deadline := deadline), false)
      else (Pipeline(p.lastSequence + 1, Some(frame), p.targetWidth, deadline, p.targetWidth), true)
  }

  function RequestOf(p: Pipeline, generation: nat, frame: nat, epoch: nat): Request {
    Request(p.lastSequence, generation, frame, p.targetWidth, epoch)
  }

  class PreviewPipeline {
    const shared: WorkerState
    const cadence: PreviewCadence
    var lastSubmittedSequence: nat
    var lastSubmittedFrame: Option<nat>
    var lastSubmittedWidth: nat
    var targetWidth: nat

    constructor (targetWidth: nat)
      ensures fresh(shared) && fresh(cadence) && cadence.interval == PREVIEW_TARGET_FRAME_INTERVAL
      ensures shared.View() == Worker(0, None, None, false) && View() == Pipeline(0, None, 0, None, targetWidth)
    {
      shared := new WorkerState();
      cadence := new PreviewCadence(PREVIEW_TARGET_FRAME_INTERVAL);
      lastSubmittedSequence, lastSubmittedFrame, lastSubmittedWidth := 0, None, 0;
      this.targetWidth := targetWidth;
    }

    function View(): Pipeline
      reads this, cadence
    {
      Pipeline(lastSubmittedSequence, lastSubmittedFrame, lastSubmittedWidth, cadence.nextDeadline, targetWidth)
    }

    method SubmitLatest(now: nat, frame: nat, epoch: nat) returns (submitted: bool)
      requires cadence.interval == PREVIEW_TARGET_FRAME_INTERVAL
      modifies this, cadence, shared`pending
      ensures (View(), submitted) == Admitted(old(View()), now, frame)
      ensures shared.View() == if !submitted then old(shared.View())
                               else Enqueued(old(shared.View()), RequestOf(View(), old(shared.generation), frame, epoch))
    {
      if lastSubmittedFrame == Some(frame) && lastSubmittedWidth == targetWidth {
        return false;
      }
      var due := cadence.Poll(now);
      if !due {
        return false;
      }
      if lastSubmittedSequence == U64_MAX {
        return false;
      }
      lastSubmittedSequence := lastSubmittedSequence + 1;
      lastSubmittedFrame := Some(frame);
      lastSubmittedWidth := targetWidth;
      var generation := shared.generation;
      shared.EnqueueLatest(Request(lastSubmittedSequence, generation, frame, targetWidth, epoch));
      return true;
    }

    method InvalidateSource()
      modifies this, shared
      ensures View() == old(View()).(lastFrame := None, lastSequence := 0)
      ensures shared.View() == Invalidated(old(shared.View()))
    {
      lastSubmittedFrame := None;
      lastSubmittedSequence := 0;
      if shared.generation < U64_MAX {
        shared.generation := shared.generation + 1;
      } else {
        shared.stopped := true;
      }
      shared.pending := None;
      shared.completed := None;
    }

    method Clear() returns (hadWork: bool)
      modifies this, shared
      ensures hadWork == (old(lastSubmittedFrame).Some? || old(shared.pending).Some? || old(shared.completed).Some?)
      ensures View() == if hadWork then old(View()).(lastFrame := None, lastSequence := 0) else old(View())
      ensures shared.View() == if hadWork then Invalidated(old(shared.View())) else old(shared.View())
    {
      hadWork := lastSubmittedFrame.Some? || shared.pending.Some? || shared.completed.Some?;
      if hadWork {
        InvalidateSource();
      }
    }

    method TakePrepared() returns (preview: Option<Request>)
      modifies shared`completed
      ensures preview == old(shared.completed) && shared.View() == old(shared.View()).(completed := None)
    {
      preview := shared.completed;
      shared.completed := None;
    }
  }

  // ----- Every interleaving of the UI and the worker -----

  /** A preview handed to the UI, and the number of invalidations before that. */
  datatype Taken = Taken(request: Request, epoch: nat)

  /**
   * submitting is a request between the two locked sections of a submission; busy is the one being prepared;
   * epoch counts the invalidations and taken lists the previews handed out.
   */
  datatype State = State(
    worker: Worker, ui: Pipeline, submitting: Option<Request>, busy: Option<Request>, exited: bool, dropped: bool,
    epoch: nat, taken: seq<Taken>)

  datatype Event =
    | BeginSubmit(now: nat, frame: nat)
    | FinishSubmit
    | SetWidth(width: nat)
    | Invalidate
    | ClearWork
    | Take
    | DropPipeline
    | WorkerTake
    | WorkerFinish(prepared: bool)

  function Init(targetWidth: nat): State {
    State(Worker(0, None, None, false), Pipeline(0, None, 0, None, targetWidth), None, None, false, false, 0, [])
  }

  predicate UiFree(s: State) {
    !s.dropped && s.submitting.None?
  }

  function DoInvalidate(s: State): State {
    s.(ui := s.ui.(lastFrame := None, lastSequence := 0), worker := Invalidated(s.worker), epoch := s.epoch + 1)
  }

  function DoSubmit(s: State, now: nat, frame: nat): State {
    var (ui, admitted) := Admitted(s.ui, now, frame);
    s.(ui := ui,
       submitting := if admitted then Some(RequestOf(ui, s.worker.generation, frame, s.epoch)) else None)
  }

  function DoTake(s: State): State {
    if s.worker.completed.None? then s
    else s.(worker := s.worker.(completed := None), taken := s.taken + [Taken(s.worker.completed.value, s.epoch)])
  }

  function DoWorkerTake(s: State): State {
    if s.worker.stopped then s.(exited := true)
    else if s.worker.pending.Some? then s.(busy := s.worker.pending, worker := s.worker.(pending := None))
    else s
  }

  /** One atomic step; an event that cannot happen leaves the state alone. */
  function Step(s: State, e: Event): State {
    match e
    case BeginSubmit(now, frame) => if UiFree(s) then DoSubmit(s, now, frame) else s
    case FinishSubmit =>
      if s.submitting.Some? then s.(worker := Enqueued(s.worker, s.submitting.value), submitting := None) else s
    case SetWidth(width) => if UiFree(s) then s.(ui := s.ui.(targetWidth := width)) else s
    case Invalidate => if UiFree(s) then DoInvalidate(s) else s
    case ClearWork =>
      if UiFree(s) && (s.ui.lastFrame.Some? || s.worker.pending.Some? || s.worker.completed.Some?) then DoInvalidate(s)
      else s
    case Take => if UiFree(s) then DoTake(s) else s
    case DropPipeline => if UiFree(s) then s.(dropped := true, worker := s.worker.(stopped := true)) else s
    case WorkerTake => if !s.exited && s.busy.None? then DoWorkerTake(s) else s
    case WorkerFinish(prepared) =>
      if s.busy.Some? then
        s.(worker := Finished(s.worker, s.busy.value, prepared), busy := None, exited := s.exited || s.worker.stopped)
      else s
  }

  function Run(s: State, events: seq<Event>): State
    decreases |events|
  {
    if events == [] then s else Run(Step(s, events[0]), events[1..])
  }

  /** A preparation whose result could still be published. */
  predicate Current(s: State) {
    s.busy.Some? && s.busy.value.generation == s.worker.generation && !s.worker.stopped
  }

  /** Sequence x is older than everything still on its way. */
  predicate Older(s: State, x: nat) {
    && x <= s.ui.lastSequence
    && (s.submitting.Some? ==> x < s.submitting.value.sequence)
    && (s.worker.pending.Some? ==> x < s.worker.pending.value.sequence)
    && (Current(s) ==> x < s.busy.value.sequence)
  }

  ghost predicate Inv(s: State) {
    && (s.submitting.Some? ==>
          var r := s.submitting.value;
          r.generation == s.worker.generation && r.epoch == s.epoch && r.sequence == s.ui.lastSequence)
    && (s.worker.pending.Some? ==>
          var r := s.worker.pending.value;
          && r.generation == s.worker.generation && r.epoch == s.epoch && r.sequence <= s.ui.lastSequence
          && (s.submitting.Some? ==> r.sequence < s.submitting.value.sequence))
    && (s.busy.Some? ==> s.busy.value.generation <= s.worker.generation)
    && (Current(s) ==>
          var r := s.busy.value;
          && r.epoch == s.epoch && r.sequence <= s.ui.lastSequence
          && (s.submitting.Some? ==> r.sequence < s.submitting.value.sequence)
          && (s.worker.pending.Some? ==> r.sequence < s.worker.pending.value.sequence))
    && (s.worker.completed.Some? ==>
          s.worker.completed.value.epoch == s.epoch && Older(s, s.worker.completed.value.sequence))
    && TakenInv(s)
  }

  ghost predicate TakenInv(s: State) {
    && InOrder(s.taken)
    && (forall i {:trigger s.taken[i]} | 0 <= i < |s.taken| :: s.taken[i].epoch <= s.epoch)
    && forall i {:trigger s.taken[i]} | 0 <= i < |s.taken| && s.taken[i].epoch == s.epoch ::
         && Older(s, s.taken[i].request.sequence)
         && (s.worker.completed.Some? ==> s.taken[i].request.sequence < s.worker.completed.value.sequence)
  }

  /** Every preview was submitted after the latest invalidation, and later than those taken since. */
  ghost predicate InOrder(taken: seq<Taken>) {
    && (forall i {:trigger taken[i]} | 0 <= i < |taken| :: taken[i].request.epoch == taken[i].epoch)
    && forall i, j {:trigger taken[i], taken[j]} | 0 <= i < j < |taken| && taken[i].epoch == taken[j].epoch ::
         taken[i].request.sequence < taken[j].request.sequence
  }

  lemma TakeKeeps(s: State)
    requires Inv(s)
    ensures Inv(DoTake(s))
  {
  }

  lemma SubmitKeeps(s: State, now: nat, frame: nat)
    requires Inv(s) && UiFree(s)
    ensures Inv(DoSubmit(s, now, frame))
  {
    hide InOrder;
  }

  lemma InvalidateKeeps(s: State)
    requires Inv(s) && UiFree(s)
    ensures Inv(DoInvalidate(s))
  {
    hide InOrder;
  }

  lemma WorkerTakeKeeps(s: State)
    requires Inv(s) && s.busy.None?
    ensures Inv(DoWorkerTake(s))
  {
    hide InOrder;
  }

  lemma WorkerFinishKeeps(s: State, prepared: bool)
    requires Inv(s)
    ensures Inv(Step(s, WorkerFinish(prepared)))
  {
    hide InOrder;
  }

  lemma StepKeeps(s: State, e: Event)
    requires Inv(s)
    ensures Inv(Step(s, e))
  {
    hide InOrder, DoTake, DoSubmit, DoInvalidate, DoWorkerTake;
    match e
    case Take => TakeKeeps(s);
    case BeginSubmit(now, frame) => if UiFree(s) { SubmitKeeps(s, now, frame); }
    case Invalidate => if UiFree(s) { InvalidateKeeps(s); }
    case ClearWork => if UiFree(s) { InvalidateKeeps(s); }
    case WorkerTake => if s.busy.None? { WorkerTakeKeeps(s); }
    case WorkerFinish(prepared) => WorkerFinishKeeps(s, prepared);
    case _ =>
  }

  lemma {:induction false} RunKeeps(s: State, events: seq<Event>)
    requires Inv(s)
    ensures Inv(Run(s, events))
    decreases |events|
  {
    hide Inv, Step;
    if events != [] {
      StepKeeps(s, events[0]);
      RunKeeps(Step(s, events[0]), events[1..]);
    }
  }

  /**
   * Under every interleaving each preview taken was submitted after the latest invalidation, and between two
   * invalidations the sequences taken strictly increase.
   */
  lemma PreviewsAreFresh(targetWidth: nat, events: seq<Event>)
    ensures InOrder(Run(Init(targetWidth), events).taken)
  {
    RunKeeps(Init(targetWidth), events);
  }

  /**
   * Over every run a submission is admitted exactly when its frame or the target width is new, it is due, and the
   * 64-bit sequence is not used up; it asks for that frame at the target width, in the present generation.
   */
  lemma SubmissionsExactly(targetWidth: nat, events: seq<Event>, now: nat, frame: nat)
    requires UiFree(Run(Init(targetWidth), events))
    ensures var s := Run(Init(targetWidth), events);
            var t := Step(s, BeginSubmit(now, frame));
            && (t.submitting.Some? <==>
                  && !(s.ui.lastFrame == Some(frame) && s.ui.lastWidth == s.ui.targetWidth)
                  && (s.ui.deadline.None? || s.ui.deadline.value <= now)
                  && s.ui.lastSequence != 0xffff_ffff_ffff_ffff)
            && t.worker == s.worker && t.taken == s.taken && t.ui.targetWidth == s.ui.targetWidth
            && if t.submitting.Some? then
                 && t.submitting.value
                    == Request(s.ui.lastSequence + 1, s.worker.generation, frame, s.ui.targetWidth, s.epoch)
                 && t.ui.deadline == Some(if s.ui.deadline.Some? && now < s.ui.deadline.value + 16_666_667
                                          then s.ui.deadline.value + 16_666_667 else now + 16_666_667)
                 && t.ui.lastSequence == s.ui.lastSequence + 1 && t.ui.lastFrame == Some(frame)
                 && t.ui.lastWidth == s.ui.targetWidth
               else
                 && t.ui.lastSequence == s.ui.lastSequence && t.ui.lastFrame == s.ui.lastFrame
                 && t.ui.lastWidth == s.ui.lastWidth
  {
  }

  /** Over every run a submission replaces what is pending, and the worker takes exactly what is pending. */
  lemma LatestRequestWins(targetWidth: nat, events: seq<Event>)
    requires var s := Run(Init(targetWidth), events);
             s.submitting.Some? && s.busy.None? && !s.exited && !s.worker.stopped
    ensures var s := Run(Init(targetWidth), events);
            var t := Step(s, FinishSubmit);
            && t.submitting.None? && t.worker.pending == s.submitting && t.worker.completed == s.worker.completed
            && Step(t, WorkerTake).busy == s.submitting && Step(t, WorkerTake).worker.pending.None?
  {
  }

  /**
   * Over every run a current preparation that succeeds is the next preview to take, even when a newer request is
   * already pending; one that failed, or is of another generation, leaves what was completed.
   */
  lemma FinishedPreviewsArePublished(targetWidth: nat, events: seq<Event>, prepared: bool)
    requires var s := Run(Init(targetWidth), events); s.busy.Some? && !s.worker.stopped
    ensures var s := Run(Init(targetWidth), events);
            var t := Step(s, WorkerFinish(prepared));
            && t.busy.None? && t.worker.pending == s.worker.pending
            && t.worker.completed == if prepared && s.busy.value.generation == s.worker.generation then s.busy
                                     else s.worker.completed
  {
    RunKeeps(Init(targetWidth), events);
    hide InOrder;
  }

  /** Over every run an invalidation leaves nothing to take or prepare, and what is being prepared is out of date. */
  lemma InvalidationsEmpty(targetWidth: nat, events: seq<Event>)
    requires UiFree(Run(Init(targetWidth), events))
    ensures var s := Run(Init(targetWidth), events);
            var t := Step(s, Invalidate);
            && t.worker.pending.None? && t.worker.completed.None? && t.ui.lastFrame.None? && t.ui.lastSequence == 0
            && t.ui.deadline == s.ui.deadline && t.taken == s.taken
            && !Current(t)
            && (t.worker.stopped <==> s.worker.stopped || s.worker.generation >= 0xffff_ffff_ffff_ffff)
  {
    RunKeeps(Init(targetWidth), events);
    hide InOrder;
  }

  /** Over every run a clear is an invalidation exactly when something was submitted, is pending or is completed. */
  lemma ClearsExactly(targetWidth: nat, events: seq<Event>)
    requires UiFree(Run(Init(targetWidth), events))
    ensures var s := Run(Init(targetWidth), events);
            Step(s, ClearWork) ==
              if s.ui.lastFrame == None && s.worker.pending == None && s.worker.completed == None then s
              else Step(s, Invalidate)
  {
  }

  /** A submission that meets an idle worker and no invalidation is the next preview taken. */
  lemma SubmittedPreviewArrives(targetWidth: nat, events: seq<Event>, now: nat, frame: nat)
    requires var s := Run(Init(targetWidth), events);
             UiFree(s) && !s.worker.stopped && !s.exited && s.busy.None? && Admitted(s.ui, now, frame).1
    ensures var s := Run(Init(targetWidth), events);
            var t := Run(s, [BeginSubmit(now, frame), FinishSubmit, WorkerTake, WorkerFinish(true), Take]);
            |t.taken| == |s.taken| + 1 && t.taken[|s.taken|].request.frame == frame && t.worker.completed.None?
  {
    var s := Run(Init(targetWidth), events);
    RunKeeps(Init(targetWidth), events);
    var a := Step(s, BeginSubmit(now, frame));
    var b := Step(a, FinishSubmit);
    var c := Step(b, WorkerTake);
    var d := Step(c, WorkerFinish(true));
    assert c.busy == a.submitting && d.worker.completed == a.submitting;
    assert Run(a, [FinishSubmit, WorkerTake, WorkerFinish(true), Take]) == Run(d, [Take]) by {
      assert [FinishSubmit, WorkerTake, WorkerFinish(true), Take][1..] == [WorkerTake, WorkerFinish(true), Take];
      assert [WorkerTake, WorkerFinish(true), Take][1..] == [WorkerFinish(true), Take];
      assert [WorkerFinish(true), Take][1..] == [Take];
    }
    assert [BeginSubmit(now, frame), FinishSubmit, WorkerTake, WorkerFinish(true), Take][1..]
           == [FinishSubmit, WorkerTake, WorkerFinish(true), Take];
    assert Run(d, [Take]) == Run(Step(d, Take), []);
  }
}
