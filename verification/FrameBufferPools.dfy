/** The bounded pool of reusable pixel storage: leases, generations and conservation over every run. */
module FrameBufferPools {
  import opened Results

  /** One allocation; id stands for its identity. */
  datatype Buffer = Buffer(id: nat, capacity: nat)

  datatype Pool = Pool(
    maxBuffers: nat, maxRetainedBytes: nat, generation: nat, buffers: seq<Buffer>, retainedBytes: nat,
    allocations: nat, reuses: nat, discardedReturns: nat)

  // ----- Best fit -----

  /** Index of the first smallest buffer of at least this length among the first n. */
  function SmallestFit(s: seq<Buffer>, length: nat, n: nat): (r: Option<nat>)
    requires n <= |s|
    ensures r.Some? ==> r.value < n
  {
    if n == 0 then None
    else
      var best := SmallestFit(s, length, n - 1);
      if s[n - 1].capacity >= length && (best.None? || s[n - 1].capacity < s[best.value].capacity) then Some(n - 1)
      else best
  }

  /** Index of the last largest buffer among the first n. */
  function Largest(s: seq<Buffer>, n: nat): (r: Option<nat>)
    requires n <= |s|
    ensures r.Some? ==> r.value < n
  {
    if n == 0 then None
    else
      var best := Largest(s, n - 1);
      if best.None? || s[n - 1].capacity >= s[best.value].capacity then Some(n - 1) else best
  }

  function BestFit(s: seq<Buffer>, length: nat): (r: Option<nat>)
    ensures r.Some? ==> r.value < |s|
  {
    var fit := SmallestFit(s, length, |s|);
    if fit.Some? then fit else Largest(s, |s|)
  }

  lemma {:induction false} SmallestFitIs(s: seq<Buffer>, length: nat, n: nat)
    requires n <= |s|
    ensures var r := SmallestFit(s, length, n);
            if r.None? then forall j | 0 <= j < n :: s[j].capacity < length
            else
              && s[r.value].capacity >= length
              && (forall j | 0 <= j < n :: s[j].capacity < length || s[r.value].capacity <= s[j].capacity)
              && forall j | 0 <= j < r.value :: s[j].capacity < length || s[r.value].capacity < s[j].capacity
  {
    if n > 0 {
      SmallestFitIs(s, length, n - 1);
    }
  }

  lemma {:induction false} LargestIs(s: seq<Buffer>, n: nat)
    requires n <= |s|
    ensures var r := Largest(s, n);
            if r.None? then n == 0
            else
              && (forall j | 0 <= j < n :: s[j].capacity <= s[r.value].capacity)
              && forall j | r.value < j < n :: s[j].capacity < s[r.value].capacity
  {
    if n > 0 {
      LargestIs(s, n - 1);
    }
  }

  /** A pool with storage gives out the smallest that fits, else the largest; nothing only when it is empty. */
  lemma BestFitIs(s: seq<Buffer>, length: nat)
    ensures BestFit(s, length).None? <==> s == []
    ensures forall i | BestFit(s, length) == Some(i) ::
              if exists j :: 0 <= j < |s| && s[j].capacity >= length then
                && s[i].capacity >= length
                && forall j | 0 <= j < |s| && s[j].capacity >= length :: s[i].capacity <= s[j].capacity
              else forall j | 0 <= j < |s| :: s[j].capacity <= s[i].capacity
  {
    SmallestFitIs(s, length, |s|);
    LargestIs(s, |s|);
  }

  // ----- The locked sections -----

  function SwapRemove(s: seq<Buffer>, i: nat): (r: seq<Buffer>)
    requires i < |s|
    ensures |r| == |s| - 1
  {
    if i == |s| - 1 then s[..i] else s[..|s| - 1][i := s[|s| - 1]]
  }

  function SaturatingSub(a: nat, b: nat): nat {
    if a >= b then a - b else 0
  }

  /** checkout under the lock: the storage taken, if any. */
  function Take(p: Pool, length: nat): (Pool, Option<Buffer>) {
    var index := BestFit(p.buffers, length);
    if index.None? then (p.(allocations := p.allocations + 1), None)
    else
      var b := p.buffers[index.value];
      (p.(buffers := SwapRemove(p.buffers, index.value), retainedBytes := SaturatingSub(p.retainedBytes, b.capacity),
          reuses := p.reuses + 1), Some(b))
  }

  function Clear(p: Pool): Pool {
    p.(generation := p.generation + 1, buffers := [], retainedBytes := 0)
  }

  predicate Retains(p: Pool, b: Buffer, generation: nat) {
    && generation == p.generation && |p.buffers| < p.maxBuffers
    && p.retainedBytes + b.capacity <= p.maxRetainedBytes
  }

  function Return(p: Pool, b: Buffer, generation: nat): Pool {
    if Retains(p, b, generation) then p.(retainedBytes := p.retainedBytes + b.capacity, buffers := p.buffers + [b])
    else p.(discardedReturns := p.discardedReturns + 1)
  }

  class FrameBufferPool {
    const maxBuffers: nat
    const maxRetainedBytes: nat
    var generation: nat
    var buffers: seq<Buffer>
    var retainedBytes: nat
    var allocations: nat
    var reuses: nat
    var discardedReturns: nat

    constructor WithLimits(maxBuffers: nat, maxRetainedBytes: nat)
      ensures View() == Pool(maxBuffers, maxRetainedBytes, 0, [], 0, 0, 0, 0)
    {
      this.maxBuffers, this.maxRetainedBytes := maxBuffers, maxRetainedBytes;
      generation, buffers, retainedBytes, allocations, reuses, discardedReturns := 0, [], 0, 0, 0, 0;
    }

    function View(): Pool
      reads this
    {
      Pool(maxBuffers, maxRetainedBytes, generation, buffers, retainedBytes, allocations, reuses, discardedReturns)
    }

    method TakeBestFit(length: nat) returns (storage: Option<Buffer>)
      modifies this
      ensures storage == (if BestFit(old(buffers), length).None? then None
                          else Some(old(buffers)[BestFit(old(buffers), length).value]))
      ensures View() == if storage.None? then old(View())
                        else old(View()).(buffers := SwapRemove(old(buffers), BestFit(old(buffers), length).value),
                                          retainedBytes := SaturatingSub(old(retainedBytes), storage.value.capacity))
    {
      var index := BestFit(buffers, length);
      if index.None? {
        return None;
      }
      var b := buffers[index.value];
      buffers := SwapRemove(buffers, index.value);
      retainedBytes := SaturatingSub(retainedBytes, b.capacity);
      return Some(b);
    }

    method Checkout(length: nat) returns (issued: nat, storage: Option<Buffer>)
      modifies this
      ensures (View(), storage) == Take(old(View()), length) && issued == old(View()).generation
    {
      issued := generation;
      storage := TakeBestFit(length);
      if storage.Some? {
        reuses := reuses + 1;
      } else {
        allocations := allocations + 1;
      }
    }

    method ClearAll()
      modifies this
      ensures View() == Clear(old(View()))
    {
      generation := generation + 1;
      buffers := [];
      retainedBytes := 0;
    }

    method ReturnStorage(storage: Buffer, issued: nat)
      modifies this
      ensures View() == Return(old(View()), storage, issued)
    {
      var capacity := storage.capacity;
      var withinGeneration := issued == generation;
      var withinCount := |buffers| < maxBuffers;
      var withinBytes := retainedBytes + capacity <= maxRetainedBytes;
      if !withinGeneration || !withinCount || !withinBytes {
        discardedReturns := discardedReturns + 1;
        return;
      }
      retainedBytes := retainedBytes + capacity;
      buffers := buffers + [storage];
    }
  }

  // ----- Every run -----

  /** A checked-out buffer; until it is ready its storage may still have to grow to the length asked for. */
  datatype Lease = Lease(buffer: Buffer, generation: nat, length: nat, ready: bool)

  /** cleared and orphaned count the buffers freed by clear and by the loss of the pool; checkouts is history. */
  datatype State = State(pool: Pool, alive: bool, leases: seq<Lease>, cleared: nat, orphaned: nat, checkouts: nat)

  datatype Event =
    | CheckOut(length: nat)
    | MakeReady(i: nat, grown: nat)
    | DropLease(i: nat)
    | ClearPool
    | DropPool

  function Init(maxBuffers: nat, maxRetainedBytes: nat): State {
    State(Pool(maxBuffers, maxRetainedBytes, 0, [], 0, 0, 0, 0), true, [], 0, 0, 0)
  }

  function DoCheckOut(s: State, length: nat): State {
    var (pool, storage) := Take(s.pool, length);
    var b := if storage.Some? then storage.value else Buffer(s.pool.allocations, 0);
    s.(pool := pool, leases := s.leases + [Lease(b, s.pool.generation, length, false)],
       checkouts := s.checkouts + 1)
  }

  /** Storage that is too small is grown to some capacity of at least the length. */
  function Ready(l: Lease, grown: nat): Lease {
    if l.buffer.capacity >= l.length then l.(ready := true)
    else l.(buffer := l.buffer.(capacity := if grown >= l.length then grown else l.length), ready := true)
  }

  function DoDrop(s: State, i: nat): State
    requires i < |s.leases|
  {
    var l := s.leases[i];
    if s.alive then s.(pool := Return(s.pool, l.buffer, l.generation), leases := Without(s.leases, i))
    else s.(leases := Without(s.leases, i), orphaned := s.orphaned + 1)
  }

  /** One atomic step; an event that cannot happen leaves the state alone. */
  function Step(s: State, e: Event): State {
    match e
    case CheckOut(length) => if s.alive then DoCheckOut(s, length) else s
    case MakeReady(i, grown) =>
      if i < |s.leases| && !s.leases[i].ready then s.(leases := s.leases[i := Ready(s.leases[i], grown)]) else s
    case DropLease(i) => if i < |s.leases| && s.leases[i].ready then DoDrop(s, i) else s
    case ClearPool =>
      if s.alive then s.(pool := Clear(s.pool), cleared := s.cleared + |s.pool.buffers|) else s
    case DropPool =>
      if s.alive then
        s.(alive := false, pool := s.pool.(buffers := [], retainedBytes := 0),
           orphaned := s.orphaned + |s.pool.buffers|)
      else s
  }

  function Run(s: State, events: seq<Event>): State
    decreases |events|
  {
    if events == [] then s else Run(Step(s, events[0]), events[1..])
  }

  // ----- Capacities and owners -----

  function Bytes(s: seq<Buffer>): nat {
    if s == [] then 0 else s[0].capacity + Bytes(s[1..])
  }

  function Ids(s: seq<Buffer>): multiset<nat> {
    if s == [] then multiset{} else multiset{s[0].id} + Ids(s[1..])
  }

  function LeaseIds(s: seq<Lease>): multiset<nat> {
    if s == [] then multiset{} else multiset{s[0].buffer.id} + LeaseIds(s[1..])
  }

  /** How often each storage is owned, by a lease or by the pool. */
  function Owners(s: State): multiset<nat> {
    LeaseIds(s.leases) + Ids(s.pool.buffers)
  }

  lemma {:induction false} Joined(a: seq<Buffer>, b: seq<Buffer>)
    ensures Bytes(a + b) == Bytes(a) + Bytes(b) && Ids(a + b) == Ids(a) + Ids(b)
  {
    if a == [] {
      assert a + b == b;
    } else {
      assert (a + b)[1..] == a[1..] + b;
      Joined(a[1..], b);
    }
  }

  lemma {:induction false} LeasesJoined(a: seq<Lease>, b: seq<Lease>)
    ensures LeaseIds(a + b) == LeaseIds(a) + LeaseIds(b)
  {
    if a == [] {
      assert a + b == b;
    } else {
      assert (a + b)[1..] == a[1..] + b;
      LeasesJoined(a[1..], b);
    }
  }

  lemma Single(b: Buffer)
    ensures Bytes([b]) == b.capacity && Ids([b]) == multiset{b.id}
  {
    assert [b][1..] == [];
  }

  lemma SingleLease(l: Lease)
    ensures LeaseIds([l]) == multiset{l.buffer.id}
  {
    assert [l][1..] == [];
  }

  lemma Middle(a: seq<Buffer>, x: Buffer, b: seq<Buffer>)
    ensures Bytes(a + ([x] + b)) == Bytes(a) + x.capacity + Bytes(b)
    ensures Ids(a + ([x] + b)) == Ids(a) + multiset{x.id} + Ids(b)
  {
    hide Bytes, Ids;
    Joined(a, [x] + b);
    Joined([x], b);
    Single(x);
  }

  lemma LeaseMiddle(a: seq<Lease>, x: Lease, b: seq<Lease>)
    ensures LeaseIds(a + ([x] + b)) == LeaseIds(a) + multiset{x.buffer.id} + LeaseIds(b)
  {
    hide LeaseIds;
    LeasesJoined(a, [x] + b);
    LeasesJoined([x], b);
    SingleLease(x);
  }

  lemma Commute(a: multiset<nat>, x: multiset<nat>, b: multiset<nat>)
    ensures a + x + b == a + b + x
  {
  }

  lemma Split<T>(s: seq<T>, i: nat)
    requires i < |s|
    ensures s == s[..i] + ([s[i]] + s[i + 1..])
  {
  }

  lemma RemovedLast(s: seq<Buffer>)
    requires s != []
    ensures Bytes(s) == Bytes(s[..|s| - 1]) + s[|s| - 1].capacity
    ensures Ids(s) == Ids(s[..|s| - 1]) + multiset{s[|s| - 1].id}
  {
    hide Bytes, Ids;
    var last := |s| - 1;
    assert s == s[..last] + [s[last]];
    Joined(s[..last], [s[last]]);
    Single(s[last]);
  }

  lemma Removed(s: seq<Buffer>, i: nat)
    requires i < |s|
    ensures Bytes(s) == Bytes(SwapRemove(s, i)) + s[i].capacity
    ensures Ids(s) == Ids(SwapRemove(s, i)) + multiset{s[i].id}
  {
    hide Bytes, Ids;
    var last := |s| - 1;
    RemovedLast(s);
    if i < last {
      var rest, x := s[..last], s[last];
      assert rest[i] == s[i] && SwapRemove(s, i) == rest[i := x];
      Replaced(rest, i, x);
      Commute(Ids(rest), multiset{x.id}, multiset{});
      hide SwapRemove;
    }
  }

  lemma Replaced(s: seq<Buffer>, i: nat, x: Buffer)
    requires i < |s|
    ensures Bytes(s) + x.capacity == Bytes(s[i := x]) + s[i].capacity
    ensures Ids(s) + multiset{x.id} == Ids(s[i := x]) + multiset{s[i].id}
  {
    hide Bytes, Ids;
    var t, a, b := s[i := x], s[..i], s[i + 1..];
    Split(s, i);
    Split(t, i);
    assert t[..i] == a && t[i + 1..] == b;
    Middle(a, s[i], b);
    Middle(a, x, b);
  }

  lemma LeaseRemoved(s: seq<Lease>, i: nat)
    requires i < |s|
    ensures LeaseIds(s) == LeaseIds(Without(s, i)) + multiset{s[i].buffer.id}
  {
    hide LeaseIds;
    Split(s, i);
    LeaseMiddle(s[..i], s[i], s[i + 1..]);
    LeasesJoined(s[..i], s[i + 1..]);
    Commute(LeaseIds(s[..i]), multiset{s[i].buffer.id}, LeaseIds(s[i + 1..]));
  }

  lemma LeaseReplaced(s: seq<Lease>, i: nat, l: Lease)
    requires i < |s| && l.buffer.id == s[i].buffer.id
    ensures LeaseIds(s[i := l]) == LeaseIds(s)
  {
    hide LeaseIds;
    assert s == s[..i] + ([s[i]] + s[i + 1..]) && s[i := l] == s[..i] + ([l] + s[i + 1..]);
    LeaseMiddle(s[..i], s[i], s[i + 1..]);
    LeaseMiddle(s[..i], l, s[i + 1..]);
  }

  // ----- What every run keeps -----

  ghost predicate Accounted(s: State) {
    && s.pool.retainedBytes == Bytes(s.pool.buffers) <= s.pool.maxRetainedBytes
    && |s.pool.buffers| <= s.pool.maxBuffers
    && s.pool.allocations == |s.leases| + |s.pool.buffers| + s.pool.discardedReturns + s.cleared + s.orphaned
    && s.pool.allocations + s.pool.reuses == s.checkouts
  }

  ghost predicate OwnedOnce(s: State) {
    && (forall x {:trigger Owners(s)[x]} :: Owners(s)[x] <= 1)
    && forall x | x in Owners(s) :: x < s.pool.allocations
  }

  ghost predicate Inv(s: State) {
    && Accounted(s) && OwnedOnce(s)
    && forall l | l in s.leases :: l.generation <= s.pool.generation
  }

  lemma CheckOutOwners(s: State, length: nat)
    ensures var t := DoCheckOut(s, length);
            if s.pool.buffers != [] then Owners(t) == Owners(s) && t.pool.allocations == s.pool.allocations
            else Owners(t) == Owners(s) + multiset{s.pool.allocations} && t.pool.allocations == s.pool.allocations + 1
  {
    BestFitIs(s.pool.buffers, length);
    var l := DoCheckOut(s, length).leases[|s.leases|];
    LeasesJoined(s.leases, [l]);
    SingleLease(l);
    if s.pool.buffers != [] {
      Removed(s.pool.buffers, BestFit(s.pool.buffers, length).value);
    }
  }

  lemma CheckOutAccounts(s: State, length: nat)
    requires Accounted(s)
    ensures Accounted(DoCheckOut(s, length))
  {
    BestFitIs(s.pool.buffers, length);
    if s.pool.buffers != [] {
      Removed(s.pool.buffers, BestFit(s.pool.buffers, length).value);
    }
  }

  lemma DropOwners(s: State, i: nat)
    requires i < |s.leases|
    ensures var t := DoDrop(s, i); var l := s.leases[i];
            Owners(t) == if s.alive && Retains(s.pool, l.buffer, l.generation) then Owners(s)
                         else Owners(s) - multiset{l.buffer.id}
  {
    hide Ids, LeaseIds, Without;
    LeaseRemoved(s.leases, i);
    Joined(s.pool.buffers, [s.leases[i].buffer]);
    Single(s.leases[i].buffer);
  }

  lemma DropAccounts(s: State, i: nat)
    requires Accounted(s) && i < |s.leases|
    ensures Accounted(DoDrop(s, i))
  {
    Joined(s.pool.buffers, [s.leases[i].buffer]);
    Single(s.leases[i].buffer);
  }

  /** Storage keeps its single owner, changes it, or is freed; only a fresh allocation adds one. */
  lemma StepOwners(s: State, e: Event)
    ensures var t := Step(s, e);
            || (Owners(t) <= Owners(s) && t.pool.allocations == s.pool.allocations)
            || (Owners(t) == Owners(s) + multiset{s.pool.allocations} && t.pool.allocations == s.pool.allocations + 1)
  {
    hide DoCheckOut, DoDrop, Owners;
    match e
    case CheckOut(length) => CheckOutOwners(s, length);
    case MakeReady(i, grown) =>
      if i < |s.leases| {
        ReadyOwners(s, i, grown);
      }
    case DropLease(i) =>
      if i < |s.leases| {
        DropOwners(s, i);
        DropAllocations(s, i);
      }
    case ClearPool => EmptiedOwners(s, Clear(s.pool));
    case DropPool => EmptiedOwners(s, s.pool.(buffers := [], retainedBytes := 0));
  }

  lemma ReadyOwners(s: State, i: nat, grown: nat)
    requires i < |s.leases|
    ensures Owners(s.(leases := s.leases[i := Ready(s.leases[i], grown)])) == Owners(s)
  {
    LeaseReplaced(s.leases, i, Ready(s.leases[i], grown));
  }

  lemma DropAllocations(s: State, i: nat)
    requires i < |s.leases|
    ensures DoDrop(s, i).pool.allocations == s.pool.allocations
  {
  }

  lemma EmptiedOwners(s: State, p: Pool)
    requires p.buffers == []
    ensures forall t: State | t.pool == p && t.leases == s.leases :: Owners(t) <= Owners(s)
  {
  }

  lemma StepOwnedOnce(s: State, e: Event)
    requires OwnedOnce(s)
    ensures OwnedOnce(Step(s, e))
  {
    hide Step, Owners;
    StepOwners(s, e);
    var t := Step(s, e);
    assert s.pool.allocations !in Owners(s);
  }

  lemma StepAccounts(s: State, e: Event)
    requires Accounted(s)
    ensures Accounted(Step(s, e))
  {
    hide DoCheckOut, DoDrop;
    match e
    case CheckOut(length) => CheckOutAccounts(s, length);
    case DropLease(i) => if i < |s.leases| { DropAccounts(s, i); }
    case _ =>
  }

  lemma StepGenerations(s: State, e: Event)
    requires forall l | l in s.leases :: l.generation <= s.pool.generation
    ensures forall l | l in Step(s, e).leases :: l.generation <= Step(s, e).pool.generation
  {
    var t := Step(s, e);
    forall l | l in t.leases
      ensures l.generation <= t.pool.generation
    {
      match e
      case MakeReady(i, grown) =>
        if i < |s.leases| { assert l in s.leases || l == Ready(s.leases[i], grown); }
      case _ =>
    }
  }

  lemma {:induction false} RunKeeps(s: State, events: seq<Event>)
    requires Inv(s)
    ensures Inv(Run(s, events))
    decreases |events|
  {
    hide Step, Accounted, OwnedOnce;
    if events != [] {
      StepAccounts(s, events[0]);
      StepOwnedOnce(s, events[0]);
      StepGenerations(s, events[0]);
      RunKeeps(Step(s, events[0]), events[1..]);
    }
  }

  lemma InitInv(maxBuffers: nat, maxRetainedBytes: nat)
    ensures Inv(Init(maxBuffers, maxRetainedBytes))
  {
  }

  /** The limits stay as configured. */
  lemma {:induction false} LimitsStay(s: State, events: seq<Event>)
    ensures Run(s, events).pool.maxBuffers == s.pool.maxBuffers
    ensures Run(s, events).pool.maxRetainedBytes == s.pool.maxRetainedBytes
    decreases |events|
  {
    if events != [] {
      LimitsStay(Step(s, events[0]), events[1..]);
    }
  }

  /**
   * In every run the retained bytes are the capacities retained, within both limits, and every allocation is leased,
   * retained, discarded on return, cleared or gone with the pool. Every checkout allocates or reuses.
   */
  lemma StorageIsConserved(maxBuffers: nat, maxRetainedBytes: nat, events: seq<Event>)
    ensures var s := Run(Init(maxBuffers, maxRetainedBytes), events);
            && s.pool.retainedBytes == Bytes(s.pool.buffers) <= maxRetainedBytes && |s.pool.buffers| <= maxBuffers
            && s.pool.allocations == |s.leases| + |s.pool.buffers| + s.pool.discardedReturns + s.cleared + s.orphaned
            && s.pool.allocations + s.pool.reuses == s.checkouts
  {
    InitInv(maxBuffers, maxRetainedBytes);
    RunKeeps(Init(maxBuffers, maxRetainedBytes), events);
    LimitsStay(Init(maxBuffers, maxRetainedBytes), events);
  }

  /** No storage ever has two owners, among all leases and the pool. */
  lemma NoStorageIsShared(maxBuffers: nat, maxRetainedBytes: nat, events: seq<Event>, x: nat)
    ensures Owners(Run(Init(maxBuffers, maxRetainedBytes), events))[x] <= 1
  {
    InitInv(maxBuffers, maxRetainedBytes);
    RunKeeps(Init(maxBuffers, maxRetainedBytes), events);
  }

  /** Storage x can never come back to the pool: it is freed, or leased from before the latest clear. */
  ghost predicate Banned(s: State, x: nat) {
    && x < s.pool.allocations && x !in Ids(s.pool.buffers)
    && forall l | l in s.leases && l.buffer.id == x :: l.generation < s.pool.generation
  }

  lemma {:induction false} IdIn(s: seq<Buffer>, i: nat)
    requires i < |s|
    ensures s[i].id in Ids(s)
  {
    if i > 0 {
      IdIn(s[1..], i - 1);
    }
  }

  lemma StepKeepsBanned(s: State, e: Event, x: nat)
    requires Banned(s, x)
    ensures Banned(Step(s, e), x)
  {
    var t := Step(s, e);
    match e
    case CheckOut(length) =>
      if s.alive {
        CheckOutKeepsBanned(s, length, x);
      }
    case MakeReady(i, grown) =>
      if i < |s.leases| {
        assert forall l | l in t.leases :: l in s.leases || (l == Ready(s.leases[i], grown) && s.leases[i] in s.leases);
      }
    case DropLease(i) =>
      if i < |s.leases| && s.leases[i].ready {
        DropKeepsBanned(s, i, x);
      }
    case _ =>
  }

  lemma CheckOutKeepsBanned(s: State, length: nat, x: nat)
    requires Banned(s, x)
    ensures Banned(DoCheckOut(s, length), x)
  {
    BestFitIs(s.pool.buffers, length);
    if s.pool.buffers != [] {
      var i := BestFit(s.pool.buffers, length).value;
      Removed(s.pool.buffers, i);
      IdIn(s.pool.buffers, i);
    }
  }

  lemma DropKeepsBanned(s: State, i: nat, x: nat)
    requires Banned(s, x) && i < |s.leases|
    ensures Banned(DoDrop(s, i), x)
  {
    hide Ids;
    var l := s.leases[i];
    assert l in s.leases;
    if l.buffer.id == x {
      assert !Retains(s.pool, l.buffer, l.generation);
    }
    Joined(s.pool.buffers, [l.buffer]);
    Single(l.buffer);
    RemainingLeases(s.leases, i);
    hide Without;
  }

  lemma RemainingLeases(s: seq<Lease>, i: nat)
    requires i < |s|
    ensures forall k | k in Without(s, i) :: k in s
  {
  }

  lemma {:induction false} RunKeepsBanned(s: State, events: seq<Event>, x: nat)
    requires Banned(s, x)
    ensures Banned(Run(s, events), x)
    decreases |events|
  {
    hide Step, Banned;
    if events != [] {
      StepKeepsBanned(s, events[0], x);
      RunKeepsBanned(Step(s, events[0]), events[1..], x);
    }
  }

  /** No storage that existed at a clear, retained or leased, is ever in the pool again. */
  lemma ClearIsFinal(maxBuffers: nat, maxRetainedBytes: nat, before: seq<Event>, after: seq<Event>, i: nat)
    requires Run(Init(maxBuffers, maxRetainedBytes), before).alive
    requires var s := Run(Step(Run(Init(maxBuffers, maxRetainedBytes), before), ClearPool), after); i < |s.pool.buffers|
    ensures var s := Run(Init(maxBuffers, maxRetainedBytes), before);
            Run(Step(s, ClearPool), after).pool.buffers[i].id >= s.pool.allocations
  {
    var s := Run(Init(maxBuffers, maxRetainedBytes), before);
    InitInv(maxBuffers, maxRetainedBytes);
    RunKeeps(Init(maxBuffers, maxRetainedBytes), before);
    var t := Run(Step(s, ClearPool), after);
    var x := t.pool.buffers[i].id;
    IdIn(t.pool.buffers, i);
    if x < s.pool.allocations {
      assert Banned(Step(s, ClearPool), x);
      RunKeepsBanned(Step(s, ClearPool), after, x);
    }
  }

  /** The storage a checkout takes, if there is any: the first smallest that is long enough, else the last largest. */
  ghost predicate BestOf(s: seq<Buffer>, length: nat, i: nat)
    requires i < |s|
  {
    if exists j :: 0 <= j < |s| && s[j].capacity >= length then
      && s[i].capacity >= length
      && (forall j | 0 <= j < |s| && s[j].capacity >= length :: s[i].capacity <= s[j].capacity)
      && forall j | 0 <= j < i && s[j].capacity >= length :: s[i].capacity < s[j].capacity
    else
      && (forall j | 0 <= j < |s| :: s[j].capacity <= s[i].capacity)
      && forall j | i < j < |s| :: s[j].capacity < s[i].capacity
  }

  /** r is s without its i-th buffer, in the place of which the last one now stands. */
  ghost predicate LastMoved(s: seq<Buffer>, i: nat, r: seq<Buffer>)
    requires i < |s|
  {
    && |r| == |s| - 1
    && (forall j | 0 <= j < |r| && j != i :: r[j] == s[j])
    && (i < |r| ==> r[i] == s[|s| - 1])
  }

  lemma SwapRemoved(s: seq<Buffer>, i: nat)
    requires i < |s|
    ensures LastMoved(s, i, SwapRemove(s, i))
  {
  }

  /**
   * Over every run a checkout leases the best of the retained storage, which leaves the pool with its bytes and counts
   * as a reuse, the last buffer taking its place; only with nothing retained it allocates. The lease remembers its
   * length and the pool's generation.
   */
  lemma CheckoutsTakeTheBest(maxBuffers: nat, maxRetainedBytes: nat, events: seq<Event>, length: nat)
    requires Run(Init(maxBuffers, maxRetainedBytes), events).alive
    ensures var s := Run(Init(maxBuffers, maxRetainedBytes), events);
            var t := Step(s, CheckOut(length));
            var kept := s.pool.buffers;
            && |t.leases| == |s.leases| + 1 && t.leases[..|s.leases|] == s.leases
            && t.pool.generation == s.pool.generation && t.pool.discardedReturns == s.pool.discardedReturns
            && var l := t.leases[|s.leases|];
               && l.length == length && l.generation == s.pool.generation && !l.ready
               && if kept == [] then
                    && t.pool.buffers == [] && t.pool.retainedBytes == 0
                    && t.pool.allocations == s.pool.allocations + 1 && t.pool.reuses == s.pool.reuses
                    && l.buffer.id == s.pool.allocations
                  else
                    && (exists i :: 0 <= i < |kept| && BestOf(kept, length, i) && l.buffer == kept[i]
                                    && LastMoved(kept, i, t.pool.buffers))
                    && t.pool.retainedBytes == s.pool.retainedBytes - l.buffer.capacity
                    && t.pool.allocations == s.pool.allocations && t.pool.reuses == s.pool.reuses + 1
  {
    InitInv(maxBuffers, maxRetainedBytes);
    RunKeeps(Init(maxBuffers, maxRetainedBytes), events);
    var s := Run(Init(maxBuffers, maxRetainedBytes), events);
    BestFitIs(s.pool.buffers, length);
    if s.pool.buffers != [] {
      var i := BestFit(s.pool.buffers, length).value;
      BestFitIsBest(s.pool.buffers, length);
      SwapRemoved(s.pool.buffers, i);
      Removed(s.pool.buffers, i);
    }
  }

  lemma BestFitIsBest(s: seq<Buffer>, length: nat)
    requires s != []
    ensures BestFit(s, length).Some? && BestOf(s, length, BestFit(s, length).value)
  {
    SmallestFitIs(s, length, |s|);
    LargestIs(s, |s|);
  }

  /**
   * Over every run storage given back is retained exactly when no clear came between, fewer than the most buffers are
   * retained, and its capacity still fits the bytes; otherwise it is discarded and counted.
   */
  lemma ReturnsAreRetainedExactly(maxBuffers: nat, maxRetainedBytes: nat, events: seq<Event>, i: nat)
    requires var s := Run(Init(maxBuffers, maxRetainedBytes), events);
             s.alive && i < |s.leases| && s.leases[i].ready
    ensures var s := Run(Init(maxBuffers, maxRetainedBytes), events);
            var t := Step(s, DropLease(i));
            var l := s.leases[i];
            && t.leases == s.leases[..i] + s.leases[i + 1..] && t.pool.allocations == s.pool.allocations
            && t.pool.reuses == s.pool.reuses && t.pool.generation == s.pool.generation
            && if l.generation == s.pool.generation && |s.pool.buffers| < maxBuffers
                  && Bytes(s.pool.buffers) + l.buffer.capacity <= maxRetainedBytes then
                 t.pool.buffers == s.pool.buffers + [l.buffer] && t.pool.discardedReturns == s.pool.discardedReturns
               else
                 t.pool.buffers == s.pool.buffers && t.pool.discardedReturns == s.pool.discardedReturns + 1
  {
    InitInv(maxBuffers, maxRetainedBytes);
    RunKeeps(Init(maxBuffers, maxRetainedBytes), events);
    LimitsStay(Init(maxBuffers, maxRetainedBytes), events);
  }

  /** Whatever happened, a lease that is ready holds storage for its length. */
  lemma {:induction false} ReadyLeasesFit(s: State, events: seq<Event>)
    requires forall l | l in s.leases && l.ready :: l.buffer.capacity >= l.length
    ensures forall l | l in Run(s, events).leases && l.ready :: l.buffer.capacity >= l.length
    decreases |events|
  {
    hide Take, Return;
    if events != [] {
      var e, t := events[0], Step(s, events[0]);
      forall l | l in t.leases && l.ready
        ensures l.buffer.capacity >= l.length
      {
        if e.DropLease? && e.i < |s.leases| {
          RemainingLeases(s.leases, e.i);
        } else if e.MakeReady? && e.i < |s.leases| {
          assert l in s.leases || l == Ready(s.leases[e.i], e.grown);
        }
      }
      ReadyLeasesFit(t, events[1..]);
    }
  }

  /** Over every run a clear empties the pool and puts every lease behind its generation. */
  lemma ClearsInvalidate(maxBuffers: nat, maxRetainedBytes: nat, events: seq<Event>)
    requires Run(Init(maxBuffers, maxRetainedBytes), events).alive
    ensures var s := Run(Init(maxBuffers, maxRetainedBytes), events);
            var t := Step(s, ClearPool);
            && t.pool.buffers == [] && t.pool.retainedBytes == 0 && t.leases == s.leases
            && t.pool.discardedReturns == s.pool.discardedReturns
            && forall l | l in t.leases :: l.generation < t.pool.generation
  {
    InitInv(maxBuffers, maxRetainedBytes);
    RunKeeps(Init(maxBuffers, maxRetainedBytes), events);
  }

  /** Storage is not wasted: what a current lease gives back, with room for it, the next checkout of an empty pool gets. */
  lemma ReturnedStorageIsReused(s: State, i: nat, length: nat)
    requires s.alive && i < |s.leases| && s.leases[i].ready && s.leases[i].generation == s.pool.generation
    requires s.pool.buffers == [] && s.pool.retainedBytes == 0
    requires s.pool.maxBuffers > 0 && s.leases[i].buffer.capacity <= s.pool.maxRetainedBytes
    ensures var t := Step(Step(s, DropLease(i)), CheckOut(length));
            && |t.leases| == |s.leases| && t.leases[|t.leases| - 1].buffer == s.leases[i].buffer
            && t.pool.allocations == s.pool.allocations && t.pool.discardedReturns == s.pool.discardedReturns
            && t.pool.retainedBytes == 0
  {
    var b := s.leases[i].buffer;
    var p := Step(s, DropLease(i)).pool;
    assert p.buffers == [b];
    BestFitIs([b], length);
    assert SwapRemove([b], 0) == [];
  }
}
