/**
 The whole protocol around the pool: any number of fetches at once, each running the retry
 loop of `body` (the same in `bodySlice` and `stream`) of
 src/services/mountedStream.service.ts, interleaved at every await. What a server
 answers, when a signal aborts and how many connections are allowed at any moment
 is left open.
 */
module NntpPoolProtocol {
  import opened Bytes
  import opened Options
  import opened NntpPool

  datatype Phase =
    | Requesting
    | Queued
    | Holding(slot: nat)
    | Delivered
    | AllFailed
    | Aborted

  /** One call of `body`: its loop variables and where it stands. */
  datatype Fetch = Fetch(attempt: nat, failed: set<string>, includeBackups: bool, phase: Phase)

  /** How an attempt ends. A connection may survive a success. */
  datatype Outcome = Success(connected: bool) | TemporaryFailure | PermanentFailure

  datatype System = System(primaries: set<string>, pool: Pool, fetches: map<nat, Fetch>)

  datatype Step =
    | Start(fetch: nat)
    | AbortRequest(fetch: nat)
    | Ask(fetch: nat, allowed: int, aborted: bool)
    | Signal(fetch: nat)
    | Finish(fetch: nat, outcome: Outcome)
    | Connect(slot: nat)

  function SlotIds(slots: seq<Slot>): set<string> {
    set i | 0 <= i < |slots| :: slots[i].provider.id
  }

  function MaxAttempts(slots: seq<Slot>): nat {
    Max(|SlotIds(slots)| * 4, |slots| * 4)
  }

  function InPhase(s: System, t: nat, phase: Phase): System
    requires t in s.fetches
  {
    s.(fetches := s.fetches[t := s.fetches[t].(phase := phase)])
  }

  /** The head of the retry loop: go on or give up. */
  function LoopHead(fetch: Fetch, slots: seq<Slot>): Fetch {
    if fetch.attempt > MaxAttempts(slots) || |fetch.failed| >= |SlotIds(slots)|
    then fetch.(phase := AllFailed)
    else fetch.(phase := Requesting)
  }

  function RequestOf(t: nat, fetch: Fetch): Waiter {
    Waiter(t, fetch.failed, fetch.includeBackups, 0)
  }

  /** The loop variables after an attempt on a slot of `provider`. */
  function AfterAttempt(fetch: Fetch, provider: Provider, outcome: Outcome, primaries: set<string>, slots: seq<Slot>): Fetch {
    match outcome
    case Success(_) => fetch.(phase := Delivered)
    case TemporaryFailure => LoopHead(fetch.(attempt := fetch.attempt + 1), slots)
    case PermanentFailure =>
      var failed := fetch.failed + {provider.id};
      LoopHead(fetch.(attempt := fetch.attempt + 1, failed := failed,
                     includeBackups := fetch.includeBackups || primaries <= failed), slots)
  }

  predicate Enabled(s: System, step: Step) {
    match step
    case Start(t) => t !in s.fetches
    case AbortRequest(t) => t in s.fetches && s.fetches[t].phase == Requesting
    case Ask(t, _, _) => t in s.fetches && s.fetches[t].phase == Requesting
    case Signal(t) => t in s.fetches
    case Finish(t, _) => t in s.fetches && s.fetches[t].phase.Holding? && s.fetches[t].phase.slot < |s.pool.slots|
    case Connect(i) => i < |s.pool.slots|
  }

  function Apply(s: System, step: Step): System
    requires Enabled(s, step)
  {
    match step
    case Start(t) =>
      s.(fetches := s.fetches[t := LoopHead(Fetch(1, {}, s.primaries == {}, Requesting), s.pool.slots)])
    case AbortRequest(t) =>
      InPhase(s, t, Aborted)
    case Ask(t, allowed, aborted) =>
      var (pool, found) := Acquire(s.pool, RequestOf(t, s.fetches[t]), allowed);
      if found.Some? then InPhase(s.(pool := pool), t, Holding(found.value))
      // A signal that fired during the await takes the new waiter out again.
      else if aborted then InPhase(s, t, Aborted)
      else InPhase(s.(pool := pool), t, Queued)
    case Signal(t) =>
      // The listener always searches the queue; its rejection only reaches a promise still unresolved.
      var after := s.(pool := Abort(s.pool, t));
      if s.fetches[t].phase == Queued then InPhase(after, t, Aborted) else after
    case Finish(t, outcome) =>
      var i := s.fetches[t].phase.slot;
      var slot := s.pool.slots[i];
      var done := slot.(connected := slot.connected && outcome.Success? && outcome.connected);
      var (pool, resolved) := Release(s.pool.(slots := s.pool.slots[i := done]), i);
      var fetches := s.fetches[t := AfterAttempt(s.fetches[t], slot.provider, outcome, s.primaries, s.pool.slots)];
      s.(pool := pool,
         fetches := if resolved.Some? && resolved.value.fetch in fetches
                  then fetches[resolved.value.fetch := fetches[resolved.value.fetch].(phase := Holding(i))]
                  else fetches)
    case Connect(i) =>
      s.(pool := s.pool.(slots := s.pool.slots[i := s.pool.slots[i].(connected := true)]))
  }

  /** A run of the system. */
  ghost predicate Runs(s: System, steps: seq<Step>, s': System)
    decreases |steps|
  {
    if steps == [] then s == s'
    else Enabled(s, steps[0]) && Runs(Apply(s, steps[0]), steps[1..], s')
  }

  /** A fresh pool over these providers; no fetch yet. */
  function Initial(providers: seq<Provider>, maxConnections: int): System {
    System(PrimaryIds(providers), Pool(InitialSlots(providers, maxConnections), []), map[])
  }

  function PrimaryIds(providers: seq<Provider>): set<string> {
    set p | p in providers && !p.isBackup :: p.id
  }

  // ---------------------------------------------------------------------------
  // The invariant

  ghost predicate Holds(s: System, t: nat, i: nat) {
    t in s.fetches && s.fetches[t].phase == Holding(i)
  }

  ghost predicate Waits(s: System, t: nat) {
    t in s.fetches && s.fetches[t].phase == Queued
  }

  /** A slot is busy exactly when a fetch holds it, and then only one does. */
  ghost predicate SlotsHeld(s: System) {
    && (forall t, i: nat | Holds(s, t, i) :: i < |s.pool.slots| && s.pool.slots[i].busy)
    && (forall i | 0 <= i < |s.pool.slots| && s.pool.slots[i].busy :: exists t :: Holds(s, t, i))
    && (forall t, u, i: nat | Holds(s, t, i) && Holds(s, u, i) :: t == u)
  }

  /** A fetch holds only slots its exclusions allow. */
  ghost predicate HoldsAllowed(s: System) {
    forall t, i: nat | Holds(s, t, i) && i < |s.pool.slots| ::
      Accepts(s.pool.slots[i].provider, s.fetches[t].failed, s.fetches[t].includeBackups)
  }

  /** The queue is exactly the queued fetches, once each, with their requests. */
  ghost predicate QueueMatches(s: System) {
    && (forall k | 0 <= k < |s.pool.waiters| ::
          var w := s.pool.waiters[k];
          Waits(s, w.fetch) && w.excluded == s.fetches[w.fetch].failed && w.includeBackups == s.fetches[w.fetch].includeBackups)
    && (forall j, k | 0 <= j < k < |s.pool.waiters| :: s.pool.waiters[j].fetch != s.pool.waiters[k].fetch)
    && (forall t | Waits(s, t) :: WaitingAt(s.pool.waiters, t).Some?)
  }

  /** What the loop variables of a fetch mean. */
  ghost predicate FetchOk(fetch: Fetch, primaries: set<string>, slots: seq<Slot>) {
    && fetch.failed <= SlotIds(slots)
    && (fetch.includeBackups <==> primaries <= fetch.failed)
    && 1 <= fetch.attempt <= MaxAttempts(slots) + 1
    && (fetch.phase.Requesting? || fetch.phase.Queued? || fetch.phase.Holding? ==>
          fetch.attempt <= MaxAttempts(slots) && |fetch.failed| < |SlotIds(slots)|)
    && (fetch.phase.AllFailed? <==> fetch.attempt == MaxAttempts(slots) + 1 || fetch.failed == SlotIds(slots))
  }

  ghost predicate FetchesOk(s: System) {
    forall t | t in s.fetches :: FetchOk(s.fetches[t], s.primaries, s.pool.slots)
  }

  /** Of the slots a waiter looked at, those it accepts are all busy. */
  ghost predicate NothingMissed(s: System) {
    forall k, i | 0 <= k < |s.pool.waiters| && 0 <= i < |s.pool.slots| && i < s.pool.waiters[k].scanned ::
      Suits(s.pool.slots[i], s.pool.waiters[k]) ==> s.pool.slots[i].busy
  }

  ghost predicate Inv(s: System) {
    SlotsHeld(s) && HoldsAllowed(s) && QueueMatches(s) && FetchesOk(s) && NothingMissed(s)
  }

  lemma InitialInv(providers: seq<Provider>, maxConnections: int)
    ensures Inv(Initial(providers, maxConnections))
  {
  }

  /** Only the busy and connected flags of slots ever change. */
  ghost predicate SameProviders(a: seq<Slot>, b: seq<Slot>) {
    |a| == |b| && forall i | 0 <= i < |a| :: a[i].provider == b[i].provider
  }

  lemma SameProvidersSameIds(a: seq<Slot>, b: seq<Slot>)
    requires SameProviders(a, b)
    ensures SlotIds(a) == SlotIds(b) && MaxAttempts(a) == MaxAttempts(b)
  {
    assert forall i | 0 <= i < |a| :: a[i].provider.id == b[i].provider.id;
    assert SlotIds(a) == SlotIds(b);
  }

  // ---------------------------------------------------------------------------
  // Every step keeps the invariant

  /** Steps that leave the slots and their holders alone. */
  lemma SameHoldings(s: System, s': System)
    requires SlotsHeld(s) && HoldsAllowed(s) && s'.pool.slots == s.pool.slots
    requires forall u, i: nat :: Holds(s', u, i) <==> Holds(s, u, i)
    requires forall u, i: nat | Holds(s', u, i) :: s'.fetches[u] == s.fetches[u]
    ensures SlotsHeld(s') && HoldsAllowed(s')
  {
    forall i | 0 <= i < |s'.pool.slots| && s'.pool.slots[i].busy
      ensures exists t :: Holds(s', t, i)
    {
      var t :| Holds(s, t, i);
      assert Holds(s', t, i);
    }
  }

  /** Steps that leave the queue and the waiting fetches alone. */
  lemma SameQueue(s: System, s': System)
    requires QueueMatches(s) && s'.pool.waiters == s.pool.waiters
    requires forall u :: Waits(s', u) <==> Waits(s, u)
    requires forall u | Waits(s', u) && Waits(s, u) :: s'.fetches[u] == s.fetches[u]
    ensures QueueMatches(s')
  {
  }

  /** Steps that change or add one fetch. */
  lemma OneFetchChanges(s: System, s': System, t: nat, fetch: Fetch)
    requires FetchesOk(s) && s'.fetches == s.fetches[t := fetch] && FetchOk(fetch, s.primaries, s.pool.slots)
    requires SameProviders(s.pool.slots, s'.pool.slots) && s'.primaries == s.primaries
    ensures FetchesOk(s')
  {
    SameProvidersSameIds(s.pool.slots, s'.pool.slots);
  }

  /** Fetch `t` takes the free slot `i`. */
  lemma TakesSlot(s: System, s': System, t: nat, i: nat)
    requires SlotsHeld(s) && HoldsAllowed(s) && t in s.fetches && !s.fetches[t].phase.Holding?
    requires i < |s.pool.slots| && !s.pool.slots[i].busy
    requires Accepts(s.pool.slots[i].provider, s.fetches[t].failed, s.fetches[t].includeBackups)
    requires s'.pool.slots == s.pool.slots[i := s.pool.slots[i].(busy := true)]
    requires s'.fetches == s.fetches[t := s.fetches[t].(phase := Holding(i))]
    ensures SlotsHeld(s') && HoldsAllowed(s')
  {
    assert forall u, j: nat :: Holds(s', u, j) <==> Holds(s, u, j) || (u == t && j == i);
    forall j | 0 <= j < |s'.pool.slots| && s'.pool.slots[j].busy
      ensures exists u :: Holds(s', u, j)
    {
      assert Holds(s', t, i);
      if j != i {
        var u :| Holds(s, u, j);
        assert Holds(s', u, j);
      }
    }
  }

  /** Fetch `t` gives up slot `i`, which turns free. */
  lemma FreesSlot(s: System, s': System, t: nat, i: nat, after: Fetch, slot: Slot)
    requires SlotsHeld(s) && HoldsAllowed(s) && Holds(s, t, i) && i < |s.pool.slots|
    requires !slot.busy && slot.provider == s.pool.slots[i].provider && !after.phase.Holding?
    requires s'.pool.slots == s.pool.slots[i := slot] && s'.fetches == s.fetches[t := after]
    ensures SlotsHeld(s') && HoldsAllowed(s')
  {
    assert forall u, j: nat :: Holds(s', u, j) <==> Holds(s, u, j) && u != t;
    forall j | 0 <= j < |s'.pool.slots| && s'.pool.slots[j].busy
      ensures exists u :: Holds(s', u, j)
    {
      var u :| Holds(s, u, j);
      assert Holds(s', u, j);
    }
  }

  lemma StartKeepsInv(s: System, t: nat)
    requires Inv(s) && t !in s.fetches
    ensures Inv(Apply(s, Start(t)))
  {
    hide SlotsHeld, HoldsAllowed, QueueMatches, FetchesOk;
    var s' := Apply(s, Start(t));
    assert forall u, i: nat :: Holds(s', u, i) <==> Holds(s, u, i);
    SameHoldings(s, s');
    SameQueue(s, s');
    OneFetchChanges(s, s', t, s'.fetches[t]);
  }

  /** A fetch that neither holds nor waits may end. */
  lemma EndKeepsInv(s: System, t: nat)
    requires Inv(s) && t in s.fetches && s.fetches[t].phase == Requesting
    ensures Inv(InPhase(s, t, Aborted))
  {
    hide SlotsHeld, HoldsAllowed, QueueMatches;
    var s' := InPhase(s, t, Aborted);
    assert forall u, i: nat :: Holds(s', u, i) <==> Holds(s, u, i);
    SameHoldings(s, s');
    SameQueue(s, s');
  }

  lemma AcquireKeepsInv(s: System, t: nat, allowed: int)
    requires Inv(s) && t in s.fetches && s.fetches[t].phase == Requesting
    requires Acquire(s.pool, RequestOf(t, s.fetches[t]), allowed).1.Some?
    ensures Inv(Apply(s, Ask(t, allowed, false)))
  {
    hide SlotsHeld, HoldsAllowed, QueueMatches, FetchesOk;
    var i := FirstFree(s.pool.slots, ActiveLimit(allowed, |s.pool.slots|), RequestOf(t, s.fetches[t])).value;
    var s' := Apply(s, Ask(t, allowed, false));
    TakesSlot(s, s', t, i);
    SameQueue(s, s');
    RequestingFetchOk(s, t);
    OneFetchChanges(s, s', t, s.fetches[t].(phase := Holding(i)));
  }

  lemma RequestingFetchOk(s: System, t: nat)
    requires FetchesOk(s) && t in s.fetches && s.fetches[t].phase == Requesting
    ensures forall i :: FetchOk(s.fetches[t].(phase := Holding(i)), s.primaries, s.pool.slots)
    ensures FetchOk(s.fetches[t].(phase := Queued), s.primaries, s.pool.slots)
  {
  }

  lemma QueueKeepsInv(s: System, t: nat, allowed: int)
    requires Inv(s) && t in s.fetches && s.fetches[t].phase == Requesting
    requires Acquire(s.pool, RequestOf(t, s.fetches[t]), allowed).1.None?
    ensures Inv(Apply(s, Ask(t, allowed, false)))
  {
    hide SlotsHeld, HoldsAllowed, QueueMatches, FetchesOk;
    var s' := Apply(s, Ask(t, allowed, false));
    assert forall u, j: nat :: Holds(s', u, j) <==> Holds(s, u, j);
    SameHoldings(s, s');
    JoinsQueue(s, s', t, s'.pool.waiters[|s.pool.waiters|]);
    RequestingFetchOk(s, t);
    OneFetchChanges(s, s', t, s.fetches[t].(phase := Queued));
  }

  lemma JoinsQueue(s: System, s': System, t: nat, w: Waiter)
    requires QueueMatches(s) && t in s.fetches && s.fetches[t].phase == Requesting
    requires w.fetch == t && w.excluded == s.fetches[t].failed && w.includeBackups == s.fetches[t].includeBackups
    requires s'.pool.waiters == s.pool.waiters + [w] && s'.fetches == s.fetches[t := s.fetches[t].(phase := Queued)]
    ensures QueueMatches(s')
  {
    assert forall u :: Waits(s', u) <==> Waits(s, u) || u == t;
    assert s'.pool.waiters[|s.pool.waiters|].fetch == t;
    forall u | Waits(s', u)
      ensures WaitingAt(s'.pool.waiters, u).Some?
    {
      if u != t {
        var k := WaitingAt(s.pool.waiters, u).value;
        assert s'.pool.waiters[k].fetch == u;
      }
    }
  }

  /** Taking waiter `k`, of fetch `gone`, out of the queue. */
  lemma LeavesQueue(s: System, s': System, gone: nat, k: nat)
    requires QueueMatches(s) && NothingMissed(s)
    requires SameProviders(s.pool.slots, s'.pool.slots)
    requires forall i | 0 <= i < |s.pool.slots| :: s.pool.slots[i].busy == s'.pool.slots[i].busy
    requires k < |s.pool.waiters| && s.pool.waiters[k].fetch == gone && s'.pool.waiters == Without(s.pool.waiters, k)
    requires forall u :: Waits(s', u) <==> Waits(s, u) && u != gone
    requires forall u | Waits(s', u) && Waits(s, u) :: s'.fetches[u] == s.fetches[u]
    ensures QueueMatches(s') && NothingMissed(s')
  {
    StillWaiting(s, s', gone, k);
    StillNothingMissed(s, s', k);
    forall j | 0 <= j < |s'.pool.waiters|
      ensures var w := s'.pool.waiters[j];
        Waits(s', w.fetch) && w.excluded == s'.fetches[w.fetch].failed && w.includeBackups == s'.fetches[w.fetch].includeBackups
    {
      assert Waits(s, s.pool.waiters[if j < k then j else j + 1].fetch);
    }
  }

  lemma StillNothingMissed(s: System, s': System, k: nat)
    requires NothingMissed(s) && SameProviders(s.pool.slots, s'.pool.slots)
    requires forall i | 0 <= i < |s.pool.slots| :: s.pool.slots[i].busy == s'.pool.slots[i].busy
    requires k < |s.pool.waiters| && s'.pool.waiters == Without(s.pool.waiters, k)
    ensures NothingMissed(s')
  {
    forall j | 0 <= j < |s'.pool.waiters|
      ensures s'.pool.waiters[j] == s.pool.waiters[if j < k then j else j + 1]
    {
    }
  }

  lemma StillWaiting(s: System, s': System, gone: nat, k: nat)
    requires QueueMatches(s) && k < |s.pool.waiters| && s.pool.waiters[k].fetch == gone
    requires s'.pool.waiters == Without(s.pool.waiters, k)
    requires forall u | Waits(s', u) :: Waits(s, u) && u != gone
    ensures forall u | Waits(s', u) :: WaitingAt(s'.pool.waiters, u).Some?
  {
    forall u | Waits(s', u)
      ensures WaitingAt(s'.pool.waiters, u).Some?
    {
      var j := WaitingAt(s.pool.waiters, u).value;
      assert s'.pool.waiters[if j < k then j else j - 1].fetch == u;
    }
  }

  lemma SignalKeepsInv(s: System, t: nat)
    requires Inv(s) && t in s.fetches
    ensures Inv(Apply(s, Signal(t)))
  {
    hide SlotsHeld, HoldsAllowed, NothingMissed;
    if s.fetches[t].phase == Queued {
      assert Waits(s, t);
      var s' := Apply(s, Signal(t));
      var k := WaitingAt(s.pool.waiters, t).value;
      assert s'.pool.waiters == Without(s.pool.waiters, k);
      assert forall u, j: nat :: Holds(s', u, j) <==> Holds(s, u, j);
      assert forall u :: Waits(s', u) <==> Waits(s, u) && u != t;
      SameHoldings(s, s');
      LeavesQueue(s, s', t, k);
    } else {
      NotInQueue(s, t);
    }
  }

  /** A fetch that does not wait has no waiter, so searching for it removes none. */
  lemma NotInQueue(s: System, t: nat)
    requires QueueMatches(s) && !Waits(s, t)
    ensures WaitingAt(s.pool.waiters, t).None? && Abort(s.pool, t) == s.pool
  {
    assert forall k | 0 <= k < |s.pool.waiters| :: Waits(s, s.pool.waiters[k].fetch);
  }

  lemma HolderNotInQueue(s: System, t: nat, i: nat)
    requires Inv(s) && Holds(s, t, i)
    ensures Abort(s.pool, t) == s.pool && Enabled(s, Signal(t)) && Apply(s, Signal(t)) == s
  {
    hide SlotsHeld, HoldsAllowed, FetchesOk, NothingMissed, QueueMatches, Abort;
    NotInQueue(s, t);
  }

  lemma ConnectKeepsInv(s: System, i: nat)
    requires Inv(s) && i < |s.pool.slots|
    ensures Inv(Apply(s, Connect(i)))
  {
    hide QueueMatches;
    var s' := Apply(s, Connect(i));
    assert forall u, j: nat :: Holds(s', u, j) <==> Holds(s, u, j);
    SameQueue(s, s');
    SameProvidersSameIds(s.pool.slots, s'.pool.slots);
  }

  lemma AttemptKeepsFetchOk(fetch: Fetch, provider: Provider, outcome: Outcome, primaries: set<string>, slots: seq<Slot>)
    requires FetchOk(fetch, primaries, slots) && fetch.phase.Holding? && provider.id in SlotIds(slots)
    ensures FetchOk(AfterAttempt(fetch, provider, outcome, primaries, slots), primaries, slots)
    ensures var phase := AfterAttempt(fetch, provider, outcome, primaries, slots).phase;
      phase.Delivered? || phase.AllFailed? || phase.Requesting?
  {
    var after := AfterAttempt(fetch, provider, outcome, primaries, slots);
    SubsetSize(after.failed, SlotIds(slots));
  }

  /** What a hand-off does, seen from the fetches: `t` lets go of slot `i`, `next` gets it. */
  ghost predicate HandsOff(s: System, s': System, t: nat, next: nat, i: nat, k: nat) {
    && i < |s.pool.slots| && SameProviders(s.pool.slots, s'.pool.slots)
    && (forall j | 0 <= j < |s.pool.slots| :: s.pool.slots[j].busy == s'.pool.slots[j].busy)
    && (forall u, j: nat :: Holds(s', u, j) <==> (Holds(s, u, j) && u != t) || (u == next && j == i))
    && (forall u :: Waits(s', u) <==> Waits(s, u) && u != next)
    && k < |s.pool.waiters| && s.pool.waiters[k].fetch == next && s'.pool.waiters == Without(s.pool.waiters, k)
    && (forall u | Waits(s', u) && Waits(s, u) :: s'.fetches[u] == s.fetches[u])
  }

  /** The new state of a hand-off, component by component. */
  lemma HandOffShape(s: System, t: nat, outcome: Outcome, next: nat, i: nat, k: nat)
    requires Enabled(s, Finish(t, outcome)) && i == s.fetches[t].phase.slot
    requires FirstWaiter(s.pool.waiters, s.pool.slots[i].provider) == Some(k)
    requires next == s.pool.waiters[k].fetch && next in s.fetches && next != t
    ensures var s' := Apply(s, Finish(t, outcome));
      && s'.primaries == s.primaries
      && s'.pool.waiters == Without(s.pool.waiters, k)
      && (exists connected :: s'.pool.slots == s.pool.slots[i := Slot(s.pool.slots[i].provider, true, connected)])
      && s'.fetches == s.fetches[t := AfterAttempt(s.fetches[t], s.pool.slots[i].provider, outcome, s.primaries, s.pool.slots)]
                            [next := s.fetches[next].(phase := Holding(i))]
  {
    hide AfterAttempt;
    var slot := s.pool.slots[i];
    var done := slot.(connected := slot.connected && outcome.Success? && outcome.connected);
    assert Apply(s, Finish(t, outcome)).pool.slots == s.pool.slots[i := Slot(slot.provider, true, done.connected)];
  }

  lemma ShapeHandsOff(s: System, s': System, t: nat, after: Fetch, next: nat, i: nat, k: nat, slot: Slot)
    requires Holds(s, t, i) && Waits(s, next)
    requires i < |s.pool.slots| && s.pool.slots[i].busy && slot.busy && slot.provider == s.pool.slots[i].provider
    requires k < |s.pool.waiters| && s.pool.waiters[k].fetch == next
    requires s'.pool.slots == s.pool.slots[i := slot] && s'.pool.waiters == Without(s.pool.waiters, k)
    requires s'.fetches == s.fetches[t := after][next := s.fetches[next].(phase := Holding(i))]
    requires after.phase.Delivered? || after.phase.AllFailed? || after.phase.Requesting?
    ensures HandsOff(s, s', t, next, i, k)
  {
  }

  lemma HandOffStep(s: System, t: nat, outcome: Outcome) returns (next: nat, i: nat, k: nat)
    requires Inv(s) && Enabled(s, Finish(t, outcome))
    requires FirstWaiter(s.pool.waiters, s.pool.slots[s.fetches[t].phase.slot].provider).Some?
    ensures var s' := Apply(s, Finish(t, outcome));
      && HandsOff(s, s', t, next, i, k) && Holds(s, t, i) && Waits(s, next)
      && FirstWaiter(s.pool.waiters, s.pool.slots[i].provider) == Some(k)
      && s'.fetches == s.fetches[t := AfterAttempt(s.fetches[t], s.pool.slots[i].provider, outcome, s.primaries, s.pool.slots)]
                            [next := s.fetches[next].(phase := Holding(i))]
      && Accepts(s.pool.slots[i].provider, s.fetches[next].failed, s.fetches[next].includeBackups)
      && s'.primaries == s.primaries
  {
    hide Apply, AfterAttempt, HandsOff, HoldsAllowed, NothingMissed;
    i := s.fetches[t].phase.slot;
    k := FirstWaiter(s.pool.waiters, s.pool.slots[i].provider).value;
    next := s.pool.waiters[k].fetch;
    assert Holds(s, t, i) && Waits(s, next);
    AttemptKeepsFetchOk(s.fetches[t], s.pool.slots[i].provider, outcome, s.primaries, s.pool.slots);
    HandOffShape(s, t, outcome, next, i, k);
    var s' := Apply(s, Finish(t, outcome));
    var connected :| s'.pool.slots == s.pool.slots[i := Slot(s.pool.slots[i].provider, true, connected)];
    ShapeHandsOff(
      s, s', t, AfterAttempt(s.fetches[t], s.pool.slots[i].provider, outcome, s.primaries, s.pool.slots), next, i, k, s'.pool.slots[i]);
  }

  lemma HandOffKeepsSlotsHeld(s: System, s': System, t: nat, next: nat, i: nat, k: nat)
    requires HandsOff(s, s', t, next, i, k) && SlotsHeld(s) && Holds(s, t, i) && Waits(s, next)
    ensures SlotsHeld(s')
  {
    forall j | 0 <= j < |s'.pool.slots| && s'.pool.slots[j].busy
      ensures exists u :: Holds(s', u, j)
    {
      var u :| Holds(s, u, j);
      assert if u == t then Holds(s', next, j) else Holds(s', u, j);
    }
  }

  lemma HandOffKeepsFetches(s: System, s': System, t: nat, after: Fetch, next: nat, i: nat)
    requires FetchesOk(s) && HoldsAllowed(s) && Holds(s, t, i) && Waits(s, next) && i < |s.pool.slots|
    requires SameProviders(s.pool.slots, s'.pool.slots) && s'.primaries == s.primaries
    requires s'.fetches == s.fetches[t := after][next := s.fetches[next].(phase := Holding(i))]
    requires FetchOk(after, s.primaries, s.pool.slots) && !after.phase.Holding?
    requires Accepts(s.pool.slots[i].provider, s.fetches[next].failed, s.fetches[next].includeBackups)
    ensures FetchesOk(s') && HoldsAllowed(s')
  {
    SameProvidersSameIds(s.pool.slots, s'.pool.slots);
    forall u, j: nat | Holds(s', u, j) && j < |s'.pool.slots|
      ensures Accepts(s'.pool.slots[j].provider, s'.fetches[u].failed, s'.fetches[u].includeBackups)
    {
      assert u == next || Holds(s, u, j);
    }
  }

  lemma HandOffKeepsInv(s: System, t: nat, outcome: Outcome)
    requires Inv(s) && Enabled(s, Finish(t, outcome))
    requires FirstWaiter(s.pool.waiters, s.pool.slots[s.fetches[t].phase.slot].provider).Some?
    ensures Inv(Apply(s, Finish(t, outcome)))
  {
    hide Apply, AfterAttempt, SlotsHeld, QueueMatches, NothingMissed, HoldsAllowed, FetchOk;
    var next, i, k := HandOffStep(s, t, outcome);
    var s' := Apply(s, Finish(t, outcome));
    var after := AfterAttempt(s.fetches[t], s.pool.slots[i].provider, outcome, s.primaries, s.pool.slots);
    HandOffKeepsSlotsHeld(s, s', t, next, i, k);
    LeavesQueue(s, s', next, k);
    AttemptKeepsFetchOk(s.fetches[t], s.pool.slots[i].provider, outcome, s.primaries, s.pool.slots);
    HandOffKeepsFetches(s, s', t, after, next, i);
  }

  /** The new state when nobody wants the slot. */
  lemma FreeShape(s: System, t: nat, outcome: Outcome) returns (after: Fetch, slot: Slot)
    requires Enabled(s, Finish(t, outcome))
    requires FirstWaiter(s.pool.waiters, s.pool.slots[s.fetches[t].phase.slot].provider).None?
    ensures var s', i := Apply(s, Finish(t, outcome)), s.fetches[t].phase.slot;
      && after == AfterAttempt(s.fetches[t], s.pool.slots[i].provider, outcome, s.primaries, s.pool.slots)
      && s'.fetches == s.fetches[t := after] && s'.primaries == s.primaries
      && !slot.busy && slot.provider == s.pool.slots[i].provider
      && s'.pool == Pool(s.pool.slots[i := slot], s.pool.waiters)
  {
    hide AfterAttempt;
    var i := s.fetches[t].phase.slot;
    after := AfterAttempt(s.fetches[t], s.pool.slots[i].provider, outcome, s.primaries, s.pool.slots);
    slot := Apply(s, Finish(t, outcome)).pool.slots[i];
  }

  lemma FreeKeepsInv(s: System, t: nat, outcome: Outcome)
    requires Inv(s) && Enabled(s, Finish(t, outcome))
    requires FirstWaiter(s.pool.waiters, s.pool.slots[s.fetches[t].phase.slot].provider).None?
    ensures Inv(Apply(s, Finish(t, outcome)))
  {
    hide Apply, AfterAttempt, SlotsHeld, HoldsAllowed, QueueMatches, FetchOk;
    var after, slot := FreeShape(s, t, outcome);
    var s', i := Apply(s, Finish(t, outcome)), s.fetches[t].phase.slot;
    AttemptKeepsFetchOk(s.fetches[t], s.pool.slots[i].provider, outcome, s.primaries, s.pool.slots);
    FreesSlot(s, s', t, i, after, slot);
    SameQueue(s, s');
    OneFetchChanges(s, s', t, after);
  }

  lemma StepKeepsInv(s: System, step: Step)
    requires Inv(s) && Enabled(s, step)
    ensures Inv(Apply(s, step))
  {
    match step
    case Start(t) => StartKeepsInv(s, t);
    case AbortRequest(t) => EndKeepsInv(s, t);
    case Ask(t, allowed, aborted) =>
      if Acquire(s.pool, RequestOf(t, s.fetches[t]), allowed).1.Some? {
        AcquireKeepsInv(s, t, allowed);
        assert Apply(s, step) == Apply(s, Ask(t, allowed, false));
      } else if aborted {
        EndKeepsInv(s, t);
      } else {
        QueueKeepsInv(s, t, allowed);
      }
    case Signal(t) => SignalKeepsInv(s, t);
    case Finish(t, outcome) =>
      if FirstWaiter(s.pool.waiters, s.pool.slots[s.fetches[t].phase.slot].provider).Some? {
        HandOffKeepsInv(s, t, outcome);
      } else {
        FreeKeepsInv(s, t, outcome);
      }
    case Connect(i) => ConnectKeepsInv(s, i);
  }

  // ---------------------------------------------------------------------------
  // Safety over all runs

  /** What never changes: the providers behind the slots, and the primaries. */
  lemma StepKeepsConfiguration(s: System, step: Step)
    requires Enabled(s, step)
    ensures SameProviders(s.pool.slots, Apply(s, step).pool.slots) && Apply(s, step).primaries == s.primaries
  {
    hide AfterAttempt, LoopHead, IdleConnected;
  }

  lemma {:induction false} RunKeepsInv(s: System, steps: seq<Step>, s': System)
    requires Inv(s) && Runs(s, steps, s')
    ensures Inv(s') && SameProviders(s.pool.slots, s'.pool.slots) && s'.primaries == s.primaries
    decreases |steps|
  {
    if steps != [] {
      StepKeepsInv(s, steps[0]);
      StepKeepsConfiguration(s, steps[0]);
      RunKeepsInv(Apply(s, steps[0]), steps[1..], s');
    }
  }

  /**
   Whatever the interleaving, the limits and the aborts: a slot is busy exactly
   while one fetch holds it, no fetch holds two, a fetch holds only a slot its
   exclusions allow, and the queue is the waiting fetches without loss or repetition.
   */
  lemma PoolSafety(providers: seq<Provider>, maxConnections: int, steps: seq<Step>, s: System)
    requires Runs(Initial(providers, maxConnections), steps, s)
    ensures forall i: nat | i < |s.pool.slots| :: s.pool.slots[i].busy <==> exists t :: Holds(s, t, i)
    ensures forall t, u, i: nat | Holds(s, t, i) && Holds(s, u, i) :: t == u && i < |s.pool.slots|
    ensures forall t, i: nat | Holds(s, t, i) ::
      && i < |InitialSlots(providers, maxConnections)|
      && Accepts(InitialSlots(providers, maxConnections)[i].provider, s.fetches[t].failed, s.fetches[t].includeBackups)
    ensures forall t :: Waits(s, t) <==> exists k :: 0 <= k < |s.pool.waiters| && s.pool.waiters[k].fetch == t
    ensures forall j, k | 0 <= j < k < |s.pool.waiters| :: s.pool.waiters[j].fetch != s.pool.waiters[k].fetch
  {
    InitialInv(providers, maxConnections);
    RunKeepsInv(Initial(providers, maxConnections), steps, s);
    forall i: nat | i < |s.pool.slots|
      ensures s.pool.slots[i].busy <==> exists t :: Holds(s, t, i)
    {
      assert forall t | Holds(s, t, i) :: s.pool.slots[i].busy;
    }
    forall t
      ensures Waits(s, t) <==> exists k :: 0 <= k < |s.pool.waiters| && s.pool.waiters[k].fetch == t
    {
      if Waits(s, t) {
        assert s.pool.waiters[WaitingAt(s.pool.waiters, t).value].fetch == t;
      }
    }
  }

  /**
   A signal that reaches a fetch after its slot was handed over still searches the queue,
   finds nothing and so changes nothing: the slot stays with the fetch, which releases it at
   the end of its attempt, and no other fetch loses its place.
   */
  lemma AbortAfterHandOffKeepsSlot(providers: seq<Provider>, maxConnections: int, steps: seq<Step>, s: System, t: nat, i: nat)
    requires Runs(Initial(providers, maxConnections), steps, s) && Holds(s, t, i)
    ensures Abort(s.pool, t) == s.pool && Apply(s, Signal(t)) == s
  {
    hide Runs, Inv;
    InitialInv(providers, maxConnections);
    RunKeepsInv(Initial(providers, maxConnections), steps, s);
    HolderNotInQueue(s, t, i);
  }

  /** A hand-off goes to the longest waiting fetch that accepts the slot, and to no other. */
  lemma HandOffGoesToEarliest(s: System, t: nat, outcome: Outcome, k: nat)
    requires Inv(s) && Enabled(s, Finish(t, outcome)) && k < |s.pool.waiters|
    requires var p := s.pool.slots[s.fetches[t].phase.slot].provider;
      && Accepts(p, s.pool.waiters[k].excluded, s.pool.waiters[k].includeBackups)
      && forall j | 0 <= j < k :: !Accepts(p, s.pool.waiters[j].excluded, s.pool.waiters[j].includeBackups)
    ensures var s', i := Apply(s, Finish(t, outcome)), s.fetches[t].phase.slot;
      forall u :: Holds(s', u, i) <==> u == s.pool.waiters[k].fetch
  {
    hide Apply, AfterAttempt, HoldsAllowed, QueueMatches, FetchesOk, NothingMissed;
    assert FirstWaiter(s.pool.waiters, s.pool.slots[s.fetches[t].phase.slot].provider) == Some(k);
    var next, i, k' := HandOffStep(s, t, outcome);
  }

  /** A backup is only ever used when every primary has failed permanently for this article. */
  lemma PrimaryFirst(providers: seq<Provider>, maxConnections: int, steps: seq<Step>, s: System, t: nat, i: nat)
    requires Runs(Initial(providers, maxConnections), steps, s)
    requires Holds(s, t, i) && i < |s.pool.slots| && s.pool.slots[i].provider.isBackup
    ensures forall p | p in providers && !p.isBackup :: p.id in s.fetches[t].failed
  {
    InitialInv(providers, maxConnections);
    RunKeepsInv(Initial(providers, maxConnections), steps, s);
    assert PrimaryIds(providers) <= s.fetches[t].failed;
  }

  // ---------------------------------------------------------------------------
  // What a fetch excludes, and how it counts

  /** The providers at which fetch `t` failed permanently during a run. */
  ghost function PermanentFailures(s: System, steps: seq<Step>, t: nat): set<string>
    decreases |steps|
  {
    if steps == [] || !Enabled(s, steps[0]) then {}
    else
      (if steps[0] == Finish(t, PermanentFailure) then {s.pool.slots[s.fetches[t].phase.slot].provider.id} else {})
      + PermanentFailures(Apply(s, steps[0]), steps[1..], t)
  }

  /** The attempts of fetch `t` that failed. */
  function FailedAttempts(steps: seq<Step>, t: nat): nat {
    if steps == [] then 0
    else Count(steps[0].Finish? && steps[0].fetch == t && !steps[0].outcome.Success?) + FailedAttempts(steps[1..], t)
  }

  function FailedOf(s: System, t: nat): set<string> {
    if t in s.fetches then s.fetches[t].failed else {}
  }

  function AttemptOf(s: System, t: nat): nat {
    if t in s.fetches then s.fetches[t].attempt else 1
  }

  /** Only its own failures change a fetch's exclusions and its attempt, not what others do. */
  lemma StepCounts(s: System, step: Step, t: nat)
    requires Inv(s) && Enabled(s, step)
    ensures FailedOf(Apply(s, step), t) == FailedOf(s, t)
      + if step == Finish(t, PermanentFailure) then {s.pool.slots[s.fetches[t].phase.slot].provider.id} else {}
    ensures AttemptOf(Apply(s, step), t) == AttemptOf(s, t)
      + Count(step.Finish? && step.fetch == t && !step.outcome.Success?)
  {
    hide SlotsHeld, QueueMatches, NothingMissed, HoldsAllowed, FetchesOk, MaxAttempts, SlotIds, Acquire, Abort;
    if step.Finish? {
      FinishCounts(s, step.fetch, step.outcome, t);
    }
  }

  lemma AttemptCounts(fetch: Fetch, provider: Provider, outcome: Outcome, primaries: set<string>, slots: seq<Slot>)
    ensures var after := AfterAttempt(fetch, provider, outcome, primaries, slots);
      && after.failed == fetch.failed + (if outcome.PermanentFailure? then {provider.id} else {})
      && after.attempt == fetch.attempt + Count(!outcome.Success?)
  {
  }

  lemma FinishCounts(s: System, u: nat, outcome: Outcome, t: nat)
    requires Inv(s) && Enabled(s, Finish(u, outcome))
    ensures FailedOf(Apply(s, Finish(u, outcome)), t) == FailedOf(s, t)
      + if t == u && outcome.PermanentFailure? then {s.pool.slots[s.fetches[u].phase.slot].provider.id} else {}
    ensures AttemptOf(Apply(s, Finish(u, outcome)), t) == AttemptOf(s, t) + Count(t == u && !outcome.Success?)
  {
    hide Apply, AfterAttempt, HandsOff, SlotsHeld, QueueMatches, NothingMissed, HoldsAllowed, FetchesOk;
    var i := s.fetches[u].phase.slot;
    AttemptCounts(s.fetches[u], s.pool.slots[i].provider, outcome, s.primaries, s.pool.slots);
    if FirstWaiter(s.pool.waiters, s.pool.slots[i].provider).Some? {
      var next, i', k := HandOffStep(s, u, outcome);
    } else {
      var after, slot := FreeShape(s, u, outcome);
    }
  }

  lemma {:induction false} RunCounts(s: System, steps: seq<Step>, s': System, t: nat)
    requires Inv(s) && Runs(s, steps, s')
    ensures FailedOf(s', t) == FailedOf(s, t) + PermanentFailures(s, steps, t)
    ensures AttemptOf(s', t) == AttemptOf(s, t) + FailedAttempts(steps, t)
    decreases |steps|
  {
    hide Inv, Apply, Enabled;
    if steps != [] {
      StepKeepsInv(s, steps[0]);
      StepCounts(s, steps[0], t);
      RunCounts(Apply(s, steps[0]), steps[1..], s', t);
    }
  }

  /**
   A fetch excludes exactly the providers at which it failed permanently in this
   run, and has made one attempt more than it has seen failures.
   */
  lemma ExcludedHaveFailed(providers: seq<Provider>, maxConnections: int, steps: seq<Step>, s: System, t: nat)
    requires Runs(Initial(providers, maxConnections), steps, s) && t in s.fetches
    ensures s.fetches[t].failed == PermanentFailures(Initial(providers, maxConnections), steps, t)
    ensures s.fetches[t].attempt == 1 + FailedAttempts(steps, t)
  {
    InitialInv(providers, maxConnections);
    RunCounts(Initial(providers, maxConnections), steps, s, t);
  }

  /** There are no more providers than slots. */
  lemma {:induction false} IdsWithinSlots(slots: seq<Slot>)
    ensures |SlotIds(slots)| <= |slots|
  {
    if slots == [] {
      assert SlotIds(slots) == {};
    } else {
      var last := |slots| - 1;
      IdsWithinSlots(slots[..last]);
      assert SlotIds(slots) == SlotIds(slots[..last]) + {slots[last].provider.id};
    }
  }

  /**
   In every run, a fetch fails at most four times as often as the pool has slots. It has given
   up exactly if it failed that often, or failed permanently at every provider with a slot.
   */
  lemma GivesUpOnlyAtTheEnd(providers: seq<Provider>, maxConnections: int, steps: seq<Step>, s: System, t: nat)
    requires Runs(Initial(providers, maxConnections), steps, s) && t in s.fetches
    ensures var slots := InitialSlots(providers, maxConnections);
      && FailedAttempts(steps, t) <= 4 * |slots|
      && (s.fetches[t].phase.AllFailed? <==>
            || FailedAttempts(steps, t) == 4 * |slots|
            || forall i | 0 <= i < |slots| ::
                 slots[i].provider.id in PermanentFailures(Initial(providers, maxConnections), steps, t))
  {
    hide Inv, Runs, PermanentFailures, FailedAttempts;
    var slots := InitialSlots(providers, maxConnections);
    InitialInv(providers, maxConnections);
    RunKeepsInv(Initial(providers, maxConnections), steps, s);
    SameProvidersSameIds(slots, s.pool.slots);
    ExcludedHaveFailed(providers, maxConnections, steps, s, t);
    IdsWithinSlots(slots);
    FetchIsOk(s, t);
    assert SlotIds(slots) <= s.fetches[t].failed ==> s.fetches[t].failed == SlotIds(slots);
  }

  lemma FetchIsOk(s: System, t: nat)
    requires Inv(s) && t in s.fetches
    ensures FetchOk(s.fetches[t], s.primaries, s.pool.slots)
  {
  }

  /** After a failed attempt the slot's connection is gone, whoever gets the slot next. */
  lemma FailureDisconnects(s: System, t: nat, outcome: Outcome)
    requires Enabled(s, Finish(t, outcome)) && !outcome.Success?
    ensures var slots := Apply(s, Finish(t, outcome)).pool.slots;
      |slots| == |s.pool.slots| && !slots[s.fetches[t].phase.slot].connected
  {
    hide AfterAttempt, LoopHead, IdleConnected, FirstWaiter;
  }

  /**
   A connection made for a fetch that succeeds on it stays for the next fetch if the slot is
   handed on, and else exactly if no other idle slot has one.
   */
  lemma WarmAfterSuccess(s: System, t: nat)
    requires Inv(s) && Enabled(s, Finish(t, Success(true)))
    ensures var i := s.fetches[t].phase.slot;
      && Enabled(s, Connect(i)) && Enabled(Apply(s, Connect(i)), Finish(t, Success(true)))
      && var slots := Apply(Apply(s, Connect(i)), Finish(t, Success(true))).pool.slots;
      && |slots| == |s.pool.slots|
      && (slots[i].busy ==> slots[i].connected)
      && (!slots[i].busy ==> (slots[i].connected <==> IdleConnected(s.pool.slots) == 0))
  {
    hide AfterAttempt, LoopHead, IdleConnected, FirstWaiter, HoldsAllowed, QueueMatches, FetchesOk, NothingMissed;
    var i := s.fetches[t].phase.slot;
    assert Holds(s, t, i);
    var s1 := Apply(s, Connect(i));
    IdleConnectedUpdate(s.pool.slots, i, s1.pool.slots[i]);
    assert s1.pool.slots[i := s1.pool.slots[i]] == s1.pool.slots;
    ReleaseKeepsOneWarm(s1.pool, i);
  }

  /** Once its signal has fired a fetch neither waits nor is waited for in the queue. */
  lemma AbortedNeverWaits(s: System, t: nat, allowed: int)
    requires Inv(s)
    ensures Enabled(s, Signal(t)) ==>
      var s' := Apply(s, Signal(t));
      !Waits(s', t) && WaitingAt(s'.pool.waiters, t).None? && (s.fetches[t].phase.Queued? ==> s'.fetches[t].phase.Aborted?)
    ensures Enabled(s, Ask(t, allowed, true)) ==>
      var s' := Apply(s, Ask(t, allowed, true));
      !Waits(s', t) && s'.pool.waiters == s.pool.waiters && (s'.fetches[t].phase.Aborted? || s'.fetches[t].phase.Holding?)
  {
    hide SlotsHeld, HoldsAllowed, FetchesOk, NothingMissed, FirstFree;
    if Enabled(s, Signal(t)) {
      SignalKeepsInv(s, t);
      SignalEmptiesPlace(s, t);
    }
  }

  lemma SignalEmptiesPlace(s: System, t: nat)
    requires Inv(s) && Enabled(s, Signal(t)) && Inv(Apply(s, Signal(t)))
    ensures var s' := Apply(s, Signal(t)); !Waits(s', t) && WaitingAt(s'.pool.waiters, t).None?
  {
    hide SlotsHeld, HoldsAllowed, FetchesOk, NothingMissed;
    assert !Waits(Apply(s, Signal(t)), t);
  }

  // ---------------------------------------------------------------------------
  // How many connections are used

  /** No request of the run was allowed more than this. */
  predicate AllowsAtMost(steps: seq<Step>, most: int) {
    forall i | 0 <= i < |steps| && steps[i].Ask? :: steps[i].allowed <= most
  }

  /** Only slots below the limit are busy. */
  predicate BusyBelow(slots: seq<Slot>, most: int) {
    forall i | 0 <= i < |slots| && slots[i].busy :: i < most || i == 0
  }

  lemma StepStaysBelow(s: System, step: Step, most: int)
    requires Inv(s) && Enabled(s, step) && BusyBelow(s.pool.slots, most) && (step.Ask? ==> step.allowed <= most)
    ensures BusyBelow(Apply(s, step).pool.slots, most)
  {
    hide AfterAttempt, LoopHead, IdleConnected, FirstFree, FirstWaiter, HoldsAllowed, QueueMatches, FetchesOk, NothingMissed;
    if step.Finish? {
      assert Holds(s, step.fetch, s.fetches[step.fetch].phase.slot);
    }
  }

  lemma {:induction false} RunStaysBelow(s: System, steps: seq<Step>, s': System, most: int)
    requires Inv(s) && Runs(s, steps, s') && BusyBelow(s.pool.slots, most) && AllowsAtMost(steps, most)
    ensures BusyBelow(s'.pool.slots, most)
    decreases |steps|
  {
    hide Inv, Apply, Enabled, BusyBelow;
    if steps != [] {
      StepKeepsInv(s, steps[0]);
      StepStaysBelow(s, steps[0], most);
      RunStaysBelow(Apply(s, steps[0]), steps[1..], s', most);
    }
  }

  /** The slots in use. */
  function BusySlots(slots: seq<Slot>): set<nat> {
    set i | 0 <= i < |slots| && slots[i].busy
  }

  /**
   The pool never uses more connections than the largest number any request was allowed,
   or one if that is less: hand-offs do not get around the limit.
   */
  lemma UsesAtMostAllowed(providers: seq<Provider>, maxConnections: int, steps: seq<Step>, s: System, most: int)
    requires Runs(Initial(providers, maxConnections), steps, s) && AllowsAtMost(steps, most)
    ensures |BusySlots(s.pool.slots)| <= if most > 1 then most else 1
  {
    InitialInv(providers, maxConnections);
    RunStaysBelow(Initial(providers, maxConnections), steps, s, most);
    var bound := if most > 1 then most else 1;
    SubsetSize(BusySlots(s.pool.slots), Below(bound));
  }

  function Below(n: nat): (r: set<nat>)
    ensures |r| == n && forall i: nat :: i in r <==> i < n
  {
    if n == 0 then {} else Below(n - 1) + {n - 1}
  }

  // ---------------------------------------------------------------------------
  // Termination

  /** How far a fetch is from its end. */
  function Rank(fetch: Fetch, maxAttempts: nat): int {
    var left := 3 * (maxAttempts + 1 - fetch.attempt);
    match fetch.phase
    case Requesting => left + 2
    case Queued => left + 1
    case Holding(_) => left
    case _ => 0
  }

  function RankIn(s: System, t: nat): int {
    if t in s.fetches then Rank(s.fetches[t], MaxAttempts(s.pool.slots)) else 3 * MaxAttempts(s.pool.slots) + 2
  }

  /** The steps a fetch itself makes in its loop. */
  predicate IsStepOf(step: Step, t: nat) {
    step == AbortRequest(t) || (step.Ask? && step.fetch == t) || (step.Finish? && step.fetch == t)
  }

  function StepsOf(steps: seq<Step>, t: nat): nat {
    if steps == [] then 0 else Count(IsStepOf(steps[0], t)) + StepsOf(steps[1..], t)
  }

  lemma AttemptLowersRank(fetch: Fetch, provider: Provider, outcome: Outcome, primaries: set<string>, slots: seq<Slot>)
    requires FetchOk(fetch, primaries, slots) && fetch.phase.Holding?
    ensures Rank(AfterAttempt(fetch, provider, outcome, primaries, slots), MaxAttempts(slots)) < Rank(fetch, MaxAttempts(slots))
  {
  }

  lemma FinishLowersRank(s: System, u: nat, outcome: Outcome, t: nat)
    requires Inv(s) && Enabled(s, Finish(u, outcome))
    ensures RankIn(Apply(s, Finish(u, outcome)), t) + Count(t == u) <= RankIn(s, t)
  {
    hide Apply, AfterAttempt, FetchOk, SlotsHeld, QueueMatches, NothingMissed, HoldsAllowed;
    var s', i := Apply(s, Finish(u, outcome)), s.fetches[u].phase.slot;
    StepKeepsConfiguration(s, Finish(u, outcome));
    SameProvidersSameIds(s.pool.slots, s'.pool.slots);
    AttemptLowersRank(s.fetches[u], s.pool.slots[i].provider, outcome, s.primaries, s.pool.slots);
    if FirstWaiter(s.pool.waiters, s.pool.slots[i].provider).Some? {
      var next, i', k := HandOffStep(s, u, outcome);
    } else {
      var after, slot := FreeShape(s, u, outcome);
    }
  }

  lemma StepLowersRank(s: System, step: Step, t: nat)
    requires Inv(s) && Enabled(s, step)
    ensures RankIn(Apply(s, step), t) + Count(IsStepOf(step, t)) <= RankIn(s, t)
  {
    hide SlotsHeld, QueueMatches, NothingMissed, HoldsAllowed, MaxAttempts, SlotIds;
    if step.Finish? {
      FinishLowersRank(s, step.fetch, step.outcome, t);
    } else {
      StepKeepsConfiguration(s, step);
      SameProvidersSameIds(s.pool.slots, Apply(s, step).pool.slots);
      assert t in s.fetches ==> FetchOk(s.fetches[t], s.primaries, s.pool.slots);
    }
  }

  lemma RankNotNegative(s: System, t: nat)
    requires Inv(s)
    ensures RankIn(s, t) >= 0
  {
    assert t in s.fetches ==> FetchOk(s.fetches[t], s.primaries, s.pool.slots);
  }

  lemma {:induction false} RunLowersRank(s: System, steps: seq<Step>, s': System, t: nat)
    requires Inv(s) && Runs(s, steps, s')
    ensures RankIn(s', t) + StepsOf(steps, t) <= RankIn(s, t) && RankIn(s', t) >= 0
    decreases |steps|
  {
    if steps == [] {
      RankNotNegative(s, t);
    } else {
      StepKeepsInv(s, steps[0]);
      StepLowersRank(s, steps[0], t);
      RunLowersRank(Apply(s, steps[0]), steps[1..], s', t);
    }
  }

  /** The retry loop of every fetch ends: in no run does it make more steps than this. */
  lemma RetryLoopTerminates(providers: seq<Provider>, maxConnections: int, steps: seq<Step>, s: System, t: nat)
    requires Runs(Initial(providers, maxConnections), steps, s)
    ensures StepsOf(steps, t) <= 12 * |InitialSlots(providers, maxConnections)| + 2
  {
    InitialInv(providers, maxConnections);
    IdsWithinSlots(InitialSlots(providers, maxConnections));
    RunLowersRank(Initial(providers, maxConnections), steps, s, t);
  }
}
