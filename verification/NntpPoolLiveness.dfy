/**
 When the pool of src/services/mountedStream.service.ts can leave a request waiting
 for good, and when it cannot.
 */
module NntpPoolLiveness {
  import opened Bytes
  import opened Options
  import opened NntpPool
  import opened NntpPoolProtocol

  /** Some slot accepts the request. */
  ghost predicate Satisfiable(slots: seq<Slot>, failed: set<string>, includeBackups: bool) {
    exists i :: 0 <= i < |slots| && Accepts(slots[i].provider, failed, includeBackups)
  }

  predicate DistinctIds(providers: seq<Provider>) {
    forall i, j | 0 <= i < j < |providers| :: providers[i].id != providers[j].id
  }

  /** The order in which the database returns the providers. */
  predicate PrimariesFirst(providers: seq<Provider>) {
    forall i, j | 0 <= i < j < |providers| && providers[i].isBackup :: providers[j].isBackup
  }

  /** Either every primary has a slot, or no backup has one. */
  predicate Covered(providers: seq<Provider>, maxConnections: int) {
    var ps := SlotProviders(providers, maxConnections, 0);
    || (forall p | p in providers && !p.isBackup :: p in ps)
    || (forall p | p in ps :: !p.isBackup)
  }

  lemma CoveredWhenPrimariesFirst(providers: seq<Provider>, maxConnections: int)
    requires PrimariesFirst(providers)
    ensures Covered(providers, maxConnections)
  {
    var n := SlotsCoverPrefix(providers, maxConnections, 0);
    var ps := SlotProviders(providers, maxConnections, 0);
    if p :| p in ps && p.isBackup {
      var i :| 0 <= i < n && providers[..n][i] == p;
      forall q | q in providers && !q.isBackup
        ensures q in ps
      {
        var j :| 0 <= j < |providers| && providers[j] == q;
        assert providers[i].isBackup && !providers[j].isBackup;
        assert j < n;
        assert providers[..n][j] == q;
      }
    }
  }

  /** The loop is asking, or waits for, a slot. */
  predicate Asks(fetch: Fetch) {
    fetch.phase.Requesting? || fetch.phase.Queued?
  }

  /** In a covered pool every request of every run is one some slot accepts. */
  lemma RequestsSatisfiable(providers: seq<Provider>, maxConnections: int, steps: seq<Step>, s: System, t: nat)
    requires Covered(providers, maxConnections)
    requires Runs(Initial(providers, maxConnections), steps, s) && t in s.fetches && Asks(s.fetches[t])
    ensures Satisfiable(s.pool.slots, s.fetches[t].failed, s.fetches[t].includeBackups)
  {
    hide Runs, SlotsHeld, HoldsAllowed, QueueMatches, NothingMissed, MaxAttempts, SlotProviders;
    InitialInv(providers, maxConnections);
    RunKeepsInv(Initial(providers, maxConnections), steps, s);
    var fetch, ps := s.fetches[t], SlotProviders(providers, maxConnections, 0);
    assert FetchOk(fetch, s.primaries, s.pool.slots);
    var id := MissingElement(fetch.failed, SlotIds(s.pool.slots));
    var i :| 0 <= i < |s.pool.slots| && s.pool.slots[i].provider.id == id;
    if !Accepts(s.pool.slots[i].provider, fetch.failed, fetch.includeBackups) {
      assert s.pool.slots[i].provider == ps[i] && ps[i] in ps && ps[i].isBackup;
      var primary :| primary in s.primaries && primary !in fetch.failed;
      var q :| q in providers && !q.isBackup && q.id == primary;
      var j :| 0 <= j < |ps| && ps[j] == q;
      assert Accepts(s.pool.slots[j].provider, fetch.failed, fetch.includeBackups);
    }
  }

  lemma MissingElement<T>(a: set<T>, b: set<T>) returns (x: T)
    requires |a| < |b|
    ensures x in b && x !in a
  {
    if b <= a {
      SubsetSize(b, a);
    }
    x :| x in b && x !in a;
  }

  // ---------------------------------------------------------------------------
  // Nobody waits in an idle pool

  /** No request was allowed fewer than `limit` connections. */
  predicate AllowsAtLeast(steps: seq<Step>, limit: int) {
    forall i | 0 <= i < |steps| && steps[i].Ask? :: steps[i].allowed >= limit
  }

  /** Every request was allowed exactly this many. */
  predicate AllowsExactly(steps: seq<Step>, limit: int) {
    forall i | 0 <= i < |steps| && steps[i].Ask? :: steps[i].allowed == limit
  }

  ghost predicate AllIdle(s: System) {
    forall t, i: nat :: !Holds(s, t, i)
  }

  /** How many slots such a limit lets a request see. */
  function Seen(limit: int, slotCount: nat): (n: nat)
    ensures n <= slotCount
  {
    Min(ActiveLimit(limit, slotCount), slotCount)
  }

  /** Every waiter looked at these slots. */
  ghost predicate ScannedAtLeast(s: System, seen: nat) {
    forall k | 0 <= k < |s.pool.waiters| :: s.pool.waiters[k].scanned >= seen
  }

  lemma StepKeepsScanned(s: System, step: Step, limit: int)
    requires Enabled(s, step) && ScannedAtLeast(s, Seen(limit, |s.pool.slots|))
    requires step.Ask? ==> step.allowed >= limit
    ensures ScannedAtLeast(Apply(s, step), Seen(limit, |s.pool.slots|))
  {
    hide AfterAttempt, LoopHead, IdleConnected;
    forall w | w in Apply(s, step).pool.waiters
      ensures w.scanned >= Seen(limit, |s.pool.slots|)
    {
      assert w in s.pool.waiters || step.Ask?;
    }
  }

  lemma {:induction false} RunKeepsScanned(s: System, steps: seq<Step>, s': System, limit: int)
    requires Runs(s, steps, s') && ScannedAtLeast(s, Seen(limit, |s.pool.slots|)) && AllowsAtLeast(steps, limit)
    ensures ScannedAtLeast(s', Seen(limit, |s'.pool.slots|))
    decreases |steps|
  {
    hide ScannedAtLeast, Apply, Enabled, Seen;
    if steps != [] {
      StepKeepsConfiguration(s, steps[0]);
      StepKeepsScanned(s, steps[0], limit);
      RunKeepsScanned(Apply(s, steps[0]), steps[1..], s', limit);
    }
  }

  /** In an idle pool a request is left over only for slots behind those the limit shows. */
  lemma IdlePoolMissesNothing(
    providers: seq<Provider>, maxConnections: int, limit: int, steps: seq<Step>, s: System, k: nat, i: nat)
    requires Runs(Initial(providers, maxConnections), steps, s) && AllowsAtLeast(steps, limit) && AllIdle(s)
    requires k < |s.pool.waiters| && i < |s.pool.slots| && Suits(s.pool.slots[i], s.pool.waiters[k])
    ensures i >= Seen(limit, |InitialSlots(providers, maxConnections)|)
  {
    InitialInv(providers, maxConnections);
    RunKeepsInv(Initial(providers, maxConnections), steps, s);
    RunKeepsScanned(Initial(providers, maxConnections), steps, s, limit);
  }

  /** The slots the limit shows include one of every provider that has a slot. */
  predicate Shown(providers: seq<Provider>, maxConnections: int, limit: int) {
    var ps := SlotProviders(providers, maxConnections, 0);
    forall p | p in ps :: p in ps[..Seen(limit, |ps|)]
  }

  /**
   In a covered pool whose visible slots show every provider nobody waits for nothing:
   whenever no fetch holds a slot, the queue is empty.
   */
  lemma IdlePoolHasNoWaiters(providers: seq<Provider>, maxConnections: int, limit: int, steps: seq<Step>, s: System)
    requires Covered(providers, maxConnections) && Shown(providers, maxConnections, limit)
    requires Runs(Initial(providers, maxConnections), steps, s) && AllowsAtLeast(steps, limit) && AllIdle(s)
    ensures s.pool.waiters == []
  {
    hide Runs, AllowsAtLeast, AllIdle, SlotProviders, Covered;
    InitialInv(providers, maxConnections);
    RunKeepsInv(Initial(providers, maxConnections), steps, s);
    if s.pool.waiters != [] {
      var w, ps := s.pool.waiters[0], SlotProviders(providers, maxConnections, 0);
      assert Waits(s, w.fetch);
      RequestsSatisfiable(providers, maxConnections, steps, s, w.fetch);
      var i :| 0 <= i < |s.pool.slots| && Accepts(s.pool.slots[i].provider, w.excluded, w.includeBackups);
      assert s.pool.slots[i].provider == ps[i] && ps[i] in ps;
      var j :| 0 <= j < Seen(limit, |ps|) && ps[..Seen(limit, |ps|)][j] == ps[i];
      assert s.pool.slots[j].provider == ps[j];
      IdlePoolMissesNothing(providers, maxConnections, limit, steps, s, 0, j);
    }
  }

  /** With the whole pool allowed every provider is shown. */
  lemma FullLimitShowsAll(providers: seq<Provider>, maxConnections: int, limit: int)
    requires limit >= |SlotProviders(providers, maxConnections, 0)|
    ensures Shown(providers, maxConnections, limit)
  {
    var ps := SlotProviders(providers, maxConnections, 0);
    assert ps[..|ps|] == ps;
  }

  // ---------------------------------------------------------------------------
  // The converse: any other pool has a run that strands a request

  /** One fetch has failed at `failed`, everything else is idle, and it asks again. */
  ghost predicate Alone(s: System, failed: set<string>) {
    && s.pool.waiters == []
    && (forall i | 0 <= i < |s.pool.slots| :: !s.pool.slots[i].busy)
    && s.fetches == map[0 := Fetch(|failed| + 1, failed, s.primaries <= failed, Requesting)]
  }

  /** Some primary has no slot. */
  ghost predicate PrimaryMissing(s: System) {
    exists id :: id in s.primaries && id !in SlotIds(s.pool.slots)
  }

  /** A provider with a slot that no request can get among the first `seen` slots. */
  ghost predicate OutOfReach(s: System, id: string, seen: nat) {
    && id in SlotIds(s.pool.slots)
    && forall i | 0 <= i < |s.pool.slots| && i < seen && s.pool.slots[i].provider.id == id ::
         s.pool.slots[i].provider.isBackup && PrimaryMissing(s)
  }

  /** What the lone fetch finds when it asks. */
  function FindsAlone(s: System, limit: int): Option<nat>
    requires 0 in s.fetches
  {
    FirstFree(s.pool.slots, ActiveLimit(limit, |s.pool.slots|), RequestOf(0, s.fetches[0]))
  }

  /** Alone, the fetch gets the first slot it accepts. */
  lemma AskAlone(s: System, failed: set<string>, limit: int) returns (i: nat, s': System)
    requires Alone(s, failed) && FindsAlone(s, limit).Some?
    ensures s' == Apply(s, Ask(0, limit, false))
    ensures i < |s.pool.slots| && i < Seen(limit, |s.pool.slots|)
    ensures Accepts(s.pool.slots[i].provider, failed, s.primaries <= failed)
    ensures s'.pool == Pool(s.pool.slots[i := s.pool.slots[i].(busy := true)], []) && s'.primaries == s.primaries
    ensures s'.fetches == map[0 := Fetch(|failed| + 1, failed, s.primaries <= failed, Holding(i))]
  {
    i := FindsAlone(s, limit).value;
    s' := Apply(s, Ask(0, limit, false));
  }

  /** Nothing it sees is acceptable: it queues, in an idle pool. */
  lemma QueueAlone(s: System, failed: set<string>, limit: int) returns (s': System)
    requires Alone(s, failed) && FindsAlone(s, limit).None?
    ensures s' == Apply(s, Ask(0, limit, false)) && Stranded(s', limit)
  {
    s' := Apply(s, Ask(0, limit, false));
    assert s'.fetches[0].phase == Queued;
  }

  /** Fetch 0 waits while nobody holds a slot, and accepts none of those the limit shows. */
  ghost predicate Stranded(s: System, limit: int) {
    && AllIdle(s) && s.pool.waiters != [] && 0 in s.fetches && s.fetches[0].phase.Queued?
    && forall i | 0 <= i < Seen(limit, |s.pool.slots|) ::
         !Accepts(s.pool.slots[i].provider, s.fetches[0].failed, s.fetches[0].includeBackups)
  }

  /** A permanent failure leaves the fetch alone again, with one exclusion more. */
  lemma FailAlone(s: System, failed: set<string>, i: nat) returns (s': System)
    requires i < |s.pool.slots| && s.pool.slots[i].busy && s.pool.waiters == []
    requires forall j | 0 <= j < |s.pool.slots| && j != i :: !s.pool.slots[j].busy
    requires s.fetches == map[0 := Fetch(|failed| + 1, failed, s.primaries <= failed, Holding(i))]
    requires var id := s.pool.slots[i].provider.id; id !in failed && |failed + {id}| < |SlotIds(s.pool.slots)|
    ensures s' == Apply(s, Finish(0, PermanentFailure))
    ensures Alone(s', failed + {s.pool.slots[i].provider.id})
    ensures SameProviders(s.pool.slots, s'.pool.slots) && s'.primaries == s.primaries
  {
    s' := Apply(s, Finish(0, PermanentFailure));
    var failed' := failed + {s.pool.slots[i].provider.id};
    var after := AfterAttempt(s.fetches[0], s.pool.slots[i].provider, PermanentFailure, s.primaries, s.pool.slots);
    assert |failed'| == |failed| + 1;
    assert after == Fetch(|failed'| + 1, failed', s.primaries <= failed', Requesting);
    var fetch, slot := FreeShape(s, 0, PermanentFailure);
  }

  /** What it gets is never the provider out of reach. */
  lemma NeverGetsIt(s: System, failed: set<string>, id: string, seen: nat, i: nat)
    requires OutOfReach(s, id, seen) && failed <= SlotIds(s.pool.slots) && i < |s.pool.slots| && i < seen
    requires Accepts(s.pool.slots[i].provider, failed, s.primaries <= failed)
    ensures s.pool.slots[i].provider.id != id
  {
    if PrimaryMissing(s) {
      var primary :| primary in s.primaries && primary !in SlotIds(s.pool.slots);
      assert primary !in failed;
    }
  }

  lemma StaysOutOfReach(s: System, s': System, id: string, seen: nat)
    requires OutOfReach(s, id, seen) && SameProviders(s.pool.slots, s'.pool.slots) && s'.primaries == s.primaries
    ensures OutOfReach(s', id, seen)
  {
    SameProvidersSameIds(s.pool.slots, s'.pool.slots);
  }

  /** One more provider with a slot fails permanently. */
  lemma FailOnce(s: System, failed: set<string>, id: string, limit: int) returns (s': System, steps: seq<Step>, failed': set<string>)
    requires Alone(s, failed) && FindsAlone(s, limit).Some?
    requires OutOfReach(s, id, Seen(limit, |s.pool.slots|)) && failed <= SlotIds(s.pool.slots) - {id}
    ensures steps == [Ask(0, limit, false), Finish(0, PermanentFailure)]
    ensures Enabled(s, steps[0]) && Enabled(Apply(s, steps[0]), steps[1])
    ensures s' == Apply(Apply(s, steps[0]), steps[1])
    ensures Alone(s', failed') && SameProviders(s.pool.slots, s'.pool.slots) && s'.primaries == s.primaries
    ensures failed < failed' <= SlotIds(s'.pool.slots) - {id} && SlotIds(s'.pool.slots) == SlotIds(s.pool.slots)
  {
    hide Apply, InitialSlots, SlotIds, OutOfReach, FindsAlone;
    var i, s1 := AskAlone(s, failed, limit);
    var own := s.pool.slots[i].provider.id;
    failed' := failed + {own};
    SameProvidersSameIds(s.pool.slots, s1.pool.slots);
    SlotIdListed(s.pool.slots, i);
    NeverGetsIt(s, failed, id, Seen(limit, |s.pool.slots|), i);
    HasSlot(s, id, Seen(limit, |s.pool.slots|));
    ProperSubsetSize(failed', SlotIds(s.pool.slots), id);
    s' := FailAlone(s1, failed, i);
    SameProvidersSameIds(s1.pool.slots, s'.pool.slots);
    steps := [Ask(0, limit, false), Finish(0, PermanentFailure)];
  }

  lemma HasSlot(s: System, id: string, seen: nat)
    requires OutOfReach(s, id, seen)
    ensures id in SlotIds(s.pool.slots)
  {
  }

  lemma SlotIdListed(slots: seq<Slot>, i: nat)
    requires i < |slots|
    ensures slots[i].provider.id in SlotIds(slots)
  {
  }

  lemma ProperSubsetSize<T>(a: set<T>, b: set<T>, x: T)
    requires a <= b - {x} && x in b
    ensures |a| < |b|
  {
    SubsetSize(a, b - {x});
  }

  /** Failing again and again the lone fetch ends up stranded. */
  lemma {:induction false} Drain(s: System, failed: set<string>, id: string, limit: int) returns (steps: seq<Step>, s': System)
    requires Alone(s, failed) && OutOfReach(s, id, Seen(limit, |s.pool.slots|))
    requires failed <= SlotIds(s.pool.slots) - {id}
    ensures Runs(s, steps, s') && AllowsExactly(steps, limit) && Stranded(s', limit)
    decreases SlotIds(s.pool.slots) - failed
  {
    hide Apply, Stranded, SlotIds, OutOfReach, FindsAlone;
    if FindsAlone(s, limit).Some? {
      var s2, two, failed' := FailOnce(s, failed, id, limit);
      StaysOutOfReach(s, s2, id, Seen(limit, |s.pool.slots|));
      var rest;
      rest, s' := Drain(s2, failed', id, limit);
      steps := two + rest;
      assert steps[1..][1..] == rest && steps[1..][0] == two[1];
    } else {
      s' := QueueAlone(s, failed, limit);
      steps := [Ask(0, limit, false)];
      assert steps[1..] == [];
    }
  }

  /** Every request of every run can be met by some slot. */
  ghost predicate NeverStuck(providers: seq<Provider>, maxConnections: int) {
    forall steps, s, t | Runs(Initial(providers, maxConnections), steps, s) && t in s.fetches && Asks(s.fetches[t]) ::
      Satisfiable(s.pool.slots, s.fetches[t].failed, s.fetches[t].includeBackups)
  }

  /** With distinct provider ids, this holds if and only if every primary has a slot or no backup has one. */
  lemma NeverStuckIffCovered(providers: seq<Provider>, maxConnections: int)
    requires DistinctIds(providers)
    ensures NeverStuck(providers, maxConnections) <==> Covered(providers, maxConnections)
  {
    if Covered(providers, maxConnections) {
      forall steps, s, t | Runs(Initial(providers, maxConnections), steps, s) && t in s.fetches && Asks(s.fetches[t])
        ensures Satisfiable(s.pool.slots, s.fetches[t].failed, s.fetches[t].includeBackups)
      {
        RequestsSatisfiable(providers, maxConnections, steps, s, t);
      }
    } else {
      var steps, s := StuckRun(providers, maxConnections);
      assert Asks(s.fetches[0]);
    }
  }

  lemma StuckRun(providers: seq<Provider>, maxConnections: int) returns (steps: seq<Step>, s: System)
    requires DistinctIds(providers) && !Covered(providers, maxConnections)
    ensures Runs(Initial(providers, maxConnections), steps, s) && 0 in s.fetches && s.fetches[0].phase.Queued?
    ensures !Satisfiable(s.pool.slots, s.fetches[0].failed, s.fetches[0].includeBackups)
  {
    hide Runs, SlotIds, OutOfReach, Covered;
    var limit := |InitialSlots(providers, maxConnections)|;
    var id := UncoveredBackup(providers, maxConnections, limit);
    steps, s := StrandedRun(providers, maxConnections, limit, id);
    StepsKeepSlotCount(Initial(providers, maxConnections), steps, s);
  }

  lemma {:induction false} StepsKeepSlotCount(s: System, steps: seq<Step>, s': System)
    requires Runs(s, steps, s')
    ensures |s'.pool.slots| == |s.pool.slots|
    decreases |steps|
  {
    hide Apply, Enabled;
    if steps != [] {
      StepKeepsConfiguration(s, steps[0]);
      StepsKeepSlotCount(Apply(s, steps[0]), steps[1..], s');
    }
  }

  /** From a fresh pool with a provider out of reach. */
  lemma StrandedRun(providers: seq<Provider>, maxConnections: int, limit: int, id: string) returns (steps: seq<Step>, s: System)
    requires var initial := Initial(providers, maxConnections);
      OutOfReach(initial, id, Seen(limit, |initial.pool.slots|))
    ensures Runs(Initial(providers, maxConnections), steps, s) && AllowsExactly(steps, limit) && Stranded(s, limit)
  {
    hide Runs, SlotIds, OutOfReach, Stranded, Apply, Alone;
    var initial := Initial(providers, maxConnections);
    HasSlot(initial, id, Seen(limit, |initial.pool.slots|));
    var started := StartAlone(initial, id);
    StaysOutOfReach(initial, started, id, Seen(limit, |initial.pool.slots|));
    var rest;
    rest, s := Drain(started, {}, id, limit);
    steps := [Start(0)] + rest;
    RunsCons(initial, Start(0), rest, s);
  }

  lemma RunsCons(s: System, step: Step, rest: seq<Step>, s': System)
    requires Enabled(s, step) && Runs(Apply(s, step), rest, s')
    ensures Runs(s, [step] + rest, s')
  {
    assert ([step] + rest)[1..] == rest;
  }

  /** A backup's provider is out of reach when some primary has no slot. */
  lemma UncoveredBackup(providers: seq<Provider>, maxConnections: int, limit: int) returns (id: string)
    requires DistinctIds(providers) && !Covered(providers, maxConnections)
    ensures var initial := Initial(providers, maxConnections); OutOfReach(initial, id, Seen(limit, |initial.pool.slots|))
  {
    var ps := SlotProviders(providers, maxConnections, 0);
    var slots := InitialSlots(providers, maxConnections);
    var p :| p in providers && !p.isBackup && p !in ps;
    var backup :| backup in ps && backup.isBackup;
    id := backup.id;
    SlotProviderListed(providers, maxConnections, backup);
    forall i | 0 <= i < |slots|
      ensures slots[i].provider.id == backup.id ==> slots[i].provider == backup
      ensures slots[i].provider.id != p.id
    {
      assert slots[i].provider == ps[i] && ps[i] in ps;
      SlotProviderListed(providers, maxConnections, ps[i]);
      SameIdSameProvider(providers, ps[i], backup);
      SameIdSameProvider(providers, ps[i], p);
    }
    var b :| 0 <= b < |ps| && ps[b] == backup;
    assert slots[b].provider.id == backup.id;
    assert p.id in PrimaryIds(providers);
  }

  /** A provider the limit does not show is out of reach. */
  lemma HiddenProvider(providers: seq<Provider>, maxConnections: int, limit: int) returns (id: string)
    requires DistinctIds(providers) && !Shown(providers, maxConnections, limit)
    ensures var initial := Initial(providers, maxConnections); OutOfReach(initial, id, Seen(limit, |initial.pool.slots|))
  {
    var ps := SlotProviders(providers, maxConnections, 0);
    var slots := InitialSlots(providers, maxConnections);
    var p :| p in ps && p !in ps[..Seen(limit, |ps|)];
    id := p.id;
    SlotProviderListed(providers, maxConnections, p);
    forall i | 0 <= i < Seen(limit, |ps|)
      ensures slots[i].provider.id != id
    {
      assert slots[i].provider == ps[i] && ps[i] in ps && ps[i] in ps[..Seen(limit, |ps|)];
      SlotProviderListed(providers, maxConnections, ps[i]);
      SameIdSameProvider(providers, ps[i], p);
    }
    var b :| 0 <= b < |ps| && ps[b] == p;
    assert slots[b].provider.id == id;
  }

  lemma StartAlone(s: System, id: string) returns (s': System)
    requires s.fetches == map[] && s.pool.waiters == [] && id in SlotIds(s.pool.slots)
    requires forall i | 0 <= i < |s.pool.slots| :: !s.pool.slots[i].busy
    ensures s' == Apply(s, Start(0)) && Alone(s', {}) && s'.pool == s.pool && s'.primaries == s.primaries
  {
    s' := Apply(s, Start(0));
    SubsetSize({id}, SlotIds(s.pool.slots));
    assert s.pool.slots != [];
    assert s.primaries == {} <==> s.primaries <= {};
  }

  lemma SlotProviderListed(providers: seq<Provider>, maxConnections: int, p: Provider)
    requires p in SlotProviders(providers, maxConnections, 0)
    ensures p in providers
  {
    var n := SlotsCoverPrefix(providers, maxConnections, 0);
  }

  lemma SameIdSameProvider(providers: seq<Provider>, p: Provider, q: Provider)
    requires DistinctIds(providers) && p in providers && q in providers
    ensures p.id == q.id ==> p == q
  {
    var i :| 0 <= i < |providers| && providers[i] == p;
    var j :| 0 <= j < |providers| && providers[j] == q;
    assert p.id == q.id ==> i == j;
  }

  // ---------------------------------------------------------------------------
  // Exactly when a connection limit strands nobody

  /** With at least `limit` connections allowed, no run leaves a request waiting in an idle pool. */
  ghost predicate NoStranding(providers: seq<Provider>, maxConnections: int, limit: int) {
    forall steps, s | Runs(Initial(providers, maxConnections), steps, s) && AllowsAtLeast(steps, limit) && AllIdle(s) ::
      s.pool.waiters == []
  }

  /**
   For distinct provider ids, nobody is ever stranded under a limit exactly when the pool is
   covered and the slots the limit shows include every provider that has one. Each
   other pool has a run that leaves a request waiting while nobody holds a slot.
   */
  lemma NoStrandingIff(providers: seq<Provider>, maxConnections: int, limit: int)
    requires DistinctIds(providers)
    ensures NoStranding(providers, maxConnections, limit)
       <==> Covered(providers, maxConnections) && Shown(providers, maxConnections, limit)
  {
    hide Runs, Covered, Shown, OutOfReach, DistinctIds;
    if Covered(providers, maxConnections) && Shown(providers, maxConnections, limit) {
      forall steps, s | Runs(Initial(providers, maxConnections), steps, s) && AllowsAtLeast(steps, limit) && AllIdle(s)
        ensures s.pool.waiters == []
      {
        IdlePoolHasNoWaiters(providers, maxConnections, limit, steps, s);
      }
    } else {
      var id;
      if Covered(providers, maxConnections) {
        id := HiddenProvider(providers, maxConnections, limit);
      } else {
        id := UncoveredBackup(providers, maxConnections, limit);
      }
      var steps, s := StrandedRun(providers, maxConnections, limit, id);
    }
  }

  /** With providers in database order, every limit that shows them all is enough. */
  lemma DatabaseOrderStrandsNobody(providers: seq<Provider>, maxConnections: int, limit: int)
    requires PrimariesFirst(providers) && Shown(providers, maxConnections, limit)
    ensures NoStranding(providers, maxConnections, limit)
  {
    hide Runs, Covered, Shown, PrimariesFirst;
    CoveredWhenPrimariesFirst(providers, maxConnections);
    forall steps, s | Runs(Initial(providers, maxConnections), steps, s) && AllowsAtLeast(steps, limit) && AllIdle(s)
      ensures s.pool.waiters == []
    {
      IdlePoolHasNoWaiters(providers, maxConnections, limit, steps, s);
    }
  }

  /** Two primaries with one slot each. */
  const TWO_PRIMARIES := [Provider("p", 1, false), Provider("q", 1, false)]

  /** One connection is not enough for them: a request that needs the second provider is never served. */
  lemma OneConnectionStrands()
    ensures !NoStranding(TWO_PRIMARIES, 2, 1)
  {
    var p, q := TWO_PRIMARIES[0], TWO_PRIMARIES[1];
    assert SlotProviders(TWO_PRIMARIES[1..], 2, 1) == [q];
    assert SlotProviders(TWO_PRIMARIES, 2, 0) == [p, q];
    assert [p, q][..1] == [p];
    assert q in [p, q] && q !in [p];
    NoStrandingIff(TWO_PRIMARIES, 2, 1);
  }
}
