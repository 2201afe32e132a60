/**
 How many connections the policies allow, and what that means for the pool:
 `getMountedPool` and `getAllowedStreamingConnections` of
 src/services/mountedStream.service.ts.
 */
module NntpPoolLimits {
  import opened Bytes
  import opened NntpPool
  import opened NntpPoolProtocol
  import opened NntpPoolLiveness

  /** The settings these two look at; the priority is a percentage. */
  datatype Policy = Policy(streamingPriority: int, maxStreamingConnections: nat, maxTotalUsenetConnections: nat)

  function Clamp(value: int, min: int, max: int): int {
    Max(min, Min(max, value))
  }

  /** JavaScript's `||` on numbers. */
  function OrElse(a: int, b: int): int {
    if a != 0 then a else b
  }

  /** All connections of all providers, at least one. */
  function ConnectionTotal(providers: seq<Provider>): int {
    OrElse(SumConnections(providers), 1)
  }

  /** The size the pool is built with. */
  function PoolSize(policy: Policy, providers: seq<Provider>): int {
    var total := ConnectionTotal(providers);
    var maxConnections := Max(1, Min(OrElse(policy.maxStreamingConnections, total),
                                     Min(OrElse(policy.maxTotalUsenetConnections, total), total)));
    Min(total, maxConnections)
  }

  /** The connections reserved for streaming while anything streams. */
  function Reserved(policy: Policy): (r: int)
    ensures r >= 1
  {
    Max(1, policy.maxTotalUsenetConnections * Clamp(policy.streamingPriority, 0, 100) / 100)
  }

  /** How many connections a request may use while `activeStreams` streams are active. */
  function AllowedConnections(policy: Policy, activeStreams: nat): int {
    var reserved := if activeStreams > 0 then Reserved(policy) else 0;
    Clamp(Min(policy.maxStreamingConnections, OrElse(reserved, policy.maxStreamingConnections)),
          1, policy.maxStreamingConnections)
  }

  /** The policy sets no bound, or this many connections are within it. */
  predicate Within(n: int, bound: int) {
    bound == 0 || n <= bound
  }

  /**
   The pool is built for the largest number of connections that the providers have and both
   limits admit, where a limit of 0 is none; at least for one, unless there are fewer.
   */
  lemma PoolSizeIsLargest(policy: Policy, providers: seq<Provider>)
    requires SumConnections(providers) >= 1
    ensures var size := PoolSize(policy, providers);
      && 1 <= size <= SumConnections(providers)
      && Within(size, policy.maxStreamingConnections) && Within(size, policy.maxTotalUsenetConnections)
      && forall n: int | n <= SumConnections(providers) && Within(n, policy.maxStreamingConnections)
                         && Within(n, policy.maxTotalUsenetConnections) :: n <= size
  {
  }

  /** The pool a policy builds has as many slots as it is built for, when all providers have connections. */
  lemma PoolHasItsSize(policy: Policy, providers: seq<Provider>)
    requires providers != [] && forall p | p in providers :: p.connections >= 1
    ensures |InitialSlots(providers, PoolSize(policy, providers))| == PoolSize(policy, providers)
  {
    SumIsPositive(providers);
    PoolSizeIsLargest(policy, providers);
    SlotTotal(providers, PoolSize(policy, providers));
  }

  lemma {:induction false} SumIsPositive(providers: seq<Provider>)
    requires providers != [] && forall p | p in providers :: p.connections >= 1
    ensures SumConnections(providers) >= 1
  {
    assert providers[0] in providers;
    if |providers| > 1 {
      assert forall p | p in providers[1..] :: p in providers;
      SumIsPositive(providers[1..]);
    } else {
      assert providers[1..] == [];
    }
  }

  /**
   While nothing streams a request may use as many connections as configured for streaming.
   While anything does, it may use the streaming priority's percentage of all connections, if
   that is less. It may always use one.
   */
  lemma AllowedMeans(policy: Policy, activeStreams: nat)
    ensures var allowed := AllowedConnections(policy, activeStreams);
      && allowed >= 1
      && (allowed > 1 ==> allowed <= policy.maxStreamingConnections)
      && (activeStreams > 0 && 0 <= policy.streamingPriority <= 100 && allowed > 1 ==>
            100 * allowed <= policy.maxTotalUsenetConnections * policy.streamingPriority)
      && forall n: int |
           && 1 <= n <= policy.maxStreamingConnections
           && (activeStreams == 0 || 100 * n <= policy.maxTotalUsenetConnections * Clamp(policy.streamingPriority, 0, 100)) ::
           n <= allowed
  {
  }

  /** A priority above 100 counts as 100 percent, one below 0 as none. */
  lemma PriorityIsPercentage(policy: Policy)
    ensures policy.streamingPriority > 100 ==> Reserved(policy) == Reserved(policy.(streamingPriority := 100))
    ensures policy.streamingPriority == 100 ==> Reserved(policy) == Max(1, policy.maxTotalUsenetConnections)
    ensures policy.streamingPriority <= 0 ==> Reserved(policy) == 1
  {
  }

  /** Any active stream gives the least that is ever allowed. */
  lemma ActiveAllowsLeast(policy: Policy, activeStreams: nat)
    ensures 1 <= AllowedConnections(policy, 1) <= AllowedConnections(policy, activeStreams)
    ensures activeStreams > 0 ==> AllowedConnections(policy, activeStreams) == AllowedConnections(policy, 1)
  {
    hide Reserved;
  }

  /** Every request saw some number of active streams, which may change from one to the next. */
  ghost predicate AllowedBy(steps: seq<Step>, policy: Policy) {
    forall i | 0 <= i < |steps| && steps[i].Ask? :: AllowedAtSomeTime(steps[i].allowed, policy)
  }

  ghost predicate AllowedAtSomeTime(allowed: int, policy: Policy) {
    exists activeStreams: nat :: allowed == AllowedConnections(policy, activeStreams)
  }

  /** Under this policy no run leaves a request waiting in an idle pool, however many streams are active when. */
  ghost predicate PolicyStrandsNobody(providers: seq<Provider>, policy: Policy) {
    forall steps, s | Runs(Initial(providers, PoolSize(policy, providers)), steps, s) && AllowedBy(steps, policy) && AllIdle(s) ::
      s.pool.waiters == []
  }

  /**
   For distinct provider ids: a policy strands nobody exactly when the pool it builds is
   covered and the connections it allows a single active stream show every provider. More
   streams change nothing and none at all allows no less.
   */
  lemma PolicyStrandsNobodyIff(providers: seq<Provider>, policy: Policy)
    requires DistinctIds(providers)
    ensures PolicyStrandsNobody(providers, policy)
       <==> Covered(providers, PoolSize(policy, providers))
            && Shown(providers, PoolSize(policy, providers), AllowedConnections(policy, 1))
  {
    hide Runs, Covered, Shown, OutOfReach, DistinctIds, AllowedConnections, PoolSize, Stranded;
    var size, limit := PoolSize(policy, providers), AllowedConnections(policy, 1);
    if Covered(providers, size) && Shown(providers, size, limit) {
      forall steps, s | Runs(Initial(providers, size), steps, s) && AllowedBy(steps, policy) && AllIdle(s)
        ensures s.pool.waiters == []
      {
        AllowedIsEnough(steps, policy);
        IdlePoolHasNoWaiters(providers, size, limit, steps, s);
      }
    } else {
      var id;
      if Covered(providers, size) {
        id := HiddenProvider(providers, size, limit);
      } else {
        id := UncoveredBackup(providers, size, limit);
      }
      var steps, s := StrandedRun(providers, size, limit, id);
      StrandedWaits(s, limit);
      assert forall i | 0 <= i < |steps| && steps[i].Ask? :: AllowedAtSomeTime(steps[i].allowed, policy);
    }
  }

  lemma AllowedIsEnough(steps: seq<Step>, policy: Policy)
    requires AllowedBy(steps, policy)
    ensures AllowsAtLeast(steps, AllowedConnections(policy, 1))
  {
    forall i | 0 <= i < |steps| && steps[i].Ask?
      ensures steps[i].allowed >= AllowedConnections(policy, 1)
    {
      var activeStreams: nat :| steps[i].allowed == AllowedConnections(policy, activeStreams);
      ActiveAllowsLeast(policy, activeStreams);
    }
  }

  lemma StrandedWaits(s: System, limit: int)
    requires Stranded(s, limit)
    ensures AllIdle(s) && s.pool.waiters != []
  {
  }

  /** A policy whose reserved share covers its streaming limit shows every provider at all times. */
  lemma ShareCoversPool(providers: seq<Provider>, policy: Policy)
    requires 0 < policy.maxStreamingConnections <= Reserved(policy)
    ensures Shown(providers, PoolSize(policy, providers), AllowedConnections(policy, 1))
  {
    var size := PoolSize(policy, providers);
    if size >= 1 {
      SlotCountBounded(providers, size, 0);
      FullLimitShowsAll(providers, size, AllowedConnections(policy, 1));
    } else {
      OneShownIsEnough(providers, size, AllowedConnections(policy, 1));
    }
  }

  /** A pool of no size has the slots of its first provider only. */
  lemma OneShownIsEnough(providers: seq<Provider>, size: int, limit: int)
    requires size < 1
    ensures Shown(providers, size, limit)
  {
    var ps := SlotProviders(providers, size, 0);
    if providers != [] {
      assert ps == Repeat(providers[0], Share(providers[0], size, 0)) + [];
      assert ps[..Seen(limit, |ps|)][0] == providers[0];
    }
  }

  /** No streaming connections configured: two providers make a pool, and one connection is all a request gets. */
  lemma NoConfiguredLimitStrands()
    ensures !PolicyStrandsNobody(TWO_PRIMARIES, Policy(100, 0, 2))
  {
    var policy, p, q := Policy(100, 0, 2), TWO_PRIMARIES[0], TWO_PRIMARIES[1];
    assert SumConnections(TWO_PRIMARIES[1..]) == 1 && SumConnections(TWO_PRIMARIES) == 2;
    assert PoolSize(policy, TWO_PRIMARIES) == 2 && AllowedConnections(policy, 1) == 1;
    assert SlotProviders(TWO_PRIMARIES[1..], 2, 1) == [q];
    assert SlotProviders(TWO_PRIMARIES, 2, 0) == [p, q];
    assert [p, q][..1] == [p];
    assert q in [p, q] && q !in [p];
    PolicyStrandsNobodyIff(TWO_PRIMARIES, policy);
  }
}
