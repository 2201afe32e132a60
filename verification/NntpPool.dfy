/**
 The connection pool `MountedNntpPool` of src/services/mountedStream.service.ts.

 Between two awaits the pool's code runs undisturbed, so the pool is modelled by
 the atomic pieces: finding a slot or queueing a waiter, handing a released slot
 on, and dropping an aborted waiter. The class does them in place; the functions on
 `Pool` values specify them and carry the protocol's proofs.
 */
module NntpPool {
  import opened Bytes
  import opened Options

  datatype Provider = Provider(id: string, connections: int, isBackup: bool)

  datatype Slot = Slot(provider: Provider, busy: bool, connected: bool)

  /** `scanned` records how many slots the request looked at before it queued. */
  datatype Waiter = Waiter(fetch: nat, excluded: set<string>, includeBackups: bool, scanned: nat)

  datatype Pool = Pool(slots: seq<Slot>, waiters: seq<Waiter>)

  /** The test both `acquire` and `release` make. */
  predicate Accepts(p: Provider, excluded: set<string>, includeBackups: bool) {
    p.id !in excluded && (includeBackups || !p.isBackup)
  }

  predicate Suits(s: Slot, w: Waiter) {
    Accepts(s.provider, w.excluded, w.includeBackups)
  }

  // ---------------------------------------------------------------------------
  // The slots a pool starts with

  /** How many slots a provider gets when `have` slots exist already. */
  function Share(p: Provider, maxConnections: int, have: nat): (n: nat)
    ensures n >= 1
    ensures have < maxConnections ==> have + n <= maxConnections
  {
    Max(1, Min(p.connections, maxConnections - have))
  }

  function Repeat(p: Provider, n: nat): (r: seq<Provider>)
    ensures |r| == n && forall i | 0 <= i < n :: r[i] == p
  {
    seq(n, _ => p)
  }

  /** The providers of the slots, in slot order. */
  function SlotProviders(providers: seq<Provider>, maxConnections: int, have: nat): seq<Provider> {
    if providers == [] then []
    else
      var n := Share(providers[0], maxConnections, have);
      Repeat(providers[0], n)
      + (if have + n >= maxConnections then [] else SlotProviders(providers[1..], maxConnections, have + n))
  }

  function Idle(p: Provider): Slot {
    Slot(p, false, false)
  }

  function InitialSlots(providers: seq<Provider>, maxConnections: int): (r: seq<Slot>)
    ensures |r| == |SlotProviders(providers, maxConnections, 0)|
    ensures forall i | 0 <= i < |r| :: r[i] == Idle(SlotProviders(providers, maxConnections, 0)[i])
  {
    var ps := SlotProviders(providers, maxConnections, 0);
    seq(|ps|, i requires 0 <= i < |ps| => Idle(ps[i]))
  }

  /** With room for at least one, the pool never gets more slots than allowed. */
  lemma {:induction false} SlotCountBounded(providers: seq<Provider>, maxConnections: int, have: nat)
    requires have < maxConnections
    ensures have + |SlotProviders(providers, maxConnections, have)| <= maxConnections
  {
    if providers != [] {
      var n := Share(providers[0], maxConnections, have);
      if have + n < maxConnections {
        SlotCountBounded(providers[1..], maxConnections, have + n);
      }
    }
  }

  /** Every provider's own connections, one provider behind the other; at least one each. */
  function AllConnections(providers: seq<Provider>): seq<Provider> {
    if providers == [] then []
    else Repeat(providers[0], if providers[0].connections > 1 then providers[0].connections else 1) + AllConnections(providers[1..])
  }

  /** The first elements of a sequence, all of them if there are no more. */
  function FirstOf<T>(s: seq<T>, n: nat): seq<T> {
    if n < |s| then s[..n] else s
  }

  lemma FirstOfConcat<T>(a: seq<T>, b: seq<T>, n: nat)
    ensures FirstOf(a + b, n) == if n <= |a| then FirstOf(a, n) else a + FirstOf(b, n - |a|)
  {
  }

  /** The pool takes as many of them as there is room for, in that order, and never none. */
  lemma {:induction false} SlotsAreFirstConnections(providers: seq<Provider>, maxConnections: int, have: nat)
    ensures SlotProviders(providers, maxConnections, have)
         == FirstOf(AllConnections(providers), if maxConnections - have > 1 then maxConnections - have else 1)
  {
    if providers != [] {
      var p, n := providers[0], Share(providers[0], maxConnections, have);
      var own := Repeat(p, if p.connections > 1 then p.connections else 1);
      var room := if maxConnections - have > 1 then maxConnections - have else 1;
      FirstOfConcat(own, AllConnections(providers[1..]), room);
      assert FirstOf(own, n) == Repeat(p, n);
      if have + n < maxConnections {
        SlotsAreFirstConnections(providers[1..], maxConnections, have + n);
      }
    }
  }

  function SumConnections(providers: seq<Provider>): int {
    if providers == [] then 0 else providers[0].connections + SumConnections(providers[1..])
  }

  lemma {:induction false} ConnectionsAddUp(providers: seq<Provider>)
    requires forall p | p in providers :: p.connections >= 1
    ensures |AllConnections(providers)| == SumConnections(providers)
  {
    if providers != [] {
      assert providers[0] in providers;
      assert forall p | p in providers[1..] :: p in providers;
      ConnectionsAddUp(providers[1..]);
    }
  }

  /** Providers that all have connections fill the pool up to its limit, or with all they have. */
  lemma SlotTotal(providers: seq<Provider>, maxConnections: int)
    requires maxConnections >= 1 && forall p | p in providers :: p.connections >= 1
    ensures |InitialSlots(providers, maxConnections)| == Min(maxConnections, SumConnections(providers))
  {
    ConnectionsAddUp(providers);
    SlotsAreFirstConnections(providers, maxConnections, 0);
  }

  /** The slots belong to exactly the first `n` providers, all of them. */
  lemma {:induction false} SlotsCoverPrefix(providers: seq<Provider>, maxConnections: int, have: nat) returns (n: nat)
    ensures n <= |providers| && (providers != [] ==> n > 0)
    ensures forall p :: p in SlotProviders(providers, maxConnections, have) <==> p in providers[..n]
  {
    if providers == [] {
      n := 0;
    } else {
      var share := Share(providers[0], maxConnections, have);
      var own := Repeat(providers[0], share);
      assert own[0] == providers[0];
      if have + share >= maxConnections {
        n := 1;
        assert own + [] == own;
      } else {
        var k := SlotsCoverPrefix(providers[1..], maxConnections, have + share);
        n := k + 1;
        assert providers[..n] == [providers[0]] + providers[1..][..k];
      }
    }
  }

  // ---------------------------------------------------------------------------
  // acquire

  /** The first free slot among the first `limit` that the request accepts. */
  function FirstFree(slots: seq<Slot>, limit: nat, w: Waiter): (r: Option<nat>)
    ensures r.Some? ==> r.value < |slots| && r.value < limit
    ensures r.Some? ==> !slots[r.value].busy && Suits(slots[r.value], w)
    ensures forall j | 0 <= j < |slots| && j < (if r.Some? then r.value else limit) :: slots[j].busy || !Suits(slots[j], w)
  {
    if slots == [] || limit == 0 then None
    else if !slots[0].busy && Suits(slots[0], w) then Some(0)
    else
      match FirstFree(slots[1..], limit - 1, w)
      case None => None
      case Some(i) => Some(i + 1)
  }

  /** `activeSlots`: how many slots may be used right now. */
  function ActiveLimit(allowed: int, slotCount: nat): (limit: nat)
    ensures limit >= 1 && (allowed >= slotCount ==> limit >= slotCount)
  {
    Max(1, Min(allowed, slotCount))
  }

  /**
   A request gets a slot exactly when one of those it is allowed to look at, never none, is
   free and acceptable, and then the first such.
   */
  lemma AcquireWithinAllowed(p: Pool, w: Waiter, allowed: int)
    ensures var found := Acquire(p, w, allowed).1;
      && (found.Some? <==>
            exists i :: 0 <= i < |p.slots| && (i < allowed || i == 0) && !p.slots[i].busy && Suits(p.slots[i], w))
      && (found.Some? ==>
            && found.value < |p.slots| && (found.value < allowed || found.value == 0)
            && forall j | 0 <= j < found.value :: p.slots[j].busy || !Suits(p.slots[j], w))
  {
    hide FirstFree;
  }

  /** Either some slot turns busy, or the request joins the end of the queue. */
  function Acquire(p: Pool, w: Waiter, allowed: int): (Pool, Option<nat>) {
    var limit := ActiveLimit(allowed, |p.slots|);
    match FirstFree(p.slots, limit, w)
    case Some(i) => (p.(slots := p.slots[i := p.slots[i].(busy := true)]), Some(i))
    case None => (p.(waiters := p.waiters + [w.(scanned := limit)]), None)
  }

  // ---------------------------------------------------------------------------
  // release

  /** The longest waiting request that accepts the provider. */
  function FirstWaiter(waiters: seq<Waiter>, provider: Provider): (r: Option<nat>)
    ensures r.Some? ==>
      r.value < |waiters| && Accepts(provider, waiters[r.value].excluded, waiters[r.value].includeBackups)
    ensures forall j | 0 <= j < (if r.Some? then r.value else |waiters|) ::
      !Accepts(provider, waiters[j].excluded, waiters[j].includeBackups)
  {
    if waiters == [] then None
    else if Accepts(provider, waiters[0].excluded, waiters[0].includeBackups) then Some(0)
    else
      match FirstWaiter(waiters[1..], provider)
      case None => None
      case Some(k) => Some(k + 1)
  }

  function Without<T>(s: seq<T>, k: nat): (r: seq<T>)
    requires k < |s|
    ensures |r| == |s| - 1
    ensures forall j | 0 <= j < |r| :: r[j] == s[if j < k then j else j + 1]
  {
    s[..k] + s[k + 1..]
  }

  function Count(b: bool): nat {
    if b then 1 else 0
  }

  /** Connected slots nobody uses. */
  function IdleConnected(slots: seq<Slot>): nat {
    if slots == [] then 0 else Count(slots[0].connected && !slots[0].busy) + IdleConnected(slots[1..])
  }

  const MAX_IDLE_WARM_CONNECTIONS := 1

  /**
   Hands slot `i` to the first waiter that accepts it, or frees it; a freed slot
   keeps its connection only while no other idle slot has one.
   */
  function Release(p: Pool, i: nat): (Pool, Option<Waiter>)
    requires i < |p.slots|
  {
    var slot := p.slots[i];
    match FirstWaiter(p.waiters, slot.provider)
    case Some(k) =>
      (Pool(p.slots[i := slot.(busy := true)], Without(p.waiters, k)), Some(p.waiters[k]))
    case None =>
      var others := IdleConnected(p.slots[i := slot.(connected := false)]);
      var keep := slot.connected && others < MAX_IDLE_WARM_CONNECTIONS;
      (p.(slots := p.slots[i := slot.(busy := false, connected := keep)]), None)
  }

  lemma {:induction false} IdleConnectedUpdate(slots: seq<Slot>, i: nat, s: Slot)
    requires i < |slots|
    ensures IdleConnected(slots[i := s]) + Count(slots[i].connected && !slots[i].busy)
         == IdleConnected(slots) + Count(s.connected && !s.busy)
  {
    var updated := slots[i := s];
    if i == 0 {
      assert updated[1..] == slots[1..];
    } else {
      assert updated[1..] == slots[1..][i - 1 := s];
      IdleConnectedUpdate(slots[1..], i - 1, s);
    }
  }

  /** A release never leaves more idle connections than one, or than there were. */
  lemma ReleaseKeepsFewWarm(p: Pool, i: nat)
    requires i < |p.slots| && p.slots[i].busy
    ensures IdleConnected(Release(p, i).0.slots) <= Max(1, IdleConnected(p.slots))
  {
    IdleConnectedUpdate(p.slots, i, Release(p, i).0.slots[i]);
    IdleConnectedUpdate(p.slots, i, p.slots[i].(connected := false));
  }

  /**
   A freed slot stays connected if no other idle slot is, so one connection stays warm; a slot that
   is handed on stays as it is.
   */
  lemma ReleaseKeepsOneWarm(p: Pool, i: nat)
    requires i < |p.slots| && p.slots[i].busy && p.slots[i].connected
    ensures var released := Release(p, i).0.slots[i];
      && (released.busy ==> released.connected)
      && (!released.busy ==> (released.connected <==> IdleConnected(p.slots) == 0))
      && (!released.busy ==> IdleConnected(Release(p, i).0.slots) >= 1)
  {
    IdleConnectedUpdate(p.slots, i, Release(p, i).0.slots[i]);
    IdleConnectedUpdate(p.slots, i, p.slots[i].(connected := false));
  }

  // ---------------------------------------------------------------------------
  // abort

  /** Where a fetch waits, if it does. */
  function WaitingAt(waiters: seq<Waiter>, fetch: nat): (r: Option<nat>)
    ensures r.Some? ==> r.value < |waiters| && waiters[r.value].fetch == fetch
    ensures forall j | 0 <= j < (if r.Some? then r.value else |waiters|) :: waiters[j].fetch != fetch
  {
    if waiters == [] then None
    else if waiters[0].fetch == fetch then Some(0)
    else
      match WaitingAt(waiters[1..], fetch)
      case None => None
      case Some(k) => Some(k + 1)
  }

  /** The abort listener: leave the queue, if still in it. */
  function Abort(p: Pool, fetch: nat): Pool {
    match WaitingAt(p.waiters, fetch)
    case None => p
    case Some(k) => p.(waiters := Without(p.waiters, k))
  }

  // ---------------------------------------------------------------------------
  // The pool in place

  class PoolSlot {
    const provider: Provider
    var busy: bool
    var connected: bool

    constructor (provider: Provider)
      ensures this.provider == provider && !busy && !connected
    {
      this.provider := provider;
      busy, connected := false, false;
    }

    function View(): Slot
      reads this
    {
      Slot(provider, busy, connected)
    }
  }

  ghost function ViewOf(slots: seq<PoolSlot>): (r: seq<Slot>)
    reads slots
    ensures |r| == |slots| && forall i | 0 <= i < |slots| :: r[i] == slots[i].View()
  {
    seq(|slots|, i requires 0 <= i < |slots| reads slots => slots[i].View())
  }

  ghost predicate Distinct(slots: seq<PoolSlot>) {
    forall i, j | 0 <= i < j < |slots| :: slots[i] != slots[j]
  }

  function ProvidersOf(slots: seq<PoolSlot>): (r: seq<Provider>)
    ensures |r| == |slots| && forall i | 0 <= i < |r| :: r[i] == slots[i].provider
  {
    seq(|slots|, i requires 0 <= i < |slots| => slots[i].provider)
  }

  /** New slots no one else knows, all idle. */
  twostate predicate NewAndIdle(new slots: seq<PoolSlot>)
    reads slots
  {
    Distinct(slots) && forall s | s in slots :: fresh(s) && !s.busy && !s.connected
  }

  /** The inner loop of the constructor: `limit` more slots for one provider. */
  method AddSlots(built: seq<PoolSlot>, provider: Provider, limit: nat) returns (more: seq<PoolSlot>)
    requires Distinct(built) && forall s | s in built :: !s.busy && !s.connected
    ensures built <= more && Distinct(more)
    ensures forall s | s in more :: s in built || fresh(s)
    ensures forall s | s in more :: !s.busy && !s.connected
    ensures ProvidersOf(more) == ProvidersOf(built) + Repeat(provider, limit)
  {
    more := built;
    var index := 0;
    while index < limit
      invariant index <= limit && |more| == |built| + index
      invariant built <= more && Distinct(more)
      invariant forall s | s in more :: s in built || fresh(s)
      invariant forall s | s in more :: !s.busy && !s.connected
      invariant ProvidersOf(more) == ProvidersOf(built) + Repeat(provider, index)
    {
      var slot := new PoolSlot(provider);
      more := more + [slot];
      index := index + 1;
    }
  }

  /** The outer loop: one share per provider until the pool is full. */
  method BuildSlots(providers: seq<Provider>, maxConnections: int) returns (built: seq<PoolSlot>)
    ensures NewAndIdle(built) && ProvidersOf(built) == SlotProviders(providers, maxConnections, 0)
  {
    hide Repeat, SlotProviders, ProvidersOf, Distinct;
    NoSlots();
    built := [];
    var k := 0;
    ghost var wanted := SlotProviders(providers, maxConnections, 0);
    ghost var rest := wanted;
    assert providers[0..] == providers;
    while k < |providers|
      invariant k <= |providers| && NewAndIdle(built)
      invariant rest == SlotProviders(providers[k..], maxConnections, |built|)
      invariant wanted == ProvidersOf(built) + rest
    {
      var limit := Max(1, Min(providers[k].connections, maxConnections - |built|));
      ghost var before := built;
      SlotProvidersStep(providers, k, maxConnections, |built|);
      built := AddSlots(built, providers[k], limit);
      rest := if |built| >= maxConnections then [] else SlotProviders(providers[k + 1..], maxConnections, |built|);
      Reassociate(ProvidersOf(before), Repeat(providers[k], limit), rest);
      if |built| >= maxConnections {
        break;
      }
      k := k + 1;
    }
    assert k == |providers| ==> providers[k..] == [];
    SlotProvidersOfNone(maxConnections, |built|);
    assert ProvidersOf(built) + [] == ProvidersOf(built);
  }

  lemma NoSlots()
    ensures Distinct([]) && ProvidersOf([]) == []
  {
  }

  lemma SlotProvidersOfNone(maxConnections: int, have: nat)
    ensures SlotProviders([], maxConnections, have) == []
  {
  }

  lemma SlotProvidersStep(providers: seq<Provider>, k: nat, maxConnections: int, have: nat)
    requires k < |providers|
    ensures var n := Share(providers[k], maxConnections, have);
      SlotProviders(providers[k..], maxConnections, have)
      == Repeat(providers[k], n)
         + if have + n >= maxConnections then [] else SlotProviders(providers[k + 1..], maxConnections, have + n)
  {
    assert providers[k..][0] == providers[k] && providers[k..][1..] == providers[k + 1..];
  }

  class MountedNntpPool {
    const slots: seq<PoolSlot>
    var waiters: seq<Waiter>
    const primaryProviderIds: set<string>

    ghost function View(): Pool
      reads this, slots
    {
      Pool(ViewOf(slots), waiters)
    }

    ghost predicate Valid()
    {
      Distinct(slots)
    }

    constructor (providers: seq<Provider>, maxConnections: int)
      ensures Valid() && fresh(slots)
      ensures View() == Pool(InitialSlots(providers, maxConnections), [])
      ensures primaryProviderIds == set p | p in providers && !p.isBackup :: p.id
    {
      var built := BuildSlots(providers, maxConnections);
      // The source's fallback to the first provider only applies to an empty list.
      slots := built;
      waiters := [];
      primaryProviderIds := set p | p in providers && !p.isBackup :: p.id;
      new;
      assert View().slots == InitialSlots(providers, maxConnections);
    }

    /**
     `acquire` after its await: finds a slot or queues the request. `fetch` names
     the promise to be resolved.
     */
    method AcquireSlot(fetch: nat, excludedProviders: set<string>, includeBackups: bool, allowed: int)
      returns (found: Option<nat>)
      requires Valid()
      modifies this, slots
      ensures Valid()
      ensures (View(), found) == Acquire(old(View()), Waiter(fetch, excludedProviders, includeBackups, 0), allowed)
    {
      hide FirstFree, IdleConnected;
      var limit := ActiveLimit(allowed, |slots|);
      ghost var before, request := View(), Waiter(fetch, excludedProviders, includeBackups, 0);
      var index := 0;
      while index < limit && index < |slots|
        invariant index <= limit && index <= |slots|
        invariant View() == before
        invariant forall j | 0 <= j < index :: before.slots[j].busy || !Suits(before.slots[j], request)
      {
        var slot := slots[index];
        if !slot.busy && Accepts(slot.provider, excludedProviders, includeBackups) {
          assert FirstFree(before.slots, limit, request) == Some(index);
          slot.busy := true;
          assert ViewOf(slots) == before.slots[index := before.slots[index].(busy := true)];
          return Some(index);
        }
        index := index + 1;
      }
      assert FirstFree(before.slots, limit, request) == None;
      waiters := waiters + [Waiter(fetch, excludedProviders, includeBackups, limit)];
      return None;
    }

    /** `release`: hand the slot on or free it. The answer is the resolved waiter. */
    method ReleaseSlot(index: nat) returns (resolved: Option<Waiter>)
      requires Valid() && index < |slots|
      modifies this, slots
      ensures Valid()
      ensures (View(), resolved) == Release(old(View()), index)
    {
      ghost var before := View();
      var slot := slots[index];
      var waiterIndex := FirstWaiter(waiters, slot.provider);
      if waiterIndex.Some? {
        resolved := Some(waiters[waiterIndex.value]);
        waiters := Without(waiters, waiterIndex.value);
        slot.busy := true;
        assert ViewOf(slots) == before.slots[index := before.slots[index].(busy := true)];
        return;
      }
      slot.busy := false;
      assert ViewOf(slots) == before.slots[index := before.slots[index].(busy := false)];
      IdleConnectedUpdate(before.slots, index, before.slots[index].(connected := false));
      IdleConnectedUpdate(before.slots, index, before.slots[index].(busy := false, connected := false));
      assert ViewOf(slots)[index := ViewOf(slots)[index].(connected := false)]
          == before.slots[index := before.slots[index].(busy := false, connected := false)];
      var connectedIdleSlots := CountIdleConnected(index);
      if slot.connected && connectedIdleSlots >= MAX_IDLE_WARM_CONNECTIONS {
        slot.connected := false;
      }
      assert ViewOf(slots) == Release(before, index).0.slots;
      resolved := None;
    }

    /** The connected idle slots besides slot `index`. */
    method CountIdleConnected(index: nat) returns (n: nat)
      requires index < |slots|
      ensures n == IdleConnected(ViewOf(slots)[index := ViewOf(slots)[index].(connected := false)])
    {
      n := 0;
      var k := |slots|;
      ghost var view := ViewOf(slots)[index := ViewOf(slots)[index].(connected := false)];
      while k > 0
        invariant 0 <= k <= |slots|
        invariant n == IdleConnected(view[k..])
      {
        k := k - 1;
        assert view[k..][1..] == view[k + 1..];
        if k != index && slots[k].connected && !slots[k].busy {
          n := n + 1;
        }
      }
      assert view[0..] == view;
    }

    /** The abort listener. */
    method AbortWait(fetch: nat)
      requires Valid()
      modifies this`waiters
      ensures Valid() && View() == Abort(old(View()), fetch)
    {
      var index := WaitingAt(waiters, fetch);
      if index.Some? {
        waiters := Without(waiters, index.value);
      }
    }

    /** `allPrimaryProvidersFailed`: counting agrees with inclusion. */
    method AllPrimaryProvidersFailed(permanentFailures: set<string>) returns (all: bool)
      ensures all <==> primaryProviderIds <= permanentFailures
    {
      if |primaryProviderIds| == 0 {
        assert primaryProviderIds == {};
        return true;
      }
      var failed := 0;
      var left := primaryProviderIds;
      while left != {}
        invariant left <= primaryProviderIds
        invariant failed == |(primaryProviderIds - left) * permanentFailures|
        decreases |left|
      {
        var providerId :| providerId in left;
        ghost var seen := (primaryProviderIds - left) * permanentFailures;
        left := left - {providerId};
        if providerId in permanentFailures {
          assert (primaryProviderIds - left) * permanentFailures == seen + {providerId};
          failed := failed + 1;
        } else {
          assert (primaryProviderIds - left) * permanentFailures == seen;
        }
      }
      assert primaryProviderIds - left == primaryProviderIds;
      IntersectionSize(primaryProviderIds, permanentFailures);
      return failed >= |primaryProviderIds|;
    }
  }

  lemma SubsetSize<T>(a: set<T>, b: set<T>)
    requires a <= b
    ensures |a| <= |b| && (|a| == |b| ==> a == b)
    decreases b
  {
    if a == {} {
      assert |b| == 0 ==> b == {};
    } else {
      var x :| x in a;
      SubsetSize(a - {x}, b - {x});
      assert a == (a - {x}) + {x} && b == (b - {x}) + {x};
    }
  }

  lemma IntersectionSize<T>(a: set<T>, b: set<T>)
    ensures |a * b| >= |a| <==> a <= b
  {
    SubsetSize(a * b, a);
    if a <= b {
      assert a * b == a;
    }
  }
}
