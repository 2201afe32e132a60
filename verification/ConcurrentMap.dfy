/**
 `mapWithConcurrency` of src/services/yencManifest.service.ts: workers that share
 a cursor and a result array. A worker runs undisturbed between claiming an index and
 awaiting the mapper, and again when the mapper has answered.
 */
module ConcurrentMap {
  import opened Bytes
  import opened Options

  datatype Worker = Ready | Working(index: nat) | Finished

  /** `calls[i]` counts how often the mapper was started for index i. */
  datatype State<T> = State(cursor: nat, results: seq<Option<T>>, workers: seq<Worker>, calls: seq<nat>)

  datatype Step = Claim(worker: nat) | Complete(worker: nat)

  function WorkerCount(concurrency: int, size: nat): (n: nat)
    ensures 1 <= n <= Max(1, concurrency)
    ensures concurrency >= 1 && size >= 1 ==> n <= size && (n == concurrency || n == size)
  {
    Max(1, Min(concurrency, size))
  }

  function Initial<T>(concurrency: int, size: nat): State<T> {
    State(0, seq(size, _ => None), seq(WorkerCount(concurrency, size), _ => Ready), seq(size, _ => 0))
  }

  predicate Enabled<T>(s: State<T>, step: Step) {
    match step
    case Claim(w) => w < |s.workers| && s.workers[w].Ready?
    case Complete(w) => w < |s.workers| && s.workers[w].Working?
  }

  /** The loop head claims the next index or ends the worker; an answer is stored. */
  function Apply<S, T>(s: State<T>, step: Step, values: seq<S>, mapper: (S, nat) -> T): State<T>
    requires Enabled(s, step)
    requires |s.results| == |s.calls| == |values|
  {
    match step
    case Claim(w) =>
      if s.cursor < |values| then
        s.(cursor := s.cursor + 1,
           workers := s.workers[w := Working(s.cursor)],
           calls := s.calls[s.cursor := s.calls[s.cursor] + 1])
      else
        s.(workers := s.workers[w := Finished])
    case Complete(w) =>
      var index := s.workers[w].index;
      s.(workers := s.workers[w := Ready],
         results := if index < |values| then s.results[index := Some(mapper(values[index], index))] else s.results)
  }

  ghost predicate WorkingOn<T>(s: State<T>, i: nat) {
    exists w :: 0 <= w < |s.workers| && s.workers[w] == Working(i)
  }

  ghost predicate Inv<S, T>(s: State<T>, values: seq<S>, mapper: (S, nat) -> T) {
    && |s.results| == |s.calls| == |values| && s.cursor <= |values|
    && (forall w | 0 <= w < |s.workers| && s.workers[w].Working? :: s.workers[w].index < s.cursor)
    && (forall w, v | 0 <= w < v < |s.workers| && s.workers[w].Working? && s.workers[v].Working? ::
          s.workers[w].index != s.workers[v].index)
    && (forall i | 0 <= i < |values| :: s.calls[i] == if i < s.cursor then 1 else 0)
    && (forall i | 0 <= i < s.cursor && !WorkingOn(s, i) :: s.results[i] == Some(mapper(values[i], i)))
  }

  ghost predicate Runs<S, T>(s: State<T>, steps: seq<Step>, s': State<T>, values: seq<S>, mapper: (S, nat) -> T)
    requires |s.results| == |s.calls| == |values|
    decreases |steps|
  {
    if steps == [] then s == s'
    else Enabled(s, steps[0]) && Runs(Apply(s, steps[0], values, mapper), steps[1..], s', values, mapper)
  }

  lemma StepKeepsInv<S, T>(s: State<T>, step: Step, values: seq<S>, mapper: (S, nat) -> T)
    requires Inv(s, values, mapper) && Enabled(s, step)
    ensures Inv(Apply(s, step, values, mapper), values, mapper)
  {
    var s', w := Apply(s, step, values, mapper), step.worker;
    assert forall v | 0 <= v < |s.workers| && v != w :: s'.workers[v] == s.workers[v];
    forall i | 0 <= i < s'.cursor && !WorkingOn(s', i)
      ensures s'.results[i] == Some(mapper(values[i], i))
    {
      if step.Claim? && s.cursor < |values| {
        assert s'.workers[w] == Working(s.cursor);
      }
      if WorkingOn(s, i) {
        var v :| 0 <= v < |s.workers| && s.workers[v] == Working(i);
      }
    }
  }

  /** What is left to do, in steps. */
  function Load(workers: seq<Worker>): nat {
    if workers == [] then 0
    else (match workers[0] case Ready => 1 case Working(_) => 2 case Finished => 0) + Load(workers[1..])
  }

  lemma {:induction false} LoadUpdate(workers: seq<Worker>, w: nat, to: Worker)
    requires w < |workers|
    ensures Load(workers[w := to]) + Load([workers[w]]) == Load(workers) + Load([to])
  {
    var updated := workers[w := to];
    if w == 0 {
      assert updated[1..] == workers[1..];
    } else {
      assert updated[1..] == workers[1..][w - 1 := to];
      LoadUpdate(workers[1..], w - 1, to);
    }
  }

  lemma {:induction false} LoadOfReady(n: nat)
    ensures Load(seq(n, _ => Ready)) == n
  {
    if n > 0 {
      assert seq(n, _ => Ready)[1..] == seq(n - 1, _ => Ready);
      LoadOfReady(n - 1);
    }
  }

  lemma {:induction false} RunKeepsInv<S, T>(s: State<T>, steps: seq<Step>, s': State<T>, values: seq<S>, mapper: (S, nat) -> T)
    requires Inv(s, values, mapper) && Runs(s, steps, s', values, mapper)
    ensures Inv(s', values, mapper) && |s'.workers| == |s.workers|
    ensures |steps| + 2 * (|values| - s'.cursor) + Load(s'.workers) == 2 * (|values| - s.cursor) + Load(s.workers)
    decreases |steps|
  {
    if steps != [] {
      var next := Apply(s, steps[0], values, mapper);
      StepKeepsInv(s, steps[0], values, mapper);
      LoadUpdate(s.workers, steps[0].worker, next.workers[steps[0].worker]);
      RunKeepsInv(next, steps[1..], s', values, mapper);
    }
  }

  function InFlight(workers: seq<Worker>): nat {
    if workers == [] then 0 else (if workers[0].Working? then 1 else 0) + InFlight(workers[1..])
  }

  lemma {:induction false} InFlightBounded(workers: seq<Worker>)
    ensures InFlight(workers) <= |workers|
  {
    if workers != [] {
      InFlightBounded(workers[1..]);
    }
  }

  /** The mapping a loop would compute. */
  function Mapped<S, T>(values: seq<S>, mapper: (S, nat) -> T): seq<Option<T>> {
    seq(|values|, i requires 0 <= i < |values| => Some(mapper(values[i], i)))
  }

  /**
   For every schedule: never more calls in flight than allowed, no index mapped
   twice, an end after at most this many steps, and when all workers have ended,
   every index was mapped once and the results are those of mapping in order.
   */
  lemma EveryScheduleMapsInOrder<S, T>(
    values: seq<S>, concurrency: int, mapper: (S, nat) -> T, steps: seq<Step>, s: State<T>)
    requires Runs(Initial(concurrency, |values|), steps, s, values, mapper)
    ensures InFlight(s.workers) <= Max(1, concurrency)
    ensures |s.calls| == |values| && forall i | 0 <= i < |values| :: s.calls[i] <= 1
    ensures |steps| <= 2 * |values| + WorkerCount(concurrency, |values|)
    ensures (forall w | 0 <= w < |s.workers| :: s.workers[w].Finished?) ==>
      s.results == Mapped(values, mapper) && forall i | 0 <= i < |values| :: s.calls[i] == 1
  {
    var initial := Initial<T>(concurrency, |values|);
    LoadOfReady(|initial.workers|);
    assert initial.workers == seq(|initial.workers|, _ => Ready);
    RunKeepsInv(initial, steps, s, values, mapper);
    InFlightBounded(s.workers);
    if forall w | 0 <= w < |s.workers| :: s.workers[w].Finished? {
      AllFinishedAtEnd(values, initial, steps, s, mapper);
    }
  }

  /** A worker only ends once every index is claimed. */
  lemma {:induction false} AllFinishedAtEnd<S, T>(values: seq<S>, s: State<T>, steps: seq<Step>, s': State<T>, mapper: (S, nat) -> T)
    requires Inv(s, values, mapper) && Runs(s, steps, s', values, mapper)
    requires (exists w :: 0 <= w < |s.workers| && s.workers[w].Finished?) ==> s.cursor == |values|
    ensures (exists w :: 0 <= w < |s'.workers| && s'.workers[w].Finished?) ==> s'.cursor == |values|
    decreases |steps|
  {
    if steps != [] {
      var next := Apply(s, steps[0], values, mapper);
      StepKeepsInv(s, steps[0], values, mapper);
      if w :| 0 <= w < |next.workers| && next.workers[w].Finished? {
        assert w == steps[0].worker || s.workers[w].Finished?;
      }
      AllFinishedAtEnd(values, next, steps[1..], s', mapper);
    }
  }
}
