/**
 Every interleaving of readers that want articles: `getOrFetchSegmentBuffer` and
 `streamSegmentProgressively` of src/services/mountedStream.service.ts, cut at their
 awaits. Memory, disk and the table of fetches under way all go by file and segment
 number. What the policies say, what disk and network do, and which entries are evicted when
 is left open.
 */
module SegmentFetchProtocol {
  import opened Bytes
  import opened Options
  import opened SegmentCache

  /** Buffered whole, or handed on chunk by chunk to a consumer that may stop asking. */
  datatype Kind = Whole | Progressive

  datatype Phase =
    | Asking
    | AtDisk
    | Unclaimed
    | Leading
    | Storing
    | Settling
    | Joined(leader: nat)
    | Answered(body: Buffer)
    | Failed
    | Abandoned
  {
    /** Its promise is registered and not yet settled. */
    predicate Working() {
      Leading? || Storing? || Settling?
    }

    /** It has registered a promise at some time. */
    predicate HasLed() {
      Working() || Answered? || Failed? || Abandoned?
    }
  }

  /** One call, and whether the policy it read lets it use the cache. */
  datatype Reader = Reader(ref: ArticleRef, kind: Kind, cached: bool, phase: Phase)

  datatype System = System(
    hot: map<Key, Buffer>,
    disk: map<Key, Buffer>,
    inFlight: map<Key, nat>,
    readers: map<nat, Reader>)

  datatype Step =
    | Start(reader: nat, ref: ArticleRef, kind: Kind)
    | Look(reader: nat, enabled: bool)
    | ReadDisk(reader: nat, readable: bool)
    | Register(reader: nat)
    | Complete(reader: nat)
    | WriteDisk(reader: nat, written: bool)
    | Resolve(reader: nat)
    | Fail(reader: nat)
    | Abandon(reader: nat)
    | Settle(reader: nat)
    | Evict(key: Key, fromDisk: bool)

  const EMPTY := System(map[], map[], map[], map[])

  function PhaseOf(s: System, t: nat): Phase
    requires t in s.readers
  {
    s.readers[t].phase
  }

  function InPhase(s: System, t: nat, phase: Phase): System
    requires t in s.readers
  {
    s.(readers := s.readers[t := s.readers[t].(phase := phase)])
  }

  /** A look at the table of fetches: join the one registered, or go on to register. */
  function AtTable(s: System, t: nat): Phase
    requires t in s.readers
  {
    var key := s.readers[t].ref.Key();
    if key in s.inFlight then Joined(s.inFlight[key]) else Unclaimed
  }

  /** The end of a fetch takes the entry under its key out of the table, whoever's it is. */
  function Ended(s: System, t: nat, phase: Phase): System
    requires t in s.readers
  {
    InPhase(s.(inFlight := s.inFlight - {s.readers[t].ref.Key()}), t, phase)
  }

  predicate Enabled(s: System, step: Step) {
    match step
    case Start(t, _, _) => t !in s.readers
    case Look(t, _) => t in s.readers && PhaseOf(s, t) == Asking
    case ReadDisk(t, _) => t in s.readers && PhaseOf(s, t) == AtDisk
    case Register(t) => t in s.readers && PhaseOf(s, t) == Unclaimed
    case Complete(t) => t in s.readers && PhaseOf(s, t) == Leading
    case WriteDisk(t, _) => t in s.readers && PhaseOf(s, t) == Storing
    case Resolve(t) => t in s.readers && PhaseOf(s, t) == Settling
    case Fail(t) => t in s.readers && PhaseOf(s, t) == Leading
    case Abandon(t) => t in s.readers && PhaseOf(s, t) == Leading && s.readers[t].kind == Progressive
    case Settle(t) =>
      && t in s.readers && PhaseOf(s, t).Joined? && PhaseOf(s, t).leader in s.readers
      && (PhaseOf(s, PhaseOf(s, t).leader).Answered? || PhaseOf(s, PhaseOf(s, t).leader).Failed?)
    case Evict(_, _) => true
  }

  function Apply(articles: Articles, s: System, step: Step): System
    requires Enabled(s, step)
  {
    match step
    case Start(t, ref, kind) =>
      s.(readers := s.readers[t := Reader(ref, kind, false, Asking)])
    case Look(t, enabled) =>
      var key, s' := s.readers[t].ref.Key(), s.(readers := s.readers[t := s.readers[t].(cached := enabled)]);
      if !enabled then InPhase(s', t, AtTable(s', t))
      else if key in s.hot then InPhase(s', t, Answered(s.hot[key]))
      else InPhase(s', t, AtDisk)
    case ReadDisk(t, readable) =>
      var key := s.readers[t].ref.Key();
      if readable && key in s.disk then InPhase(s.(hot := s.hot[key := s.disk[key]]), t, Answered(s.disk[key]))
      else InPhase(s, t, AtTable(s, t))
    case Register(t) =>
      InPhase(s.(inFlight := s.inFlight[s.readers[t].ref.Key() := t]), t, Leading)
    case Complete(t) =>
      var r := s.readers[t];
      if r.cached then InPhase(s.(hot := s.hot[r.ref.Key() := articles(r.ref.articleId)]), t, Storing)
      else InPhase(s, t, Settling)
    case WriteDisk(t, written) =>
      var r := s.readers[t];
      var body := articles(r.ref.articleId);
      InPhase(if written && body != [] then s.(disk := s.disk[r.ref.Key() := body]) else s, t, Settling)
    case Resolve(t) =>
      Ended(s, t, Answered(articles(s.readers[t].ref.articleId)))
    case Fail(t) =>
      Ended(s, t, Failed)
    case Abandon(t) =>
      // The generator's finally runs; its promise is neither resolved nor rejected.
      Ended(s, t, Abandoned)
    case Settle(t) =>
      var leader := s.readers[PhaseOf(s, t).leader];
      InPhase(s, t, if leader.phase.Answered? then Answered(articles(leader.ref.articleId)) else Failed)
    case Evict(key, fromDisk) =>
      if fromDisk then s.(disk := s.disk - {key}) else s.(hot := s.hot - {key})
  }

  ghost predicate Runs(articles: Articles, s: System, steps: seq<Step>, s': System)
    decreases |steps|
  {
    if steps == [] then s == s'
    else Enabled(s, steps[0]) && Runs(articles, Apply(articles, s, steps[0]), steps[1..], s')
  }

  /** Only these articles are ever asked for. */
  predicate AsksWithin(steps: seq<Step>, refs: set<ArticleRef>) {
    forall i | 0 <= i < |steps| && steps[i].Start? :: steps[i].ref in refs
  }

  lemma {:induction false} RunsAppend(articles: Articles, s: System, a: seq<Step>, s1: System, b: seq<Step>, s2: System)
    requires Runs(articles, s, a, s1) && Runs(articles, s1, b, s2)
    ensures Runs(articles, s, a + b, s2)
    decreases |a|
  {
    hide Apply, Enabled;
    if a == [] {
      assert a + b == b;
    } else {
      assert (a + b)[0] == a[0] && (a + b)[1..] == a[1..] + b;
      RunsAppend(articles, Apply(articles, s, a[0]), a[1..], s1, b, s2);
    }
  }

  // ---------------------------------------------------------------------------
  // What readers are answered

  ghost predicate StoresServe(s: System, articles: Articles, refs: set<ArticleRef>) {
    && (forall key | key in s.hot :: Serves(refs, articles, key, s.hot[key]))
    && (forall key | key in s.disk :: Serves(refs, articles, key, s.disk[key]))
  }

  /** Entries of the table are fetches at work, under their own keys. */
  ghost predicate TableOk(s: System) {
    forall key | key in s.inFlight ::
      s.inFlight[key] in s.readers && s.readers[s.inFlight[key]].ref.Key() == key && PhaseOf(s, s.inFlight[key]).Working()
  }

  ghost predicate ReaderOk(s: System, articles: Articles, refs: set<ArticleRef>, t: nat)
    requires t in s.readers
  {
    var r := s.readers[t];
    && r.ref in refs
    && (r.phase.Answered? ==> Serves(refs, articles, r.ref.Key(), r.phase.body))
    && (r.phase.Joined? ==>
          && r.phase.leader in s.readers && s.readers[r.phase.leader].ref.Key() == r.ref.Key()
          && PhaseOf(s, r.phase.leader).HasLed())
  }

  ghost predicate Inv(s: System, articles: Articles, refs: set<ArticleRef>) {
    StoresServe(s, articles, refs) && TableOk(s) && forall t | t in s.readers :: ReaderOk(s, articles, refs, t)
  }

  /** A reader that moves on takes nothing away from the others. */
  lemma OthersStayOk(s: System, s': System, articles: Articles, refs: set<ArticleRef>, t: nat)
    requires forall u | u in s.readers :: ReaderOk(s, articles, refs, u)
    requires t in s'.readers && s'.readers == s.readers[t := s'.readers[t]] && ReaderOk(s', articles, refs, t)
    requires t in s.readers ==> s'.readers[t].ref == s.readers[t].ref && (PhaseOf(s, t).HasLed() ==> PhaseOf(s', t).HasLed())
    ensures forall u | u in s'.readers :: ReaderOk(s', articles, refs, u)
  {
    hide Serves;
    forall u | u in s'.readers
      ensures ReaderOk(s', articles, refs, u)
    {
      if u != t {
        assert ReaderOk(s, articles, refs, u);
      }
    }
  }

  /** The articles that a step can bring into play are asked for under the reader's key. */
  lemma OwnServes(articles: Articles, s: System, refs: set<ArticleRef>, t: nat)
    requires Inv(s, articles, refs) && t in s.readers
    ensures var r := s.readers[t];
      && r.ref in refs && Serves(refs, articles, r.ref.Key(), articles(r.ref.articleId))
      && (r.phase.Joined? ==>
            r.phase.leader in s.readers && Serves(refs, articles, r.ref.Key(), articles(s.readers[r.phase.leader].ref.articleId)))
  {
    hide Serves;
    assert ReaderOk(s, articles, refs, t);
    OwnArticleServes(refs, articles, s.readers[t].ref);
    if PhaseOf(s, t).Joined? {
      assert ReaderOk(s, articles, refs, PhaseOf(s, t).leader);
      OwnArticleServes(refs, articles, s.readers[PhaseOf(s, t).leader].ref);
    }
  }

  lemma StoresStayServing(articles: Articles, s: System, step: Step, refs: set<ArticleRef>)
    requires Inv(s, articles, refs) && Enabled(s, step)
    ensures StoresServe(Apply(articles, s, step), articles, refs)
  {
    hide Serves, ReaderOk, TableOk;
    if !step.Evict? && step.reader in s.readers {
      OwnServes(articles, s, refs, step.reader);
    }
  }

  /** Only reader `t` moves, and it does not stop working. */
  lemma TableSame(s: System, s': System, t: nat)
    requires TableOk(s) && s'.inFlight == s.inFlight && t in s'.readers && s'.readers == s.readers[t := s'.readers[t]]
    requires t in s.readers ==>
      s'.readers[t].ref == s.readers[t].ref && (PhaseOf(s, t).Working() ==> PhaseOf(s', t).Working())
    ensures TableOk(s')
  {
  }

  /** Reader `t` is done: its key is out of the table. */
  lemma TableEnded(s: System, t: nat, phase: Phase)
    requires TableOk(s) && t in s.readers
    ensures TableOk(Ended(s, t, phase))
  {
  }

  lemma TableRegistered(articles: Articles, s: System, t: nat)
    requires TableOk(s) && Enabled(s, Register(t))
    ensures TableOk(Apply(articles, s, Register(t)))
  {
  }

  /** The steps after which the table is as before. */
  predicate LeavesTable(step: Step) {
    !(step.Register? || step.Resolve? || step.Fail? || step.Abandon? || step.Evict?)
  }

  lemma MoverKeepsWorking(articles: Articles, s: System, step: Step)
    requires Enabled(s, step) && LeavesTable(step)
    ensures var s', t := Apply(articles, s, step), step.reader;
      && s'.inFlight == s.inFlight && t in s'.readers && s'.readers == s.readers[t := s'.readers[t]]
      && (t in s.readers ==>
            s'.readers[t].ref == s.readers[t].ref && (PhaseOf(s, t).Working() ==> PhaseOf(s', t).Working()))
  {
  }

  lemma TableStaysOk(articles: Articles, s: System, step: Step)
    requires TableOk(s) && Enabled(s, step)
    ensures TableOk(Apply(articles, s, step))
  {
    hide TableOk;
    if LeavesTable(step) {
      MoverKeepsWorking(articles, s, step);
      hide Apply;
      TableSame(s, Apply(articles, s, step), step.reader);
    } else if step.Register? {
      TableRegistered(articles, s, step.reader);
    } else if step.Evict? {
      TableUntouched(s, Apply(articles, s, step));
    } else {
      TableEnded(s, step.reader, PhaseOf(Apply(articles, s, step), step.reader));
    }
  }

  lemma TableUntouched(s: System, s': System)
    requires TableOk(s) && s'.inFlight == s.inFlight && s'.readers == s.readers
    ensures TableOk(s')
  {
  }

  /** What a step does to its reader: one entry changes, and what was led stays led. */
  lemma MoverShape(articles: Articles, s: System, step: Step)
    requires Enabled(s, step) && !step.Evict?
    ensures var s', t := Apply(articles, s, step), step.reader;
      && t in s'.readers && s'.readers == s.readers[t := s'.readers[t]]
      && (t in s.readers ==> s'.readers[t].ref == s.readers[t].ref && (PhaseOf(s, t).HasLed() ==> PhaseOf(s', t).HasLed()))
      && (t !in s.readers ==> step.Start? && s'.readers[t].ref == step.ref && PhaseOf(s', t) == Asking)
  {
  }

  /** Whoever is answered gets what a store holds under its key, its own article or its leader's. */
  lemma MoverIsAnswered(articles: Articles, s: System, step: Step, refs: set<ArticleRef>)
    requires Inv(s, articles, refs) && Enabled(s, step) && !step.Evict? && step.reader in s.readers
    requires step.reader in Apply(articles, s, step).readers && PhaseOf(Apply(articles, s, step), step.reader).Answered?
    ensures Serves(refs, articles, s.readers[step.reader].ref.Key(), PhaseOf(Apply(articles, s, step), step.reader).body)
  {
    hide Serves, ReaderOk, TableOk;
    OwnServes(articles, s, refs, step.reader);
  }

  /** A reader that has just joined found its leader in the table. */
  lemma JoinsFromTable(articles: Articles, s: System, step: Step)
    requires Enabled(s, step) && !step.Evict? && step.reader in s.readers
    requires step.reader in Apply(articles, s, step).readers && PhaseOf(Apply(articles, s, step), step.reader).Joined?
    ensures var s', key := Apply(articles, s, step), s.readers[step.reader].ref.Key();
      && key in s.inFlight && PhaseOf(s', step.reader).leader == s.inFlight[key] && s'.inFlight == s.inFlight
      && s'.readers == s.readers[step.reader := s'.readers[step.reader]]
      && !PhaseOf(s, step.reader).Working()
  {
    assert step.Look? || step.ReadDisk?;
  }

  /** Whoever joins finds its leader in the table, at work under the same key. */
  lemma MoverJoins(articles: Articles, s: System, step: Step)
    requires TableOk(s) && Enabled(s, step) && !step.Evict? && step.reader in s.readers
    requires step.reader in Apply(articles, s, step).readers && PhaseOf(Apply(articles, s, step), step.reader).Joined?
    ensures var s', t := Apply(articles, s, step), step.reader;
      var l := PhaseOf(s', t).leader;
      && l in s.readers && PhaseOf(s, l).Working() && l != t
      && l in s'.readers && s'.readers[l] == s.readers[l] && s'.readers[l].ref.Key() == s.readers[t].ref.Key()
  {
    hide Apply;
    JoinsFromTable(articles, s, step);
  }

  lemma MoverStaysOk(articles: Articles, s: System, step: Step, refs: set<ArticleRef>)
    requires Inv(s, articles, refs) && Enabled(s, step) && !step.Evict? && (step.Start? ==> step.ref in refs)
    requires step.reader in Apply(articles, s, step).readers
    ensures ReaderOk(Apply(articles, s, step), articles, refs, step.reader)
  {
    var s', t := Apply(articles, s, step), step.reader;
    MoverShape(articles, s, step);
    if t in s.readers {
      assert ReaderOk(s, articles, refs, t);
      if PhaseOf(s', t).Answered? {
        MoverIsAnswered(articles, s, step, refs);
      } else if PhaseOf(s', t).Joined? {
        MoverJoins(articles, s, step);
      }
    }
    hide Apply, Serves, Enabled, StoresServe, TableOk;
  }

  lemma StepKeepsInv(articles: Articles, s: System, step: Step, refs: set<ArticleRef>)
    requires Inv(s, articles, refs) && Enabled(s, step) && (step.Start? ==> step.ref in refs)
    ensures Inv(Apply(articles, s, step), articles, refs)
  {
    StoresStayServing(articles, s, step, refs);
    TableStaysOk(articles, s, step);
    if step.Evict? {
      ReadersUntouched(s, Apply(articles, s, step), articles, refs);
    } else {
      MoverShape(articles, s, step);
      MoverStaysOk(articles, s, step, refs);
      hide Apply, ReaderOk, Enabled, StoresServe, TableOk;
      OthersStayOk(s, Apply(articles, s, step), articles, refs, step.reader);
    }
  }

  lemma ReadersUntouched(s: System, s': System, articles: Articles, refs: set<ArticleRef>)
    requires forall t | t in s.readers :: ReaderOk(s, articles, refs, t)
    requires s'.readers == s.readers
    ensures forall t | t in s'.readers :: ReaderOk(s', articles, refs, t)
  {
    hide Serves;
    forall t | t in s'.readers
      ensures ReaderOk(s', articles, refs, t)
    {
      assert ReaderOk(s, articles, refs, t);
    }
  }

  lemma {:induction false} RunKeepsInv(articles: Articles, s: System, steps: seq<Step>, s': System, refs: set<ArticleRef>)
    requires Inv(s, articles, refs) && Runs(articles, s, steps, s') && AsksWithin(steps, refs)
    ensures Inv(s', articles, refs)
    decreases |steps|
  {
    hide Inv, Apply, Enabled;
    if steps != [] {
      StepKeepsInv(articles, s, steps[0], refs);
      RunKeepsInv(articles, Apply(articles, s, steps[0]), steps[1..], s', refs);
    }
  }

  lemma EmptyInv(articles: Articles, refs: set<ArticleRef>)
    ensures Inv(EMPTY, articles, refs)
  {
  }

  /** Every answer in every run is an article that somebody asks for under the same key. */
  lemma AnswersShareKey(articles: Articles, steps: seq<Step>, s: System, refs: set<ArticleRef>, t: nat)
    requires Runs(articles, EMPTY, steps, s) && AsksWithin(steps, refs) && t in s.readers && PhaseOf(s, t).Answered?
    ensures s.readers[t].ref in refs && Serves(refs, articles, s.readers[t].ref.Key(), PhaseOf(s, t).body)
  {
    RunKeepsInv(articles, EMPTY, steps, s, refs);
    assert ReaderOk(s, articles, refs, t);
  }

  ghost predicate AllRight(articles: Articles, s: System) {
    forall t | t in s.readers && PhaseOf(s, t).Answered? :: PhaseOf(s, t).body == articles(s.readers[t].ref.articleId)
  }

  /** Whatever the articles and the run, every reader is answered the article it asked for. */
  ghost predicate AlwaysRight(refs: set<ArticleRef>) {
    forall articles: Articles, steps, s | Runs(articles, EMPTY, steps, s) && AsksWithin(steps, refs) :: AllRight(articles, s)
  }

  /** No two articles asked for share file and number. */
  ghost predicate KeysTell(refs: set<ArticleRef>) {
    forall r | r in refs :: SoleUser(refs, r)
  }

  // ---------------------------------------------------------------------------
  // Exactly when the answers are right

  lemma RunsSnoc(articles: Articles, s: System, steps: seq<Step>, s1: System, step: Step)
    requires Runs(articles, s, steps, s1) && Enabled(s1, step)
    ensures Runs(articles, s, steps + [step], Apply(articles, s1, step))
  {
    hide Apply, Enabled;
    assert [step][1..] == [];
    assert Runs(articles, s1, [step], Apply(articles, s1, step));
    RunsAppend(articles, s, steps, s1, [step], Apply(articles, s1, step));
  }

  /** The reader's first two steps. */
  lemma StartsLooking(articles: Articles, s: System, t: nat, ref: ArticleRef, kind: Kind, enabled: bool)
    returns (steps: seq<Step>, s': System)
    requires t !in s.readers
    ensures steps == [Start(t, ref, kind), Look(t, enabled)] && Runs(articles, s, steps, s')
    ensures s'.hot == s.hot && s'.disk == s.disk && s'.inFlight == s.inFlight
    ensures s'.readers == s.readers[t := Reader(ref, kind, enabled,
      if !enabled then (if ref.Key() in s.inFlight then Joined(s.inFlight[ref.Key()]) else Unclaimed)
      else if ref.Key() in s.hot then Answered(s.hot[ref.Key()])
      else AtDisk)]
  {
    steps := [Start(t, ref, kind)];
    var s1 := Apply(articles, s, steps[0]);
    assert steps[1..] == [] && Runs(articles, s, steps, s1);
    s' := Apply(articles, s1, Look(t, enabled));
    RunsSnoc(articles, s, steps, s1, Look(t, enabled));
    steps := steps + [Look(t, enabled)];
    assert s'.readers == s.readers[t := s'.readers[t]];
  }

  /** From registering to resolving, with nobody in between. */
  lemma LeadsToEnd(articles: Articles, s: System, t: nat) returns (steps: seq<Step>, s': System)
    requires t in s.readers && PhaseOf(s, t) == Unclaimed && s.inFlight == map[]
    ensures Runs(articles, s, steps, s') && forall i | 0 <= i < |steps| :: !steps[i].Start?
    ensures s'.inFlight == map[] && s'.disk == s.disk
    ensures var r := s.readers[t];
      && s'.hot == (if r.cached then s.hot[r.ref.Key() := articles(r.ref.articleId)] else s.hot)
      && s'.readers == s.readers[t := r.(phase := Answered(articles(r.ref.articleId)))]
  {
    hide Runs;
    var r := s.readers[t];
    steps := [];
    NoSteps(articles, s);
    var s1 := Apply(articles, s, Register(t));
    RunsSnoc(articles, s, steps, s, Register(t));
    steps := steps + [Register(t)];
    var s2 := Apply(articles, s1, Complete(t));
    RunsSnoc(articles, s, steps, s1, Complete(t));
    steps := steps + [Complete(t)];
    var s3 := s2;
    if r.cached {
      s3 := Apply(articles, s2, WriteDisk(t, false));
      RunsSnoc(articles, s, steps, s2, WriteDisk(t, false));
      steps := steps + [WriteDisk(t, false)];
    }
    s' := Apply(articles, s3, Resolve(t));
    RunsSnoc(articles, s, steps, s3, Resolve(t));
    steps := steps + [Resolve(t)];
    assert s'.readers == s.readers[t := s'.readers[t]];
  }

  lemma NoSteps(articles: Articles, s: System)
    ensures Runs(articles, s, [], s)
  {
  }

  /**
   Alone, a reader whose article is not in memory fetches it and is answered it; with the
   cache on, memory holds it afterwards.
   */
  lemma FetchesAlone(articles: Articles, s: System, t: nat, ref: ArticleRef, cached: bool) returns (steps: seq<Step>, s': System)
    requires t !in s.readers && s.inFlight == map[] && (cached ==> ref.Key() !in s.hot)
    ensures Runs(articles, s, steps, s') && AsksWithin(steps, {ref})
    ensures s'.inFlight == map[]
    ensures s'.hot == if cached then s.hot[ref.Key() := articles(ref.articleId)] else s.hot
    ensures s'.readers == s.readers[t := Reader(ref, Whole, cached, Answered(articles(ref.articleId)))]
  {
    hide Runs;
    var first, s1 := StartsLooking(articles, s, t, ref, Whole, cached);
    if cached {
      var s2 := Apply(articles, s1, ReadDisk(t, false));
      RunsSnoc(articles, s, first, s1, ReadDisk(t, false));
      first, s1 := first + [ReadDisk(t, false)], s2;
    }
    var rest;
    rest, s' := LeadsToEnd(articles, s1, t);
    RunsAppend(articles, s, first, s1, rest, s');
    steps := first + rest;
  }

  /** What memory holds under the key is what a reader with the cache on is answered. */
  lemma HitsMemory(articles: Articles, s: System, t: nat, ref: ArticleRef) returns (steps: seq<Step>, s': System)
    requires t !in s.readers && ref.Key() in s.hot
    ensures Runs(articles, s, steps, s') && AsksWithin(steps, {ref})
    ensures s'.hot == s.hot && s'.inFlight == s.inFlight
    ensures s'.readers == s.readers[t := Reader(ref, Whole, true, Answered(s.hot[ref.Key()]))]
  {
    hide Runs;
    steps, s' := StartsLooking(articles, s, t, ref, Whole, true);
  }

  /** Two articles under one key: the second reader is answered the first one's. */
  lemma ConfusedRun(articles: Articles, a: ArticleRef, b: ArticleRef) returns (steps: seq<Step>, s: System)
    requires a.Key() == b.Key()
    ensures Runs(articles, EMPTY, steps, s) && AsksWithin(steps, {a, b})
    ensures 1 in s.readers && s.readers[1].ref == b && PhaseOf(s, 1) == Answered(articles(a.articleId))
  {
    hide Runs;
    var first, s1 := FetchesAlone(articles, EMPTY, 0, a, true);
    var second;
    second, s := HitsMemory(articles, s1, 1, b);
    RunsAppend(articles, EMPTY, first, s1, second, s);
    steps := first + second;
  }

  /**
   Every reader of every run is answered the article it asked for, whatever the articles
   hold, exactly when no two articles in use share their file and number.
   */
  lemma AlwaysRightIff(refs: set<ArticleRef>)
    ensures AlwaysRight(refs) <==> KeysTell(refs)
  {
    hide Runs, AsksWithin;
    if KeysTell(refs) {
      forall articles: Articles, steps, s | Runs(articles, EMPTY, steps, s) && AsksWithin(steps, refs)
        ensures AllRight(articles, s)
      {
        SoleKeysAreRight(articles, steps, s, refs);
      }
    } else {
      var a :| a in refs && !SoleUser(refs, a);
      var b :| b in refs && b.Key() == a.Key() && b.articleId != a.articleId;
      var articles: Articles := id => if id == a.articleId then [1] else [];
      var steps, s := ConfusedRun(articles, a, b);
      FewerAsked(steps, {a, b}, refs);
      assert !AllRight(articles, s);
    }
  }

  lemma FewerAsked(steps: seq<Step>, few: set<ArticleRef>, refs: set<ArticleRef>)
    requires AsksWithin(steps, few) && few <= refs
    ensures AsksWithin(steps, refs)
  {
  }

  lemma SoleKeysAreRight(articles: Articles, steps: seq<Step>, s: System, refs: set<ArticleRef>)
    requires KeysTell(refs) && Runs(articles, EMPTY, steps, s) && AsksWithin(steps, refs)
    ensures AllRight(articles, s)
  {
    hide Runs, AsksWithin;
    forall t | t in s.readers && PhaseOf(s, t).Answered?
      ensures PhaseOf(s, t).body == articles(s.readers[t].ref.articleId)
    {
      AnswersShareKey(articles, steps, s, refs, t);
      SoleUserIsServed(refs, articles, s.readers[t].ref, PhaseOf(s, t).body);
    }
  }

  // ---------------------------------------------------------------------------
  // Who waits for whom

  /** It has its answer or its error. */
  predicate IsSettled(s: System, t: nat) {
    t in s.readers && (PhaseOf(s, t).Answered? || PhaseOf(s, t).Failed?)
  }

  /** Some continuation of the run settles the reader. */
  ghost predicate CanSettle(articles: Articles, s: System, t: nat) {
    exists steps, s' :: Runs(articles, s, steps, s') && IsSettled(s', t)
  }

  /** Its leader's consumer stopped asking before the end of the article. */
  predicate WaitsForNobody(s: System, t: nat) {
    && t in s.readers && PhaseOf(s, t).Joined?
    && PhaseOf(s, t).leader in s.readers && PhaseOf(s, PhaseOf(s, t).leader).Abandoned?
  }

  lemma StepKeepsWaiting(articles: Articles, s: System, step: Step, t: nat)
    requires WaitsForNobody(s, t) && Enabled(s, step)
    ensures WaitsForNobody(Apply(articles, s, step), t)
  {
    if step.Evict? {
    } else {
      assert step.reader != t && step.reader != PhaseOf(s, t).leader;
      OthersUntouched(articles, s, step, t);
      OthersUntouched(articles, s, step, PhaseOf(s, t).leader);
    }
  }

  lemma OthersUntouched(articles: Articles, s: System, step: Step, u: nat)
    requires Enabled(s, step) && u in s.readers && (step.Evict? || step.reader != u)
    ensures u in Apply(articles, s, step).readers && Apply(articles, s, step).readers[u] == s.readers[u]
  {
  }

  lemma {:induction false} RunKeepsWaiting(articles: Articles, s: System, steps: seq<Step>, s': System, t: nat)
    requires WaitsForNobody(s, t) && Runs(articles, s, steps, s')
    ensures WaitsForNobody(s', t)
    decreases |steps|
  {
    hide Apply, Enabled, WaitsForNobody;
    if steps != [] {
      StepKeepsWaiting(articles, s, steps[0], t);
      RunKeepsWaiting(articles, Apply(articles, s, steps[0]), steps[1..], s', t);
    }
  }

  /** A reader whose consumer stopped asking has left for good. */
  lemma {:induction false} RunKeepsAbandoned(articles: Articles, s: System, steps: seq<Step>, s': System, t: nat)
    requires t in s.readers && PhaseOf(s, t).Abandoned? && Runs(articles, s, steps, s')
    ensures t in s'.readers && PhaseOf(s', t).Abandoned?
    decreases |steps|
  {
    hide Apply;
    if steps != [] {
      OthersUntouched(articles, s, steps[0], t);
      RunKeepsAbandoned(articles, Apply(articles, s, steps[0]), steps[1..], s', t);
    }
  }

  /** A fetch at work can always be brought to its end. */
  lemma WorkingFinishes(articles: Articles, s: System, t: nat) returns (steps: seq<Step>, s': System)
    requires t in s.readers && PhaseOf(s, t).Working()
    ensures Runs(articles, s, steps, s') && t in s'.readers && PhaseOf(s', t).Answered?
    ensures s'.readers == s.readers[t := s'.readers[t]]
  {
    hide Runs;
    steps, s' := [], s;
    NoSteps(articles, s);
    if PhaseOf(s', t) == Leading {
      RunsSnoc(articles, s, steps, s', Complete(t));
      steps, s' := steps + [Complete(t)], Apply(articles, s', Complete(t));
    }
    if PhaseOf(s', t) == Storing {
      RunsSnoc(articles, s, steps, s', WriteDisk(t, false));
      steps, s' := steps + [WriteDisk(t, false)], Apply(articles, s', WriteDisk(t, false));
    }
    RunsSnoc(articles, s, steps, s', Resolve(t));
    steps, s' := steps + [Resolve(t)], Apply(articles, s', Resolve(t));
  }

  /** A reader that has looked at the table gets its answer unless its leader is gone. */
  lemma SettlesFromTable(articles: Articles, s: System, refs: set<ArticleRef>, t: nat)
    requires Inv(s, articles, refs) && t in s.readers && !WaitsForNobody(s, t)
    requires PhaseOf(s, t).Unclaimed? || PhaseOf(s, t).Joined? || PhaseOf(s, t).Working()
    ensures CanSettle(articles, s, t)
  {
    hide Runs, Serves, StoresServe, TableOk;
    assert ReaderOk(s, articles, refs, t);
    if PhaseOf(s, t).Unclaimed? {
      var s1 := Apply(articles, s, Register(t));
      NoSteps(articles, s);
      RunsSnoc(articles, s, [], s, Register(t));
      var rest, s' := WorkingFinishes(articles, s1, t);
      RunsAppend(articles, s, [] + [Register(t)], s1, rest, s');
      assert IsSettled(s', t);
    } else if PhaseOf(s, t).Joined? {
      SettlesJoined(articles, s, t);
    } else {
      var steps, s' := WorkingFinishes(articles, s, t);
      assert IsSettled(s', t);
    }
  }

  lemma SettlesJoined(articles: Articles, s: System, t: nat)
    requires t in s.readers && PhaseOf(s, t).Joined? && !WaitsForNobody(s, t)
    requires PhaseOf(s, t).leader in s.readers && PhaseOf(s, PhaseOf(s, t).leader).HasLed()
    ensures CanSettle(articles, s, t)
  {
    hide Runs;
    var l := PhaseOf(s, t).leader;
    var steps, s1 := [], s;
    NoSteps(articles, s);
    if PhaseOf(s, l).Working() {
      steps, s1 := WorkingFinishes(articles, s, l);
    }
    RunsSnoc(articles, s, steps, s1, Settle(t));
    assert IsSettled(Apply(articles, s1, Settle(t)), t);
  }

  lemma SettlesAfter(articles: Articles, s: System, step: Step, t: nat)
    requires Enabled(s, step) && CanSettle(articles, Apply(articles, s, step), t)
    ensures CanSettle(articles, s, t)
  {
    hide Apply, Enabled;
    var rest, s' :| Runs(articles, Apply(articles, s, step), rest, s') && IsSettled(s', t);
    assert ([step] + rest)[1..] == rest;
    assert Runs(articles, s, [step] + rest, s');
  }

  /**
   In every state a run can reach: a reader can still be answered, or told of a failure,
   exactly when neither it nor the leader it joined was abandoned by its consumer.
   */
  lemma CanSettleIff(articles: Articles, steps: seq<Step>, s: System, refs: set<ArticleRef>, t: nat)
    requires Runs(articles, EMPTY, steps, s) && AsksWithin(steps, refs) && t in s.readers
    ensures CanSettle(articles, s, t) <==> !PhaseOf(s, t).Abandoned? && !WaitsForNobody(s, t)
  {
    hide Runs, Inv, CanSettle, Apply;
    EmptyInv(articles, refs);
    RunKeepsInv(articles, EMPTY, steps, s, refs);
    if PhaseOf(s, t).Abandoned? || WaitsForNobody(s, t) {
      NeverSettles(articles, s, t);
    } else if IsSettled(s, t) {
      SettledCan(articles, s, t);
    } else if PhaseOf(s, t).Asking? {
      SettlesFromStart(articles, s, refs, t, Look(t, false));
    } else if PhaseOf(s, t).AtDisk? {
      SettlesFromStart(articles, s, refs, t, ReadDisk(t, false));
    } else {
      SettlesFromTable(articles, s, refs, t);
    }
  }

  lemma NeverSettles(articles: Articles, s: System, t: nat)
    requires t in s.readers && (PhaseOf(s, t).Abandoned? || WaitsForNobody(s, t))
    ensures !CanSettle(articles, s, t)
  {
    hide Runs;
    forall steps, s' | Runs(articles, s, steps, s')
      ensures !IsSettled(s', t)
    {
      if PhaseOf(s, t).Abandoned? {
        RunKeepsAbandoned(articles, s, steps, s', t);
      } else {
        RunKeepsWaiting(articles, s, steps, s', t);
      }
    }
  }

  lemma SettledCan(articles: Articles, s: System, t: nat)
    requires IsSettled(s, t)
    ensures CanSettle(articles, s, t)
  {
    NoSteps(articles, s);
  }

  /** The step that takes a reader to the table, where every entry is a fetch at work. */
  lemma SettlesFromStart(articles: Articles, s: System, refs: set<ArticleRef>, t: nat, step: Step)
    requires Inv(s, articles, refs) && Enabled(s, step) && t in s.readers
    requires step == Look(t, false) || step == ReadDisk(t, false)
    ensures CanSettle(articles, s, t)
  {
    hide Runs, CanSettle, Serves, StoresServe;
    var s1 := Apply(articles, s, step);
    StepKeepsInv(articles, s, step, refs);
    assert t in s1.readers && (PhaseOf(s1, t).Unclaimed? || PhaseOf(s1, t).Joined?);
    if PhaseOf(s1, t).Joined? {
      var l := PhaseOf(s1, t).leader;
      assert s.readers[l] == s1.readers[l] by { OthersUntouched(articles, s, step, l); }
    }
    SettlesFromTable(articles, s1, refs, t);
    SettlesAfter(articles, s, step, t);
  }

  // ---------------------------------------------------------------------------
  // What readers are told

  /** A joined reader is told exactly what its leader was, a body or a failure. */
  lemma JoinedHearsLeader(articles: Articles, steps: seq<Step>, s: System, refs: set<ArticleRef>, t: nat)
    requires Runs(articles, EMPTY, steps, s) && AsksWithin(steps, refs) && Enabled(s, Settle(t))
    ensures PhaseOf(Apply(articles, s, Settle(t)), t) == PhaseOf(s, PhaseOf(s, t).leader)
  {
    hide Runs, Apply, Inv;
    EmptyInv(articles, refs);
    RunKeepsInv(articles, EMPTY, steps, s, refs);
    EmptyLeadersOwn(articles);
    RunKeepsLeadersOwn(articles, EMPTY, steps, s, refs);
    SettleTells(articles, s, t);
  }

  /** A leader that was answered was answered its own article. */
  ghost predicate LeadersOwn(s: System, articles: Articles) {
    forall t, l | JoinedTo(s, t, l) && PhaseOf(s, l).Answered? :: PhaseOf(s, l).body == articles(s.readers[l].ref.articleId)
  }

  ghost predicate JoinedTo(s: System, t: nat, l: nat) {
    t in s.readers && PhaseOf(s, t) == Joined(l) && l in s.readers
  }

  lemma SettleTells(articles: Articles, s: System, t: nat)
    requires Enabled(s, Settle(t)) && LeadersOwn(s, articles)
    ensures PhaseOf(Apply(articles, s, Settle(t)), t) == PhaseOf(s, PhaseOf(s, t).leader)
  {
    assert JoinedTo(s, t, PhaseOf(s, t).leader);
  }

  lemma EmptyLeadersOwn(articles: Articles)
    ensures LeadersOwn(EMPTY, articles)
  {
  }

  lemma StepKeepsLeadersOwn(articles: Articles, s: System, step: Step, refs: set<ArticleRef>)
    requires Inv(s, articles, refs) && LeadersOwn(s, articles) && Enabled(s, step)
    ensures LeadersOwn(Apply(articles, s, step), articles)
  {
    hide Apply, Inv;
    var s' := Apply(articles, s, step);
    forall t, l | JoinedTo(s', t, l) && PhaseOf(s', l).Answered?
      ensures PhaseOf(s', l).body == articles(s'.readers[l].ref.articleId)
    {
      LeaderStaysOwn(articles, s, step, refs, t, l);
    }
  }

  lemma LeaderStaysOwn(articles: Articles, s: System, step: Step, refs: set<ArticleRef>, t: nat, l: nat)
    requires Inv(s, articles, refs) && LeadersOwn(s, articles) && Enabled(s, step)
    requires var s' := Apply(articles, s, step); JoinedTo(s', t, l) && PhaseOf(s', l).Answered?
    ensures var s' := Apply(articles, s, step); PhaseOf(s', l).body == articles(s'.readers[l].ref.articleId)
  {
    hide Serves, StoresServe, LeadersOwn, TableOk;
    if step.Evict? {
      OwnLeader(articles, s, t, l);
    } else if step.reader == t {
      MoverJoins(articles, s, step);
    } else {
      OthersUntouched(articles, s, step, t);
      assert ReaderOk(s, articles, refs, t);
      if step.reader != l {
        OthersUntouched(articles, s, step, l);
        OwnLeader(articles, s, t, l);
      }
    }
  }

  lemma OwnLeader(articles: Articles, s: System, t: nat, l: nat)
    requires LeadersOwn(s, articles) && JoinedTo(s, t, l) && PhaseOf(s, l).Answered?
    ensures PhaseOf(s, l).body == articles(s.readers[l].ref.articleId)
  {
  }

  lemma {:induction false} RunKeepsLeadersOwn(articles: Articles, s: System, steps: seq<Step>, s': System, refs: set<ArticleRef>)
    requires Inv(s, articles, refs) && LeadersOwn(s, articles) && Runs(articles, s, steps, s') && AsksWithin(steps, refs)
    ensures LeadersOwn(s', articles)
    decreases |steps|
  {
    hide Inv, Apply, Enabled, LeadersOwn;
    if steps != [] {
      StepKeepsInv(articles, s, steps[0], refs);
      StepKeepsLeadersOwn(articles, s, steps[0], refs);
      RunKeepsLeadersOwn(articles, Apply(articles, s, steps[0]), steps[1..], s', refs);
    }
  }

  /** The leader a reader has joined, now or in the course of the run. */
  ghost function LeaderIn(articles: Articles, s: System, steps: seq<Step>, t: nat): Option<nat>
    decreases |steps|
  {
    if t in s.readers && PhaseOf(s, t).Joined? then Some(PhaseOf(s, t).leader)
    else if steps == [] || !Enabled(s, steps[0]) then None
    else LeaderIn(articles, Apply(articles, s, steps[0]), steps[1..], t)
  }

  /** Its fetch has failed before or fails in the run. */
  ghost predicate FetchFails(s: System, steps: seq<Step>, t: nat) {
    (t in s.readers && PhaseOf(s, t).Failed?) || Fail(t) in steps
  }

  /** What is settled stays as it is. */
  lemma {:induction false} RunKeepsSettled(articles: Articles, s: System, steps: seq<Step>, s': System, t: nat)
    requires IsSettled(s, t) && Runs(articles, s, steps, s')
    ensures t in s'.readers && s'.readers[t] == s.readers[t] && Fail(t) !in steps
    decreases |steps|
  {
    hide Apply;
    if steps != [] {
      OthersUntouched(articles, s, steps[0], t);
      RunKeepsSettled(articles, Apply(articles, s, steps[0]), steps[1..], s', t);
      assert steps == [steps[0]] + steps[1..];
    }
  }

  /** It may still register a fetch, or has one at work. */
  predicate MayLead(s: System, l: nat) {
    l !in s.readers || !(PhaseOf(s, l).Joined? || PhaseOf(s, l).Answered? || PhaseOf(s, l).Failed? || PhaseOf(s, l).Abandoned?)
  }

  lemma StepOnlyEndsLeading(articles: Articles, s: System, step: Step, l: nat)
    requires Enabled(s, step) && MayLead(Apply(articles, s, step), l)
    ensures MayLead(s, l)
  {
    if !step.Evict? && l in s.readers && step.reader != l {
      OthersUntouched(articles, s, step, l);
    }
  }

  /** Whoever is joined later in the run is not itself a joined reader now. */
  lemma {:induction false} LeaderMayLead(articles: Articles, s: System, steps: seq<Step>, refs: set<ArticleRef>, t: nat)
    requires Inv(s, articles, refs) && LeaderIn(articles, s, steps, t).Some? && AsksWithin(steps, refs)
    ensures var l := LeaderIn(articles, s, steps, t).value;
      if t in s.readers && PhaseOf(s, t).Joined? then l in s.readers && PhaseOf(s, l).HasLed() else MayLead(s, l)
    decreases |steps|
  {
    hide Apply, Inv;
    if t in s.readers && PhaseOf(s, t).Joined? {
      JoinedLeaderHasLed(s, articles, refs, t);
    } else {
      var s1, l := Apply(articles, s, steps[0]), LeaderIn(articles, s, steps, t).value;
      StepKeepsInv(articles, s, steps[0], refs);
      LeaderMayLead(articles, s1, steps[1..], refs, t);
      if t in s1.readers && PhaseOf(s1, t).Joined? {
        JustJoined(articles, s, steps[0], refs, t);
      } else {
        StepOnlyEndsLeading(articles, s, steps[0], l);
      }
    }
  }

  lemma JoinedLeaderHasLed(s: System, articles: Articles, refs: set<ArticleRef>, t: nat)
    requires Inv(s, articles, refs) && t in s.readers && PhaseOf(s, t).Joined?
    ensures PhaseOf(s, t).leader in s.readers && PhaseOf(s, PhaseOf(s, t).leader).HasLed()
  {
    hide Serves;
    assert ReaderOk(s, articles, refs, t);
  }

  lemma NewReaderAsks(articles: Articles, s: System, step: Step, t: nat)
    requires Enabled(s, step) && t !in s.readers && t in Apply(articles, s, step).readers
    ensures PhaseOf(Apply(articles, s, step), t) == Asking
  {
  }

  /** The leader a reader joins in this step is at work. */
  lemma JustJoined(articles: Articles, s: System, step: Step, refs: set<ArticleRef>, t: nat)
    requires Inv(s, articles, refs) && Enabled(s, step) && !(t in s.readers && PhaseOf(s, t).Joined?)
    requires var s1 := Apply(articles, s, step); t in s1.readers && PhaseOf(s1, t).Joined?
    ensures MayLead(s, PhaseOf(Apply(articles, s, step), t).leader)
  {
    hide Serves, StoresServe, ReaderOk, Apply, Enabled;
    if t !in s.readers {
      NewReaderAsks(articles, s, step, t);
    } else if step.Evict? || step.reader != t {
      OthersUntouched(articles, s, step, t);
    } else {
      MoverJoins(articles, s, step);
    }
  }

  /** A step other than settling on a leader's result leaves open or decides by itself whether a fetch fails. */
  lemma StepDecides(articles: Articles, s: System, steps: seq<Step>, x: nat)
    requires steps != [] && Enabled(s, steps[0]) && steps[0] != Settle(x)
    ensures FetchFails(s, steps, x) <==> FetchFails(Apply(articles, s, steps[0]), steps[1..], x)
  {
    assert steps == [steps[0]] + steps[1..];
    if x in s.readers && (steps[0].Evict? || steps[0].reader != x) {
      OthersUntouched(articles, s, steps[0], x);
    }
  }

  /** The law from any state on. */
  lemma {:induction false} RunTells(
    articles: Articles, s: System, steps: seq<Step>, s': System, refs: set<ArticleRef>, t: nat)
    requires Inv(s, articles, refs) && Runs(articles, s, steps, s') && AsksWithin(steps, refs) && IsSettled(s', t)
    ensures PhaseOf(s', t).Failed? <==>
      || FetchFails(s, steps, t)
      || (LeaderIn(articles, s, steps, t).Some? && FetchFails(s, steps, LeaderIn(articles, s, steps, t).value))
    decreases |steps|
  {
    hide Apply, Inv, FetchFails;
    if steps == [] {
      NothingDecided(s, t);
    } else {
      var s1 := Apply(articles, s, steps[0]);
      StepKeepsInv(articles, s, steps[0], refs);
      RunTells(articles, s1, steps[1..], s', refs, t);
      if LeaderIn(articles, s, steps, t).Some? {
        LeaderMayLead(articles, s, steps, refs, t);
      }
      if steps[0] == Settle(t) {
        SettlingTells(articles, s, steps, s', refs, t);
      } else {
        StepDecides(articles, s, steps, t);
        LeaderStays(articles, s, steps, t);
        if LeaderIn(articles, s, steps, t).Some? {
          StepDecides(articles, s, steps, LeaderIn(articles, s, steps, t).value);
        }
      }
    }
  }

  lemma NothingDecided(s: System, t: nat)
    requires IsSettled(s, t)
    ensures FetchFails(s, [], t) <==> PhaseOf(s, t).Failed?
  {
  }

  lemma LeaderStays(articles: Articles, s: System, steps: seq<Step>, t: nat)
    requires steps != [] && Enabled(s, steps[0]) && steps[0] != Settle(t)
    ensures LeaderIn(articles, s, steps, t) == LeaderIn(articles, Apply(articles, s, steps[0]), steps[1..], t)
  {
    if t in s.readers && PhaseOf(s, t).Joined? {
      OthersUntouched(articles, s, steps[0], t);
    }
  }

  /** A reader that settles is told what became of its leader, for good. */
  lemma SettlingTells(articles: Articles, s: System, steps: seq<Step>, s': System, refs: set<ArticleRef>, t: nat)
    requires Runs(articles, s, steps, s') && steps != [] && steps[0] == Settle(t)
    ensures t in s'.readers && LeaderIn(articles, s, steps, t).Some? && !FetchFails(s, steps, t)
    ensures PhaseOf(s', t).Failed? <==> FetchFails(s, steps, LeaderIn(articles, s, steps, t).value)
  {
    var s1, l := Apply(articles, s, steps[0]), PhaseOf(s, t).leader;
    var phase := PhaseOf(s1, t);
    assert phase.Failed? <==> PhaseOf(s, l).Failed?;
    assert IsSettled(s1, t) && IsSettled(s, l);
    hide Apply;
    RunKeepsSettled(articles, s1, steps[1..], s', t);
    RunKeepsSettled(articles, s, steps, s', l);
    assert steps == [steps[0]] + steps[1..];
  }

  /**
   In every run, a reader is told of a failure exactly when its own fetch failed or it
   joined a reader whose fetch failed. Nothing else turns a read into an error.
   */
  lemma FailsIffFetchFailed(articles: Articles, steps: seq<Step>, s: System, refs: set<ArticleRef>, t: nat)
    requires Runs(articles, EMPTY, steps, s) && AsksWithin(steps, refs) && IsSettled(s, t)
    ensures PhaseOf(s, t).Failed? <==>
      || Fail(t) in steps
      || (LeaderIn(articles, EMPTY, steps, t).Some? && Fail(LeaderIn(articles, EMPTY, steps, t).value) in steps)
  {
    hide Runs, Inv, LeaderIn;
    EmptyInv(articles, refs);
    RunTells(articles, EMPTY, steps, s, refs, t);
  }

  /** What memory or disk holds under the key a reader can be answered without any fetch, and is in memory then. */
  lemma StoredNeedsNoFetch(articles: Articles, s: System, t: nat, ref: ArticleRef, kind: Kind)
    returns (steps: seq<Step>, s': System)
    requires t !in s.readers && (ref.Key() in s.hot || ref.Key() in s.disk)
    ensures Runs(articles, s, steps, s') && AsksWithin(steps, {ref})
    ensures forall i | 0 <= i < |steps| :: !steps[i].Register? && !steps[i].Settle?
    ensures t in s'.readers && s'.inFlight == s.inFlight
    ensures ref.Key() in s'.hot && PhaseOf(s', t) == Answered(s'.hot[ref.Key()])
    ensures s'.hot[ref.Key()] == if ref.Key() in s.hot then s.hot[ref.Key()] else s.disk[ref.Key()]
  {
    hide Runs;
    steps, s' := StartsLooking(articles, s, t, ref, kind, true);
    if ref.Key() !in s.hot {
      RunsSnoc(articles, s, steps, s', ReadDisk(t, true));
      steps, s' := steps + [ReadDisk(t, true)], Apply(articles, s', ReadDisk(t, true));
    }
  }

  /** Fetching, writing to disk and being forgotten in memory, with nobody in between. */
  lemma LeadsToDisk(articles: Articles, s: System, t: nat) returns (steps: seq<Step>, s': System)
    requires t in s.readers && PhaseOf(s, t) == Unclaimed && s.readers[t].cached
    requires articles(s.readers[t].ref.articleId) != []
    ensures var key := s.readers[t].ref.Key();
      && steps == [Register(t), Complete(t), WriteDisk(t, true), Evict(key, false)]
      && Runs(articles, s, steps, s')
      && key in s'.disk && s'.disk[key] == articles(s.readers[t].ref.articleId) && key !in s'.hot
      && s'.readers.Keys == s.readers.Keys
  {
    hide Runs;
    var key := s.readers[t].ref.Key();
    NoSteps(articles, s);
    var s1 := Apply(articles, s, Register(t));
    RunsSnoc(articles, s, [], s, Register(t));
    steps := [] + [Register(t)];
    var s2 := Apply(articles, s1, Complete(t));
    RunsSnoc(articles, s, steps, s1, Complete(t));
    steps := steps + [Complete(t)];
    var s3 := Apply(articles, s2, WriteDisk(t, true));
    RunsSnoc(articles, s, steps, s2, WriteDisk(t, true));
    steps := steps + [WriteDisk(t, true)];
    s' := Apply(articles, s3, Evict(key, false));
    RunsSnoc(articles, s, steps, s3, Evict(key, false));
    steps := steps + [Evict(key, false)];
  }

  /**
   What one reader fetched with the cache on outlives memory: from disk it is answered to the
   next without another fetch.
   */
  lemma DiskOutlivesMemory(articles: Articles, ref: ArticleRef, kind: Kind) returns (steps: seq<Step>, s: System)
    requires articles(ref.articleId) != []
    ensures Runs(articles, EMPTY, steps, s) && AsksWithin(steps, {ref})
    ensures forall t | Register(t) in steps :: t == 0
    ensures Evict(ref.Key(), false) in steps
    ensures 1 in s.readers && PhaseOf(s, 1) == Answered(articles(ref.articleId))
  {
    hide Runs;
    var first, s1 := StartsLooking(articles, EMPTY, 0, ref, kind, true);
    var s2 := Apply(articles, s1, ReadDisk(0, true));
    RunsSnoc(articles, EMPTY, first, s1, ReadDisk(0, true));
    hide Apply;
    var fetch, s3 := LeadsToDisk(articles, s2, 0);
    RunsAppend(articles, EMPTY, first + [ReadDisk(0, true)], s2, fetch, s3);
    var second;
    second, s := StoredNeedsNoFetch(articles, s3, 1, ref, kind);
    RunsAppend(articles, EMPTY, first + [ReadDisk(0, true)] + fetch, s3, second, s);
    steps := first + [ReadDisk(0, true)] + fetch + second;
  }

  /** No reader can make another step. */
  ghost predicate AtRest(s: System) {
    forall step | Enabled(s, step) :: step.Start? || step.Evict?
  }

  /**
   Once everything has come to rest, every reader that still waits has joined a leader
   that was abandoned. So nobody waits exactly when no leader with joined readers was.
   */
  lemma NobodyWaitsIff(articles: Articles, steps: seq<Step>, s: System, refs: set<ArticleRef>)
    requires Runs(articles, EMPTY, steps, s) && AsksWithin(steps, refs) && AtRest(s)
    ensures forall t | t in s.readers :: IsSettled(s, t) || PhaseOf(s, t).Abandoned? || WaitsForNobody(s, t)
    ensures (forall t | t in s.readers :: IsSettled(s, t) || PhaseOf(s, t).Abandoned?)
       <==> !exists t :: WaitsForNobody(s, t)
  {
    hide Runs, Inv;
    EmptyInv(articles, refs);
    RunKeepsInv(articles, EMPTY, steps, s, refs);
    forall t | t in s.readers
      ensures IsSettled(s, t) || PhaseOf(s, t).Abandoned? || WaitsForNobody(s, t)
    {
      RestingReader(articles, s, refs, t);
    }
  }

  lemma RestingReader(articles: Articles, s: System, refs: set<ArticleRef>, t: nat)
    requires Inv(s, articles, refs) && AtRest(s) && t in s.readers
    ensures IsSettled(s, t) || PhaseOf(s, t).Abandoned? || WaitsForNobody(s, t)
  {
    hide Serves, StoresServe, TableOk;
    assert ReaderOk(s, articles, refs, t);
    NotEnabled(s, Look(t, false));
    NotEnabled(s, ReadDisk(t, false));
    NotEnabled(s, Register(t));
    NotEnabled(s, Complete(t));
    NotEnabled(s, WriteDisk(t, false));
    NotEnabled(s, Resolve(t));
    NotEnabled(s, Settle(t));
    if PhaseOf(s, t).Joined? {
      var l := PhaseOf(s, t).leader;
      NotEnabled(s, Complete(l));
      NotEnabled(s, WriteDisk(l, false));
      NotEnabled(s, Resolve(l));
    }
  }

  lemma NotEnabled(s: System, step: Step)
    requires AtRest(s) && !step.Start? && !step.Evict?
    ensures !Enabled(s, step)
  {
  }

  /**
   Two overlapping reads of one article are enough: the first leads and stops when it has
   its bytes, and the second, which joined it, is never answered.
   */
  lemma AbandonedLeaderStrands(articles: Articles, ref: ArticleRef) returns (steps: seq<Step>, s: System)
    ensures Runs(articles, EMPTY, steps, s) && AsksWithin(steps, {ref})
    ensures WaitsForNobody(s, 1) && !CanSettle(articles, s, 1)
  {
    hide Runs, CanSettle;
    var first, s1 := StartsLooking(articles, EMPTY, 0, ref, Progressive, false);
    var s2 := Apply(articles, s1, Register(0));
    RunsSnoc(articles, EMPTY, first, s1, Register(0));
    var second, s3 := StartsLooking(articles, s2, 1, ref, Progressive, false);
    RunsAppend(articles, EMPTY, first + [Register(0)], s2, second, s3);
    var before := first + [Register(0)] + second;
    s := Apply(articles, s3, Abandon(0));
    RunsSnoc(articles, EMPTY, before, s3, Abandon(0));
    steps := before + [Abandon(0)];
    NeverSettles(articles, s, 1);
  }
}
