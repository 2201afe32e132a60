/**
 Direct reads through the article cache: exactly when every read of a posted file is exact
 in every run of readers, with any policy, any eviction and any fetches under way.
 */
module CachedReads {
  import opened Bytes
  import opened Options
  import opened DirectFiles
  import opened MountedCache
  import opened MountedReaders
  import opened SegmentCache
  import opened SegmentFetchProtocol
  import opened Segments
  import opened Sorting
  import opened VfsReads
  import opened YencManifest
  import opened YencParts

  // ---------------------------------------------------------------------------
  // A read as a sequence of accesses

  /** Reader `t` asks for `ref` and is answered `body`, whatever else happens meanwhile. */
  ghost predicate Access(
    articles: Articles, refs: set<ArticleRef>, s: System, ref: ArticleRef, body: Buffer, steps: seq<Step>, s': System, t: nat)
  {
    && t !in s.readers && Runs(articles, s, steps, s') && AsksWithin(steps, refs)
    && t in s'.readers && s'.readers[t].ref == ref && PhaseOf(s', t) == Answered(body)
  }

  /** One access after the other, for the segments from `first` on, gives `supply`. */
  ghost predicate Obtains(
    articles: Articles, refs: set<ArticleRef>, s: System, segs: seq<Segment>, first: nat, supply: seq<Buffer>)
    decreases |supply|
  {
    supply != [] ==>
      && first < |segs|
      && exists steps, s', t ::
           Access(articles, refs, s, RefOf(segs[first]), supply[0], steps, s', t)
           && Obtains(articles, refs, s', segs, first + 1, supply[1..])
  }

  /** From this state a read of the mounted file may get this supply. */
  ghost predicate CachedRead(
    articles: Articles, refs: set<ArticleRef>, d: DirectFile, s: System, start: nat, length: nat, supply: seq<Buffer>)
    requires |d.segs| == |d.infos|
  {
    length > 0 && start < d.size ==>
      match Locate(d.segs, d.infos, start)
      case NotLocated => true
      case Located(index, bounds) =>
        && Obtains(articles, refs, s, d.segs, index, supply)
        && Suffices(d.segs, index, supply, start - bounds.start, Min(length, d.size - start))
  }

  /** In every run, for all contents, every read gives the file's bytes. */
  ghost predicate AllCachedExact(d: DirectFile, posting: Posting, size: nat, refs: set<ArticleRef>)
    requires |d.segs| == |d.infos|
  {
    forall content: Buffer, steps, s, start: nat, length: nat, supply
      | && |content| == size && Runs(posting(content), EMPTY, steps, s) && AsksWithin(steps, refs)
        && CachedRead(posting(content), refs, d, s, start, length, supply) ::
      DirectReadFrom(d.segs, d.infos, d.size, start, length, supply) == Ok(Slice(content, start, length))
  }

  ghost predicate DistinctNumbers(segs: seq<Segment>) {
    forall i, j | 0 <= i < j < |segs| :: segs[i].number != segs[j].number
  }

  /** Under the file's id only its mounted segments are asked for, and all of them may be. */
  ghost predicate OwnsFile(refs: set<ArticleRef>, d: DirectFile) {
    && AllAsked(refs, d.segs)
    && (forall i | 0 <= i < |d.segs| :: d.segs[i].fileId == d.fileId)
    && (forall r | r in refs && r.fileId == d.fileId :: IsMounted(d.segs, r))
  }

  ghost predicate IsMounted(segs: seq<Segment>, r: ArticleRef) {
    exists i :: 0 <= i < |segs| && r == RefOf(segs[i])
  }

  // ---------------------------------------------------------------------------
  // Distinct numbers make cached reads direct reads

  lemma DistinctIsSole(refs: set<ArticleRef>, d: DirectFile)
    requires OwnsFile(refs, d) && DistinctNumbers(d.segs)
    ensures SoleUsers(refs, d.segs)
  {
    forall i, q | 0 <= i < |d.segs| && q in refs && q.Key() == RefOf(d.segs[i]).Key()
      ensures q.articleId == d.segs[i].articleId
    {
      assert IsMounted(d.segs, q);
      var j :| 0 <= j < |d.segs| && q == RefOf(d.segs[j]);
      NumberTells(d.segs, i, j);
    }
  }

  lemma NumberTells(segs: seq<Segment>, i: nat, j: nat)
    requires DistinctNumbers(segs) && i < |segs| && j < |segs| && segs[i].number == segs[j].number
    ensures i == j
  {
  }

  /** Whatever a read obtains is asked for under the right keys. */
  lemma {:induction false} ObtainsServes(
    articles: Articles, refs: set<ArticleRef>, s: System, segs: seq<Segment>, first: nat, supply: seq<Buffer>)
    requires Inv(s, articles, refs) && Obtains(articles, refs, s, segs, first, supply) && first <= |segs|
    ensures Supplied(refs, articles, segs, first, supply)
    decreases |supply|
  {
    hide Inv, Serves, Runs, AsksWithin;
    if supply != [] {
      var steps, s', t :| Access(articles, refs, s, RefOf(segs[first]), supply[0], steps, s', t)
                       && Obtains(articles, refs, s', segs, first + 1, supply[1..]);
      RunKeepsInv(articles, s, steps, s', refs);
      AnswerServes(articles, refs, s', t);
      ObtainsServes(articles, refs, s', segs, first + 1, supply[1..]);
      forall j | 0 <= j < |supply|
        ensures Serves(refs, articles, RefOf(segs[first + j]).Key(), supply[j])
      {
        if j > 0 {
          assert supply[1..][j - 1] == supply[j] && (first + 1) + (j - 1) == first + j;
        }
      }
    }
  }

  lemma AnswerServes(articles: Articles, refs: set<ArticleRef>, s: System, t: nat)
    requires Inv(s, articles, refs) && t in s.readers && PhaseOf(s, t).Answered?
    ensures Serves(refs, articles, s.readers[t].ref.Key(), PhaseOf(s, t).body)
  {
    hide Serves;
    assert ReaderOk(s, articles, refs, t);
  }

  lemma SoleIsExact(d: DirectFile, posting: Posting, size: nat, refs: set<ArticleRef>)
    requires |d.segs| == |d.infos| && SoleUsers(refs, d.segs) && AllExact(d, posting, size)
    ensures AllCachedExact(d, posting, size, refs)
  {
    hide Runs, AsksWithin, SoleUsers, CachedRead, DirectReadFrom, DirectRead, AllExact, Slice;
    forall content: Buffer, steps, s, start: nat, length: nat, supply
      | && |content| == size && Runs(posting(content), EMPTY, steps, s) && AsksWithin(steps, refs)
        && CachedRead(posting(content), refs, d, s, start, length, supply)
      ensures DirectReadFrom(d.segs, d.infos, d.size, start, length, supply) == Ok(Slice(content, start, length))
    {
      CachedReadSupplies(posting(content), refs, d, steps, s, start, length, supply);
      SoleReadIsDirect(refs, posting(content), d.segs, d.infos, d.size, start, length, supply);
      ReadIsExact(d, posting, content, start, length);
    }
  }

  lemma CachedReadSupplies(
    articles: Articles, refs: set<ArticleRef>, d: DirectFile, steps: seq<Step>, s: System, start: nat, length: nat, supply: seq<Buffer>)
    requires |d.segs| == |d.infos| && Runs(articles, EMPTY, steps, s) && AsksWithin(steps, refs)
    requires CachedRead(articles, refs, d, s, start, length, supply)
    ensures SuppliesRead(refs, articles, d.segs, d.infos, d.size, start, length, supply)
  {
    hide Runs, Inv, Obtains, Supplied, Suffices, Locate;
    if length > 0 && start < d.size {
      match Locate(d.segs, d.infos, start)
      case NotLocated =>
      case Located(index, bounds) =>
        EmptyInv(articles, refs);
        RunKeepsInv(articles, EMPTY, steps, s, refs);
        ObtainsServes(articles, refs, s, d.segs, index, supply);
    }
  }

  // ---------------------------------------------------------------------------
  // Runs that obtain what is wanted

  /** Readers so far have smaller ids. */
  ghost predicate Below(s: System, n: nat) {
    forall t | t in s.readers :: t < n
  }

  /** The true bodies of the segments from `first` up to `to`. */
  function TrueBodies(segs: seq<Segment>, articles: Articles, first: nat, to: nat): (r: seq<Buffer>)
    requires first <= to <= |segs|
    ensures |r| == to - first && forall i | 0 <= i < |r| :: r[i] == articles(segs[first + i].articleId)
  {
    seq(to - first, i requires 0 <= i < to - first => articles(segs[first + i].articleId))
  }

  lemma {:induction false} TrueBodiesAre(segs: seq<Segment>, articles: Articles, first: nat, to: nat)
    requires first <= to <= |segs|
    ensures Concat(TrueBodies(segs, articles, first, to)) == Bodies(segs[first..to], articles)
    decreases |segs| - first
  {
    var bodies := TrueBodies(segs, articles, first, to);
    if first < to {
      assert bodies[1..] == TrueBodies(segs, articles, first + 1, to);
      assert segs[first..to][1..] == segs[first + 1..to];
      TrueBodiesAre(segs, articles, first + 1, to);
    }
  }

  /**
   Past the cache every segment up to `to` is answered its own article; then, if `last` is given,
   one more is answered what memory has under its key.
   */
  lemma {:induction false} ObtainsTrue(
    articles: Articles, refs: set<ArticleRef>, s: System, segs: seq<Segment>, first: nat, to: nat, last: bool, n: nat)
    returns (supply: seq<Buffer>)
    requires first <= to <= |segs| && AllAsked(refs, segs) && s.inFlight == map[] && Below(s, n)
    requires last ==> to < |segs| && RefOf(segs[to]).Key() in s.hot
    ensures supply == TrueBodies(segs, articles, first, to) + (if last then [s.hot[RefOf(segs[to]).Key()]] else [])
    ensures Obtains(articles, refs, s, segs, first, supply)
    decreases |segs| - first
  {
    hide Runs, AsksWithin, Obtains, Access;
    if first < to {
      var ref := RefOf(segs[first]);
      var steps, s' := FetchesAlone(articles, s, n, ref, false);
      FewerAsked(steps, {ref}, refs);
      var rest := ObtainsTrue(articles, refs, s', segs, first + 1, to, last, n + 1);
      supply := [articles(ref.articleId)] + rest;
      ObtainsCons(articles, refs, s, segs, first, articles(ref.articleId), rest, steps, s', n);
    } else if last {
      var ref := RefOf(segs[to]);
      var steps, s' := HitsMemory(articles, s, n, ref);
      FewerAsked(steps, {ref}, refs);
      supply := [s.hot[ref.Key()]] + [];
      ObtainsNothing(articles, refs, s', segs, first + 1);
      ObtainsCons(articles, refs, s, segs, first, s.hot[ref.Key()], [], steps, s', n);
    } else {
      supply := [];
      ObtainsNothing(articles, refs, s, segs, first);
    }
  }

  lemma ObtainsNothing(articles: Articles, refs: set<ArticleRef>, s: System, segs: seq<Segment>, first: nat)
    ensures Obtains(articles, refs, s, segs, first, [])
  {
  }

  /** One access more in front. */
  lemma ObtainsCons(
    articles: Articles, refs: set<ArticleRef>, s: System, segs: seq<Segment>, first: nat,
    body: Buffer, rest: seq<Buffer>, steps: seq<Step>, s': System, t: nat)
    requires first < |segs| && t !in s.readers && Runs(articles, s, steps, s') && AsksWithin(steps, refs)
    requires t in s'.readers && s'.readers[t].ref == RefOf(segs[first]) && PhaseOf(s', t) == Answered(body)
    requires Obtains(articles, refs, s', segs, first + 1, rest)
    ensures Obtains(articles, refs, s, segs, first, [body] + rest)
  {
    hide Runs, AsksWithin;
    var supply := [body] + rest;
    assert supply[0] == body && supply[1..] == rest;
    assert Access(articles, refs, s, RefOf(segs[first]), supply[0], steps, s', t);
  }

  /** A cache nobody has used yet serves every direct read. */
  lemma CachedIsDirect(d: DirectFile, posting: Posting, size: nat, refs: set<ArticleRef>)
    requires |d.segs| == |d.infos| && AllAsked(refs, d.segs) && AllCachedExact(d, posting, size, refs)
    ensures AllExact(d, posting, size)
  {
    hide AllCachedExact;
    forall content: Buffer | |content| == size
      ensures ReadsExactly(d, posting(content), content)
    {
      forall start: nat, length: nat
        ensures DirectRead(d.segs, d.infos, d.size, start, length, posting(content)) == Ok(Slice(content, start, length))
      {
        FreshReadIsDirect(d, posting, content, refs, start, length);
      }
    }
  }

  lemma FreshReadIsDirect(d: DirectFile, posting: Posting, content: Buffer, refs: set<ArticleRef>, start: nat, length: nat)
    requires |d.segs| == |d.infos| && AllAsked(refs, d.segs) && AllCachedExact(d, posting, |content|, refs)
    ensures DirectRead(d.segs, d.infos, d.size, start, length, posting(content)) == Ok(Slice(content, start, length))
  {
    hide Runs, Obtains, Locate, Slice, Bodies, Concat;
    var articles := posting(content);
    NoSteps(articles, EMPTY);
    var supply: seq<Buffer> := [];
    if length > 0 && start < d.size && Locate(d.segs, d.infos, start).Located? {
      var index := Locate(d.segs, d.infos, start).index;
      supply := ObtainsTrue(articles, refs, EMPTY, d.segs, index, |d.segs|, false, 0);
      TrueBodiesAre(d.segs, articles, index, |d.segs|);
      assert supply == TrueBodies(d.segs, articles, index, |d.segs|);
      assert d.segs[index..|d.segs|] == d.segs[index..];
    }
    assert CachedRead(articles, refs, d, EMPTY, start, length, supply);
  }

  // ---------------------------------------------------------------------------
  // Two segments under one number

  /** What the read of part `j`'s first byte gets when memory has part `i` under its key. */
  lemma ConfusedRead(
    d: DirectFile, posting: Posting, size: nat, refs: set<ArticleRef>, i: nat, j: nat, l: nat, content: Buffer)
    returns (steps: seq<Step>, s: System, supply: seq<Buffer>)
    requires |d.segs| == |d.infos| && AllAsked(refs, d.segs) && l <= j < |d.segs| && i < |d.segs|
    requires RefOf(d.segs[i]).Key() == RefOf(d.segs[j]).Key()
    ensures Runs(posting(content), EMPTY, steps, s) && AsksWithin(steps, refs)
    ensures Obtains(posting(content), refs, s, d.segs, l, supply)
    ensures supply == TrueBodies(d.segs, posting(content), l, j) + [posting(content)(d.segs[i].articleId)]
  {
    hide Runs, AsksWithin, Obtains;
    var articles := posting(content);
    var ref := RefOf(d.segs[i]);
    steps, s := FetchesAlone(articles, EMPTY, 0, ref, true);
    FewerAsked(steps, {ref}, refs);
    supply := ObtainsTrue(articles, refs, s, d.segs, l, j, true, 1);
  }

  /** Where the first byte of part `j` is read from: from its own article or from an earlier one that starts where guessed. */
  lemma FirstByteLocated(d: DirectFile, size: nat, j: nat) returns (l: nat)
    requires |d.segs| == |d.infos| > 0 && Contiguous(d.segs, 0, Reach(d.segs)) && MountedRight(d, size) && j < |d.segs|
    ensures var start := PartStarts(d.infos, size)[j];
      && 0 <= start < size && l <= j && 0 <= PartStarts(d.infos, size)[l]
      && var found := Locate(d.segs, d.infos, start);
      && found.Located? && found.index == l && found.bounds.start == PartStarts(d.infos, size)[l]
  {
    hide Contiguous, InOrder, Guides, TrueStarts, Ordered, Locate, Reach;
    var starts := PartStarts(d.infos, size);
    StartsRun(d.infos, size, j);
    var start := starts[j];
    ContiguousBounds(d.segs, 0, Reach(d.segs));
    ProbesAreTrue(d, d.infos, size);
    var e := SomeSegmentCovers(d.segs, 0, Reach(d.segs), start);
    assert IsEstimate(d.segs, start, e) && TrulyAt(starts, start, j);
    LocateAnswers(starts, d.segs, d.infos, start, e, j);
    GuideAt(starts, d.segs, e, j, start);
    if -64 < j - e < 64 {
      l := j;
    } else {
      l := e;
      StartsRun(d.infos, size, e);
      NotLater(d.infos, size, e, j);
    }
  }

  lemma GuideAt(starts: seq<int>, segs: seq<Segment>, e: nat, k: nat, start: int)
    requires |starts| == |segs| + 1 && Guides(starts, segs) && e < |segs| && k < |segs|
    requires IsEstimate(segs, start, e) && TrulyAt(starts, start, k)
    ensures -64 < k - e < 64 || segs[e].start == starts[e]
  {
    assert !Misguides(starts, segs, e, k);
  }

  /** Parts start inside the file and end behind their start. */
  lemma StartsRun(infos: seq<Option<PartInfo>>, size: int, j: nat)
    requires InOrder(infos, size) && j < |infos|
    ensures var starts := PartStarts(infos, size); 0 <= starts[j] < starts[j + 1] <= size
  {
    StartsIncrease(infos, size, j, j + 1);
    if j > 0 {
      StartsIncrease(infos, size, 0, j);
    }
    if j + 1 < |infos| {
      StartsIncrease(infos, size, j + 1, |infos|);
    }
  }

  lemma NotLater(infos: seq<Option<PartInfo>>, size: int, e: nat, j: nat)
    requires InOrder(infos, size) && e < |infos| && j < |infos| && PartStarts(infos, size)[e] <= PartStarts(infos, size)[j]
    ensures e <= j
  {
    if j < e {
      StartsIncrease(infos, size, j, e);
    }
  }

  /** The first byte of the later part comes out of the earlier one. */
  lemma SharedNumberShows(d: DirectFile, posting: Posting, size: nat, refs: set<ArticleRef>, i: nat, j: nat)
    requires |d.segs| == |d.infos| > 0 && Contiguous(d.segs, 0, Reach(d.segs)) && size > 0
    requires MountedRight(d, size) && PostsAll(d, posting, size) && OwnsFile(refs, d)
    requires i < j < |d.segs| && d.segs[i].number == d.segs[j].number
    ensures !AllCachedExact(d, posting, size, refs)
  {
    hide Runs, AsksWithin, Obtains, Contiguous, Locate, Guides, InOrder, Matched, AllCachedExact, TrueBodies, Slice;
    var starts := PartStarts(d.infos, size);
    var l := FirstByteLocated(d, size, j);
    var start: nat := starts[j];
    var content := OneHot(size, start);
    var articles := posting(content);
    assert Matched(d, articles, content);
    var steps, s, supply := ConfusedRead(d, posting, size, refs, i, j, l, content);
    WrongByte(d, articles, content, size, i, j, l, supply);
    if AllCachedExact(d, posting, size, refs) {
      ExactlyRead(d, posting, content, refs, steps, s, start, 1, supply);
    }
  }

  lemma ExactlyRead(
    d: DirectFile, posting: Posting, content: Buffer, refs: set<ArticleRef>, steps: seq<Step>, s: System,
    start: nat, length: nat, supply: seq<Buffer>)
    requires |d.segs| == |d.infos| && AllCachedExact(d, posting, |content|, refs)
    requires Runs(posting(content), EMPTY, steps, s) && AsksWithin(steps, refs)
    requires CachedRead(posting(content), refs, d, s, start, length, supply)
    ensures DirectReadFrom(d.segs, d.infos, d.size, start, length, supply) == Ok(Slice(content, start, length))
  {
  }

  /** The supply is long enough, and what it has at that place is a 0. */
  lemma WrongByte(
    d: DirectFile, articles: Articles, content: Buffer, size: nat, i: nat, j: nat, l: nat, supply: seq<Buffer>)
    requires |d.segs| == |d.infos| > 0 && MountedRight(d, size) && i < j < |d.segs| && l <= j
    requires var starts := PartStarts(d.infos, size);
      && 0 <= starts[l] && 0 <= starts[j] < size && content == OneHot(size, starts[j])
      && var found := Locate(d.segs, d.infos, starts[j]);
      && found.Located? && found.index == l && found.bounds.start == starts[l]
    requires Matched(d, articles, content)
    requires supply == TrueBodies(d.segs, articles, l, j) + [articles(d.segs[i].articleId)]
    ensures var start := PartStarts(d.infos, size)[j];
      && start >= PartStarts(d.infos, size)[l]
      && Suffices(d.segs, l, supply, start - PartStarts(d.infos, size)[l], 1)
      && DirectReadFrom(d.segs, d.infos, d.size, start, 1, supply) != Ok(Slice(content, start, 1))
  {
    hide InOrder, Guides, Locate, Bodies, Concat;
    var starts := PartStarts(d.infos, size);
    TrueBodiesAre(d.segs, articles, l, j);
    MatchedIsFaithful(d, articles, content);
    FaithfulLength(starts, d.segs, articles, content, l, j);
    var before, body := Bodies(d.segs[l..j], articles), articles(d.segs[i].articleId);
    ConcatSnoc(TrueBodies(d.segs, articles, l, j), body);
    var all := Concat(supply);
    assert all == before + body;
    EarlierPartIsZero(d, articles, content, size, i, j);
    assert all[|before|] == body[0];
    assert Slice(content, starts[j], 1)[0] == content[starts[j]] == 1;
    assert Slice(all, |before|, 1)[0] == all[|before|];
  }

  lemma EarlierPartIsZero(d: DirectFile, articles: Articles, content: Buffer, size: nat, i: nat, j: nat)
    requires |d.segs| == |d.infos| && InOrder(d.infos, size) && i < j < |d.segs| && |content| == size
    requires Matched(d, articles, content)
    requires content == OneHot(size, PartStarts(d.infos, size)[j])
    ensures var body := articles(d.segs[i].articleId); body != [] && body[0] == 0
  {
    StartsIncrease(d.infos, size, i, j);
    assert PartMatches(d.infos[i], articles(d.segs[i].articleId), content);
  }

  /** Articles laid end to end are as long as what they span. */
  lemma {:induction false} FaithfulLength(
    starts: seq<int>, segs: seq<Segment>, articles: Articles, content: Buffer, l: nat, j: nat)
    requires Faithful(starts, segs, articles, content) && l <= j <= |segs|
    ensures |Bodies(segs[l..j], articles)| == starts[j] - starts[l]
    decreases j
  {
    if l < j {
      FaithfulLength(starts, segs, articles, content, l, j - 1);
      BodiesSnoc(segs, l, j - 1, articles);
      assert BodyBetween(starts[j - 1], starts[j - 1 + 1], articles(segs[j - 1].articleId), content);
    } else {
      assert segs[l..j] == [];
    }
  }

  // ---------------------------------------------------------------------------
  // The theorem

  /**
   All reads in all runs are exact, for all contents, if and only if the file is mounted
   right and no two of its mounted segments share a number.
   */
  lemma AllCachedExactIff(d: DirectFile, posting: Posting, size: nat, refs: set<ArticleRef>)
    requires |d.segs| == |d.infos| > 0 && Contiguous(d.segs, 0, Reach(d.segs)) && 0 <= d.size <= size && size > 0
    requires PostsAll(d, posting, size) && Disjoint(d.infos) && PartsInside(d.infos, size) && OwnsFile(refs, d)
    ensures AllCachedExact(d, posting, size, refs) <==> MountedRight(d, size) && DistinctNumbers(d.segs)
  {
    hide AllCachedExact, AllExact, PostsAll, MountedRight, Contiguous, Disjoint, PartsInside, OwnsFile;
    AllExactIffMountedRight(d, posting, size);
    if AllCachedExact(d, posting, size, refs) {
      OwnAsks(refs, d);
      CachedIsDirect(d, posting, size, refs);
      forall i, j | 0 <= i < j < |d.segs|
        ensures d.segs[i].number != d.segs[j].number
      {
        if d.segs[i].number == d.segs[j].number {
          SharedNumberShows(d, posting, size, refs, i, j);
        }
      }
    }
    if MountedRight(d, size) && DistinctNumbers(d.segs) {
      DistinctIsSole(refs, d);
      SoleIsExact(d, posting, size, refs);
    }
  }

  lemma OwnAsks(refs: set<ArticleRef>, d: DirectFile)
    requires OwnsFile(refs, d)
    ensures AllAsked(refs, d.segs)
  {
  }

  /**
   The end-to-end theorem for posted files with the cache in place: the parts partition
   the file and the headers say so, while numbers, part sizes and announced sizes may be
   anything. Other files may be read in the same runs.
   */
  lemma PostedFileReadsIff(file: File, headers: Headers, size: nat, refs: set<ArticleRef>)
    requires Partition(file.articles, headers, size) && size > 0 && DirectFiles.DistinctIds(file.articles)
    requires |MountOf(file, headers).segs| == |MountOf(file, headers).infos| ==> OwnsFile(refs, MountOf(file, headers))
    ensures var d := MountOf(file, headers);
      && |d.segs| == |d.infos| > 0
      && (AllCachedExact(d, Posted(file, headers), size, refs) <==> MountedRight(d, size) && DistinctNumbers(d.segs))
  {
    hide Partition, PostsAll, AllCachedExact, MountedRight, MountOf, Posted, Contiguous, Disjoint, PartsInside, OwnsFile, DistinctNumbers;
    MountOfPartition(file, headers, size);
    PostedMatches(file, headers, size);
    AllCachedExactIff(MountOf(file, headers), Posted(file, headers), size, refs);
  }

  /** The segments' own requests and no others are such a set. */
  function OwnRefs(segs: seq<Segment>): (refs: set<ArticleRef>)
    ensures AllAsked(refs, segs) && forall r | r in refs :: IsMounted(segs, r)
  {
    set i | 0 <= i < |segs| :: RefOf(segs[i])
  }

  lemma OwnRefsOwn(file: File, headers: Headers)
    ensures OwnsFile(OwnRefs(MountOf(file, headers).segs), MountOf(file, headers))
  {
    hide Built, InfoOf, RawSegments, DecodedFileSize;
    MountRefs(file, headers);
    var d := MountOf(file, headers);
    forall i | 0 <= i < |d.segs|
      ensures d.segs[i].fileId == d.fileId
    {
      assert SomeArticle(file, RefOf(d.segs[i]));
    }
  }

  // ---------------------------------------------------------------------------
  // Two articles numbered 1

  const BOTH_FIRST := File("f", 2, [Article(1, 1, "a"), Article(1, 1, "b")])

  const BOTH_FIRST_HEADERS: Headers := (a: Article) =>
    if a.articleId == "a" then Some(Header(Num(2), Num(1), Num(1), Num(1)))
    else Some(Header(Num(2), Num(2), Num(2), Num(1)))

  lemma BothFirstParts()
    ensures InfoOf(Article(1, 1, "a"), BOTH_FIRST_HEADERS) == Some(PartInfo(Some(2), 0, 1))
    ensures InfoOf(Article(1, 1, "b"), BOTH_FIRST_HEADERS) == Some(PartInfo(Some(2), 1, 1))
  {
  }

  lemma BothFirstPartition()
    ensures Partition(BOTH_FIRST.articles, BOTH_FIRST_HEADERS, 2) && DirectFiles.DistinctIds(BOTH_FIRST.articles)
  {
    hide InfoOf;
    BothFirstParts();
    var headers, a, b := BOTH_FIRST_HEADERS, Article(1, 1, "a"), Article(1, 1, "b");
    assert BOTH_FIRST.articles == [a, b];
    assert IsPart(a, headers, 1, 1, 2) && IsPart(b, headers, 2, 2, 2);
    forall p: int | 1 <= p <= 2
      ensures SomePartHas([a, b], headers, p)
    {
      assert PartHas(if p == 1 then a else b, headers, p);
    }
  }

  lemma BothFirstNumbered()
    ensures NumberedParts(BOTH_FIRST, BOTH_FIRST_HEADERS, [0, 1, 2])
  {
    hide InfoOf;
    BothFirstParts();
    SortOfSorted(BOTH_FIRST.articles, BY_NUMBER);
  }

  /**
   Two articles posted under the same number: the file is mounted right, every read that
   bypasses the cache is exact, and still some run reads it wrong.
   */
  lemma SharedNumberFails()
    ensures var d := MountOf(BOTH_FIRST, BOTH_FIRST_HEADERS);
      && |d.segs| == |d.infos| > 0 && MountedRight(d, 2)
      && AllExact(d, Posted(BOTH_FIRST, BOTH_FIRST_HEADERS), 2)
      && !AllCachedExact(d, Posted(BOTH_FIRST, BOTH_FIRST_HEADERS), 2, OwnRefs(d.segs))
  {
    BothFirstPartition();
    BothFirstNumbered();
    BothFirstIsRight();
    hide *;
    var file, headers := BOTH_FIRST, BOTH_FIRST_HEADERS;
    PostedFileReadsIffMountedRight(file, headers, 2);
    OwnRefsOwn(file, headers);
    PostedFileReadsIff(file, headers, 2, OwnRefs(MountOf(file, headers).segs));
  }

  lemma BothFirstIsRight()
    requires NumberedParts(BOTH_FIRST, BOTH_FIRST_HEADERS, [0, 1, 2])
    ensures var d := MountOf(BOTH_FIRST, BOTH_FIRST_HEADERS);
      |d.segs| == |d.infos| > 0 && MountedRight(d, 2) && !DistinctNumbers(d.segs)
  {
    hide InfoOf, MountOf, MountedRight, NumberedParts;
    var file, headers := BOTH_FIRST, BOTH_FIRST_HEADERS;
    NumberedIsRightIff(file, headers, [0, 1, 2]);
    NumberedIsFull(file, headers, [0, 1, 2]);
    MountRefs(file, headers);
    var d := MountOf(file, headers);
    assert SomeArticle(file, RefOf(d.segs[0])) && SomeArticle(file, RefOf(d.segs[1]));
    assert d.segs[0].number == d.segs[1].number;
  }

  // ---------------------------------------------------------------------------
  // From a posted file to the kernel's buffer

  predicate ArticlesDistinct(articles: seq<Article>) {
    forall i, j | 0 <= i < j < |articles| :: articles[i].number != articles[j].number
  }

  /** Articles posted under different numbers are mounted under different numbers. */
  lemma MountedNumbers(file: File, headers: Headers)
    requires ArticlesDistinct(file.articles) && file.articles != []
    ensures DistinctNumbers(MountOf(file, headers).segs)
  {
    MountShape(file, headers);
    SortKeepsPairwise(file.articles, BY_NUMBER, (a: Article, b: Article) => a.number != b.number);
    hide Built, InfoOf, SortBy;
    var sources := SourcesOf(file, headers);
    assert forall i, j | 0 <= i < j < |sources| :: sources[i].number != sources[j].number;
  }

  /** Full parts of one size with numbers of their own: mounted right. */
  lemma EqualPartsAreRight(file: File, headers: Headers, partSize: int, size: int)
    requires EqualParts(file, headers, partSize, size) && file.articles != [] && ArticlesDistinct(file.articles)
    ensures var d := MountOf(file, headers);
      |d.segs| == |d.infos| > 0 && MountedRight(d, size) && DistinctNumbers(d.segs)
  {
    hide InfoOf, PartStart, MountOf, EqualParts, NumberedParts, SmallDrift, FirstPartTells, MountedRight;
    var starts := EqualStarts(file, headers, partSize, size);
    NumberedIsRightIff(file, headers, starts);
    MountedNumbers(file, headers);
  }

  /** What a mount of the file needs. */
  lemma MountIsReady(file: File, headers: Headers, articles: Articles, content: Buffer)
    requires file.articles != [] && forall a | a in file.articles :: BodyMatches(a, headers, articles, content)
    requires var d := MountOf(file, headers);
      |d.segs| == |d.infos| > 0 ==> MountedRight(d, |content|) && DistinctNumbers(d.segs)
    ensures var d := MountOf(file, headers);
      && |d.segs| == |d.infos|
      && Served(d, PartStarts(d.infos, |content|), articles, content)
      && SoleUsers(OwnRefs(d.segs), d.segs)
  {
    MountShape(file, headers);
    BodiesMatch(file, headers, articles, content);
    OwnRefsOwn(file, headers);
    hide *;
    var d := MountOf(file, headers);
    DistinctIsSole(OwnRefs(d.segs), d);
    ProbesAsBefore(d, |content|);
    MountedIsServed(d, d.infos, articles, content);
  }

  lemma ProbesAsBefore(d: DirectFile, size: int)
    requires |d.segs| == |d.infos|
    ensures ProbesOk(d, d.infos, size) && d.(infos := d.infos) == d
  {
  }

  /**
   All of it in one: a posted file is mounted, its articles come through a cache, and a
   read by the kernel fills its buffer with exactly the file's bytes, whatever else goes
   on in the mount.
   */
  method MountAndRead(
    path: string, file: File, headers: Headers, articles: Articles, chunkSize: nat,
    buffer: array<Byte>, length: nat, position: nat, ghost content: Buffer)
    returns (bytesRead: nat)
    requires file.articles != [] && forall a | a in file.articles :: BodyMatches(a, headers, articles, content)
    requires var d := MountOf(file, headers);
      |d.segs| == |d.infos| > 0 ==> MountedRight(d, |content|) && DistinctNumbers(d.segs)
    requires length <= buffer.Length
    modifies buffer
    ensures var wanted := Slice(content, position, Min(length, Max(512 * 1024, Min(chunkSize, 4 * 1024 * 1024))));
      bytesRead == |wanted| && buffer[..] == wanted + old(buffer[..])[bytesRead..]
  {
    MountIsReady(file, headers, articles, content);
    hide Served, SoleUsers, BodyMatches, Slice, MountOf, MountedRight;
    var d := MountDirectFile(file, headers);
    var cache := new ArticleCache(false, articles, OwnRefs(d.segs));
    var mounted := new MountedFiles(
      false, map[path := d], cache, map[path := PartStarts(d.infos, |content|)], map[d.fileId := content]);
    var mount := new FuseMount(mounted);
    mount.streamChunkSizeBytes := chunkSize;
    var fd := mount.Open(path, true);
    bytesRead := mount.Read("", fd.value, buffer, length, position);
  }
}
