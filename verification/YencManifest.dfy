/**
 From yEnc part headers to a sorted segment manifest: `buildDecodedYencSegments`
 and `getDecodedYencFileSize` of src/services/yencManifest.service.ts.
 */
module YencManifest {
  import opened Bytes
  import opened Options
  import opened Segments
  import opened Sorting
  import opened YencParts

  datatype Article = Article(number: int, bytes: nat, articleId: string)

  datatype File = File(id: string, size: int, articles: seq<Article>)

  datatype Manifest = Manifest(size: int, segments: seq<Segment>)

  datatype Mode = Exact | Fast

  /** What the header probe answers for an article, if it answers. */
  type Headers = Article -> Option<Header>

  function InfoOf(a: Article, headers: Headers): Option<PartInfo> {
    match headers(a)
    case None => None
    case Some(h) => ParsePartInfo(h)
  }

  const BY_NUMBER := (a: Article) => a.number

  function OrderedArticles(file: File): seq<Article> {
    SortBy(file.articles, BY_NUMBER)
  }

  // ---------------------------------------------------------------------------
  // Exact mode

  function PartSegment(fileId: string, a: Article, info: PartInfo): Segment {
    Segment(fileId, a.articleId, a.number, info.partSize, info.partOffset, info.partOffset + info.partSize - 1, 0)
  }

  /** One segment for every article whose header was read, in the given order. */
  function PartSegments(fileId: string, articles: seq<Article>, headers: Headers): seq<Segment> {
    if articles == [] then []
    else
      match InfoOf(articles[0], headers)
      case None => PartSegments(fileId, articles[1..], headers)
      case Some(info) => [PartSegment(fileId, articles[0], info)] + PartSegments(fileId, articles[1..], headers)
  }

  /** The largest file size any header announces. */
  function LargestFileSize(articles: seq<Article>, headers: Headers): (r: int)
    ensures r >= 0
  {
    if articles == [] then 0
    else
      var rest := LargestFileSize(articles[1..], headers);
      match InfoOf(articles[0], headers)
      case Some(PartInfo(Some(size), _, _)) => Max(size, rest)
      case _ => rest
  }

  function ExactManifest(file: File, headers: Headers): Option<Manifest> {
    var ordered := OrderedArticles(file);
    var segments := SortBy(PartSegments(file.id, ordered, headers), BY_START);
    var size := LargestFileSize(ordered, headers);
    if |segments| == |ordered| && size > 0 then Some(Manifest(size, segments)) else None
  }

  // ---------------------------------------------------------------------------
  // Fast mode

  /** Segments of equal size from article `index` on, until the file is covered. */
  function EqualSegments(fileId: string, ordered: seq<Article>, index: nat, start: int, partSize: int, size: int): seq<Segment>
    decreases |ordered| - index
  {
    if index >= |ordered| || start >= size then []
    else
      var bytes := Min(partSize, size - start);
      [Segment(fileId, ordered[index].articleId, ordered[index].number, bytes, start, start + bytes - 1, 0)]
      + EqualSegments(fileId, ordered, index + 1, start + partSize, partSize, size)
  }

  function FastManifest(file: File, headers: Headers): Option<Manifest> {
    var ordered := OrderedArticles(file);
    if ordered == [] then None
    else
      match InfoOf(ordered[0], headers)
      case Some(PartInfo(Some(size), 0, partSize)) =>
        if size <= 0 || partSize <= 0 then None
        else Some(Manifest(size, EqualSegments(file.id, ordered, 0, 0, partSize, size)))
      case _ => None
  }

  /** What the builder returns: exact if asked for and possible, else fast. */
  function Built(file: File, hasProviders: bool, mode: Mode, headers: Headers): Option<Manifest> {
    if file.articles == [] || !hasProviders then None
    else if mode.Exact? && ExactManifest(file, headers).Some? then ExactManifest(file, headers)
    else FastManifest(file, headers)
  }

  method BuildDecodedYencSegments(file: File, hasProviders: bool, mode: Mode, headers: Headers) returns (r: Option<Manifest>)
    ensures r == Built(file, hasProviders, mode, headers)
  {
    hide PartSegments, LargestFileSize, SortBy, EqualSegments, InfoOf;
    var ordered := OrderedArticles(file);
    if ordered == [] || !hasProviders {
      return None;
    }
    if mode.Exact? {
      var exactSegments := SortBy(PartSegments(file.id, ordered, headers), BY_START);
      var exactSize := LargestFileSize(ordered, headers);
      if |exactSegments| == |ordered| && exactSize > 0 {
        return Some(Manifest(exactSize, exactSegments));
      }
    }
    var firstInfo := InfoOf(ordered[0], headers);
    if firstInfo.None? || firstInfo.value.fileSize.None? || firstInfo.value.fileSize.value <= 0
       || firstInfo.value.partSize <= 0 || firstInfo.value.partOffset != 0
    {
      return None;
    }
    var size, partSize := firstInfo.value.fileSize.value, firstInfo.value.partSize;
    var segments := CutEqually(file.id, ordered, partSize, size);
    if |segments| == 0 {
      EqualStep(file.id, ordered, 0, 0, partSize, size);
      return None;
    }
    return Some(Manifest(size, segments));
  }

  /** The fast mode's loop. */
  method CutEqually(fileId: string, ordered: seq<Article>, partSize: int, size: int) returns (segments: seq<Segment>)
    ensures segments == EqualSegments(fileId, ordered, 0, 0, partSize, size)
  {
    hide EqualSegments, PartStart;
    segments := [];
    var index := 0;
    ghost var rest := EqualSegments(fileId, ordered, 0, 0, partSize, size);
    ghost var all := rest;
    NextMultiple(0, partSize);
    while index < |ordered|
      invariant index <= |ordered|
      invariant rest == EqualSegments(fileId, ordered, index, PartStart(index, partSize), partSize, size)
      invariant segments + rest == all
    {
      var start := PartStart(index, partSize);
      EqualStep(fileId, ordered, index, start, partSize, size);
      if start >= size {
        break;
      }
      var bytes := Min(partSize, size - start);
      var segment := Segment(fileId, ordered[index].articleId, ordered[index].number, bytes, start, start + bytes - 1, 0);
      rest := EqualSegments(fileId, ordered, index + 1, start + partSize, partSize, size);
      NextMultiple(index, partSize);
      assert (segments + [segment]) + rest == segments + ([segment] + rest);
      segments := segments + [segment];
      index := index + 1;
    }
    EqualStep(fileId, ordered, index, PartStart(index, partSize), partSize, size);
    assert segments + [] == segments;
  }

  /** Where part `index` starts if all parts before it are full. */
  function PartStart(index: int, partSize: int): int {
    index * partSize
  }

  lemma NextMultiple(index: int, partSize: int)
    ensures PartStart(index, partSize) + partSize == PartStart(index + 1, partSize)
    ensures PartStart(0, partSize) == 0
  {
  }

  lemma EqualStep(fileId: string, ordered: seq<Article>, index: nat, start: int, partSize: int, size: int)
    ensures EqualSegments(fileId, ordered, index, start, partSize, size)
         == if index >= |ordered| || start >= size then []
            else
              var bytes := Min(partSize, size - start);
              [Segment(fileId, ordered[index].articleId, ordered[index].number, bytes, start, start + bytes - 1, 0)]
              + EqualSegments(fileId, ordered, index + 1, start + partSize, partSize, size)
  {
  }

  // ---------------------------------------------------------------------------
  // Exact manifests tile the file

  /** The article's header carries `begin` and `end`, 1-based and inclusive, of a file of `size` bytes. */
  ghost predicate IsPart(a: Article, headers: Headers, begin: int, end: int, size: int) {
    && 1 <= begin <= end <= size
    && InfoOf(a, headers) == Some(PartInfo(Some(size), begin - 1, end - begin + 1))
  }

  /** A =ypart line gives its part: the conversion from 1-based inclusive bounds. */
  lemma PartLineIsPart(a: Article, headers: Headers, begin: int, end: int, size: int, endSize: Attribute)
    requires 1 <= begin <= end <= size
    requires headers(a) == Some(Header(Num(size), Num(begin), Num(end), endSize))
    ensures IsPart(a, headers, begin, end, size)
  {
  }

  /** Position `p`, counted from 1, is in the part of the article. */
  ghost predicate PartHas(a: Article, headers: Headers, p: int) {
    match InfoOf(a, headers)
    case None => false
    case Some(info) => info.HasPosition(p)
  }

  /** No position is in both parts. */
  ghost predicate Apart(a: Article, b: Article, headers: Headers) {
    forall p: int :: !(PartHas(a, headers, p) && PartHas(b, headers, p))
  }

  ghost predicate SomePartHas(articles: seq<Article>, headers: Headers, p: int) {
    exists a :: a in articles && PartHas(a, headers, p)
  }

  /** The parts partition the positions 1 to `size`, in whatever order they were posted. */
  ghost predicate Partition(articles: seq<Article>, headers: Headers, size: int) {
    && (forall a | a in articles :: exists begin, end :: IsPart(a, headers, begin, end, size))
    && (forall i, j | 0 <= i < j < |articles| :: Apart(articles[i], articles[j], headers))
    && (forall p: int | 1 <= p <= size :: SomePartHas(articles, headers, p))
  }

  lemma PartitionOfOrdered(file: File, headers: Headers, size: int)
    requires Partition(file.articles, headers, size)
    ensures Partition(OrderedArticles(file), headers, size)
  {
    SortKeepsElements(file.articles, BY_NUMBER);
    SortKeepsPairwise(file.articles, BY_NUMBER, (a: Article, b: Article) => Apart(a, b, headers));
    forall p: int | 1 <= p <= size
      ensures SomePartHas(OrderedArticles(file), headers, p)
    {
      assert SomePartHas(file.articles, headers, p);
      var a :| a in file.articles && PartHas(a, headers, p);
      assert a in OrderedArticles(file);
    }
  }

  /** With all headers read there is one segment for each article. */
  lemma {:induction false} PartSegmentsAre(fileId: string, articles: seq<Article>, headers: Headers)
    requires forall a | a in articles :: InfoOf(a, headers).Some?
    ensures |PartSegments(fileId, articles, headers)| == |articles|
    ensures forall i | 0 <= i < |articles| ::
      PartSegments(fileId, articles, headers)[i] == PartSegment(fileId, articles[i], InfoOf(articles[i], headers).value)
  {
    if articles != [] {
      PartSegmentsAre(fileId, articles[1..], headers);
    }
  }

  lemma {:induction false} LargestIsTheSize(articles: seq<Article>, headers: Headers, size: int)
    requires articles != [] && size > 0
    requires forall a | a in articles :: InfoOf(a, headers).Some? && InfoOf(a, headers).value.fileSize == Some(size)
    ensures LargestFileSize(articles, headers) == size
  {
    if |articles| > 1 {
      LargestIsTheSize(articles[1..], headers, size);
    } else {
      assert articles[1..] == [];
    }
  }

  ghost predicate SegmentsApart(a: Segment, b: Segment) {
    forall p: int :: !(a.Covers(p) && b.Covers(p))
  }

  ghost predicate SomeCovers(segs: seq<Segment>, p: int) {
    exists s :: s in segs && s.Covers(p)
  }

  /** Non-empty segments of [0, size), any two apart, together covering it. */
  ghost predicate Cut(segs: seq<Segment>, size: int) {
    && (forall s | s in segs :: 0 <= s.start <= s.end < size)
    && Pairwise(segs, SegmentsApart)
    && (forall p: int | 0 <= p < size :: SomeCovers(segs, p))
  }

  lemma SortKeepsCut(segs: seq<Segment>, size: int)
    requires Cut(segs, size)
    ensures Cut(SortBy(segs, BY_START), size)
  {
    SortKeepsElements(segs, BY_START);
    SortKeepsPairwise(segs, BY_START, SegmentsApart);
    forall p: int | 0 <= p < size
      ensures SomeCovers(SortBy(segs, BY_START), p)
    {
      assert SomeCovers(segs, p);
      var s :| s in segs && s.Covers(p);
      assert s in SortBy(segs, BY_START);
    }
  }

  /** Sorted, neighbouring segments of a cut do not overlap. */
  lemma NeighboursApart(segs: seq<Segment>, size: int, i: nat, j: nat)
    requires Cut(segs, size) && SortedBy(segs, BY_START) && i < j < |segs|
    ensures segs[i].end < segs[j].start
  {
    assert BY_START(segs[i]) <= BY_START(segs[j]);
    assert segs[j] in segs;
    if segs[j].start <= segs[i].end {
      assert SegmentsApart(segs[i], segs[j]);
      assert segs[i].Covers(segs[j].start) && segs[j].Covers(segs[j].start);
      assert false;
    }
  }

  /** A position that no segment covers is not in [0, size). */
  lemma SortedCutIsContiguous(segs: seq<Segment>, size: int)
    requires Cut(segs, size) && SortedBy(segs, BY_START) && size > 0
    ensures Contiguous(segs, 0, size)
  {
    forall i, j | 0 <= i < j < |segs|
      ensures segs[i].end < segs[j].start
    {
      NeighboursApart(segs, size, i, j);
    }
    var k0 := CoveringIndex(segs, size, 0);
    assert segs[0] in segs && segs[k0] in segs;
    var last := segs[|segs| - 1];
    assert last in segs;
    if last.end + 1 < size {
      var k := CoveringIndex(segs, size, last.end + 1);
      assert false;
    }
    forall i, j | 0 <= i < j < |segs| && j == i + 1
      ensures segs[j].start == segs[i].end + 1
    {
      assert segs[i] in segs && segs[j] in segs;
      if segs[i].end + 1 < segs[j].start {
        var k := CoveringIndex(segs, size, segs[i].end + 1);
        assert false;
      }
    }
    assert forall i | 0 <= i < |segs| :: segs[i] in segs;
  }

  lemma CoveringIndex(segs: seq<Segment>, size: int, p: int) returns (k: nat)
    requires Cut(segs, size) && 0 <= p < size
    ensures k < |segs| && segs[k].Covers(p)
  {
    assert SomeCovers(segs, p);
    var s :| s in segs && s.Covers(p);
    k :| k < |segs| && segs[k] == s;
  }

  /** The segments of a partition's parts cut the file. */
  lemma {:induction false} PartitionIsCut(fileId: string, articles: seq<Article>, headers: Headers, size: int)
    requires Partition(articles, headers, size) && forall a | a in articles :: InfoOf(a, headers).Some?
    ensures Cut(PartSegments(fileId, articles, headers), size)
  {
    var segs := PartSegments(fileId, articles, headers);
    PartSegmentsAre(fileId, articles, headers);
    forall s | s in segs
      ensures 0 <= s.start <= s.end < size
    {
      var i :| 0 <= i < |segs| && segs[i] == s;
      assert articles[i] in articles;
      var begin, end :| IsPart(articles[i], headers, begin, end, size);
    }
    forall i, j | 0 <= i < j < |segs|
      ensures SegmentsApart(segs[i], segs[j])
    {
      assert Apart(articles[i], articles[j], headers);
      forall p: int
        ensures !(segs[i].Covers(p) && segs[j].Covers(p))
      {
        assert segs[i].Covers(p) == PartHas(articles[i], headers, p + 1);
        assert segs[j].Covers(p) == PartHas(articles[j], headers, p + 1);
      }
    }
    forall p: int | 0 <= p < size
      ensures SomeCovers(segs, p)
    {
      assert SomePartHas(articles, headers, p + 1);
      var a :| a in articles && PartHas(a, headers, p + 1);
      var i :| 0 <= i < |articles| && articles[i] == a;
      assert segs[i] in segs && segs[i].Covers(p);
    }
  }

  lemma PartitionInfos(articles: seq<Article>, headers: Headers, size: int)
    requires Partition(articles, headers, size)
    ensures forall a | a in articles :: InfoOf(a, headers).Some? && InfoOf(a, headers).value.fileSize == Some(size)
    ensures size > 0 ==> articles != []
  {
    forall a | a in articles
      ensures InfoOf(a, headers).Some? && InfoOf(a, headers).value.fileSize == Some(size)
    {
      var begin, end :| IsPart(a, headers, begin, end, size);
    }
    assert size > 0 ==> SomePartHas(articles, headers, 1);
  }

  /**
   If the parts partition the file, in any posting order, exact mode gives its true
   size and one segment per article, each with its own header's bounds, which
   follow each other without gap from 0 to the end.
   */
  lemma ExactManifestTiles(file: File, headers: Headers, size: int)
    requires Partition(file.articles, headers, size) && size > 0
    ensures var r := Built(file, true, Exact, headers);
      && r.Some? && r.value.size == size
      && Contiguous(r.value.segments, 0, size)
      && multiset(r.value.segments) == multiset(PartSegments(file.id, OrderedArticles(file), headers))
      && multiset(OrderedArticles(file)) == multiset(file.articles)
  {
    hide Cut, Contiguous, Partition, InfoOf, SortBy, PartSegments, LargestFileSize, SortedBy;
    var ordered := OrderedArticles(file);
    SortKeepsElements(file.articles, BY_NUMBER);
    PartitionOfOrdered(file, headers, size);
    PartitionInfos(ordered, headers, size);
    var segs := PartSegments(file.id, ordered, headers);
    PartSegmentsAre(file.id, ordered, headers);
    LargestIsTheSize(ordered, headers, size);
    PartitionIsCut(file.id, ordered, headers, size);
    SortKeepsCut(segs, size);
    SortSorts(segs, BY_START);
    SortKeepsElements(segs, BY_START);
    SortedCutIsContiguous(SortBy(segs, BY_START), size);
  }

  /** The article's body is the part of the file its header names. */
  ghost predicate BodyMatches(a: Article, headers: Headers, articles: Articles, content: Buffer) {
    match InfoOf(a, headers)
    case None => false
    case Some(info) =>
      && 0 <= info.partOffset && info.partOffset + info.partSize <= |content|
      && articles(a.articleId) == content[info.partOffset..info.partOffset + info.partSize]
  }

  /** What every reader needs: if the bodies match their headers, the manifest describes the file. */
  lemma ExactManifestDescribesFile(file: File, headers: Headers, articles: Articles, content: Buffer)
    requires Partition(file.articles, headers, |content|) && content != []
    requires forall a | a in file.articles :: BodyMatches(a, headers, articles, content)
    ensures Built(file, true, Exact, headers).Some?
    ensures Tiles(Built(file, true, Exact, headers).value.segments, articles, content)
  {
    hide Cut, Contiguous, Partition, Holds, Built, BodyMatches;
    ExactManifestTiles(file, headers, |content|);
    var segs, ordered := Built(file, true, Exact, headers).value.segments, OrderedArticles(file);
    var parts := PartSegments(file.id, ordered, headers);
    SortKeepsElements(file.articles, BY_NUMBER);
    PartsHold(file.id, ordered, headers, articles, content);
    forall i | 0 <= i < |segs|
      ensures Holds(segs[i], articles, content)
    {
      assert segs[i] in multiset(segs);
      assert segs[i] in parts;
    }
  }

  lemma {:induction false} PartsHold(fileId: string, ordered: seq<Article>, headers: Headers, articles: Articles, content: Buffer)
    requires forall a | a in ordered :: BodyMatches(a, headers, articles, content)
    ensures forall s | s in PartSegments(fileId, ordered, headers) :: Holds(s, articles, content)
  {
    if ordered != [] {
      PartsHold(fileId, ordered[1..], headers, articles, content);
      assert ordered[0] in ordered;
      PartHolds(fileId, ordered[0], headers, articles, content);
    }
  }

  lemma PartHolds(fileId: string, a: Article, headers: Headers, articles: Articles, content: Buffer)
    requires BodyMatches(a, headers, articles, content)
    ensures InfoOf(a, headers).Some? && Holds(PartSegment(fileId, a, InfoOf(a, headers).value), articles, content)
  {
    var body := articles(a.articleId);
    assert body[0..|body|] == body;
  }

  // ---------------------------------------------------------------------------
  // When exact mode is possible, and what fast mode is

  ghost predicate EveryHeaderRead(articles: seq<Article>, headers: Headers) {
    forall a | a in articles :: InfoOf(a, headers).Some?
  }

  /** Some header announces this size for the file. */
  ghost predicate SizeAnnounced(articles: seq<Article>, headers: Headers, size: int) {
    exists a :: a in articles && InfoOf(a, headers).Some? && InfoOf(a, headers).value.fileSize == Some(size)
  }

  /** Parsed sizes are positive. */
  lemma AnnouncedIsPositive(a: Article, headers: Headers)
    ensures InfoOf(a, headers).Some? && InfoOf(a, headers).value.fileSize.Some? ==> InfoOf(a, headers).value.fileSize.value > 0
  {
  }

  /** The size of exact mode is the largest that any header announces, and 0 if none does. */
  lemma {:induction false} LargestIsAnnounced(articles: seq<Article>, headers: Headers)
    ensures var size := LargestFileSize(articles, headers);
      && (size > 0 ==> SizeAnnounced(articles, headers, size))
      && (forall other: int | SizeAnnounced(articles, headers, other) :: other <= size)
      && (size == 0 <==> forall other: int :: !SizeAnnounced(articles, headers, other))
  {
    hide InfoOf;
    if articles != [] {
      var rest := articles[1..];
      LargestIsAnnounced(rest, headers);
      AnnouncedIsPositive(articles[0], headers);
      AnnouncedInTail(articles, headers);
    }
  }

  lemma AnnouncedInTail(articles: seq<Article>, headers: Headers)
    requires articles != []
    ensures forall size: int ::
      SizeAnnounced(articles, headers, size) <==> SizeAnnounced([articles[0]], headers, size) || SizeAnnounced(articles[1..], headers, size)
  {
    hide InfoOf;
    assert forall a :: a in articles <==> a == articles[0] || a in articles[1..];
    forall size: int
      ensures SizeAnnounced(articles[1..], headers, size) ==> SizeAnnounced(articles, headers, size)
    {
    }
  }

  lemma {:induction false} NoMoreThanArticles(fileId: string, articles: seq<Article>, headers: Headers)
    ensures |PartSegments(fileId, articles, headers)| <= |articles|
    ensures |PartSegments(fileId, articles, headers)| == |articles| <==> EveryHeaderRead(articles, headers)
  {
    hide InfoOf;
    if articles != [] {
      NoMoreThanArticles(fileId, articles[1..], headers);
      assert forall a :: a in articles <==> a == articles[0] || a in articles[1..];
    }
  }

  /**
   Exact mode has an answer of its own exactly when every article's header was read and
   some header announces a size. Then there is one segment for each article, and the size is
   the largest announced. In every other case it answers as fast mode does. Without providers
   there is no answer in either.
   */
  lemma ExactModeMeans(file: File, headers: Headers)
    requires file.articles != []
    ensures var exact, fast := Built(file, true, Exact, headers), Built(file, true, Fast, headers);
      var possible := EveryHeaderRead(file.articles, headers) && exists size: int :: SizeAnnounced(file.articles, headers, size);
      && (forall mode :: Built(file, false, mode, headers).None?)
      && (!possible ==> exact == fast)
      && (possible ==>
            && exact.Some? && |exact.value.segments| == |file.articles|
            && (forall a | a in file.articles :: PartSegment(file.id, a, InfoOf(a, headers).value) in exact.value.segments)
            && SizeAnnounced(file.articles, headers, exact.value.size)
            && forall other: int | SizeAnnounced(file.articles, headers, other) :: other <= exact.value.size)
  {
    hide InfoOf, PartSegments, LargestFileSize, SortBy, FastManifest;
    var ordered := OrderedArticles(file);
    SortKeepsElements(file.articles, BY_NUMBER);
    SameAnnounced(file.articles, ordered, headers);
    var segs := PartSegments(file.id, ordered, headers);
    NoMoreThanArticles(file.id, ordered, headers);
    LargestIsAnnounced(ordered, headers);
    SortKeepsElements(segs, BY_START);
    if EveryHeaderRead(ordered, headers) {
      PartSegmentsAre(file.id, ordered, headers);
      forall a | a in file.articles
        ensures PartSegment(file.id, a, InfoOf(a, headers).value) in SortBy(segs, BY_START)
      {
        assert a in ordered;
        var i :| 0 <= i < |ordered| && ordered[i] == a;
        assert segs[i] in segs;
      }
    }
  }

  lemma SameAnnounced(articles: seq<Article>, others: seq<Article>, headers: Headers)
    requires forall a :: a in articles <==> a in others
    ensures EveryHeaderRead(articles, headers) <==> EveryHeaderRead(others, headers)
    ensures forall size: int :: SizeAnnounced(articles, headers, size) <==> SizeAnnounced(others, headers, size)
  {
  }

  /**
   The articles in the order of their numbers, and in the order they were listed where numbers
   are equal. Fast mode goes by the first of them.
   */
  lemma OrderedByNumber(file: File)
    ensures var ordered := OrderedArticles(file);
      && multiset(ordered) == multiset(file.articles)
      && (forall i, j | 0 <= i < j < |ordered| :: ordered[i].number <= ordered[j].number)
      && forall n: int :: WithKey(ordered, BY_NUMBER, n) == WithKey(file.articles, BY_NUMBER, n)
    ensures forall a: Article :: BY_NUMBER(a) == a.number
  {
    SortKeepsElements(file.articles, BY_NUMBER);
    SortSorts(file.articles, BY_NUMBER);
    var ordered := OrderedArticles(file);
    forall i, j | 0 <= i < j < |ordered|
      ensures ordered[i].number <= ordered[j].number
    {
      assert BY_NUMBER(ordered[i]) <= BY_NUMBER(ordered[j]);
    }
    forall n: int
      ensures WithKey(ordered, BY_NUMBER, n) == WithKey(file.articles, BY_NUMBER, n)
    {
      SortIsStable(file.articles, BY_NUMBER, n);
    }
  }

  // ---------------------------------------------------------------------------
  // Fast mode refines exact mode

  /** Part i starts at i * partSize and is full, except that the last ends with the file. */
  ghost predicate EqualParts(file: File, headers: Headers, partSize: int, size: int) {
    var ordered := OrderedArticles(file);
    && 0 < partSize && 0 < size
    && PartStart(|ordered| - 1, partSize) < size <= PartStart(|ordered|, partSize)
    && forall i | 0 <= i < |ordered| ::
         InfoOf(ordered[i], headers) == Some(EqualPart(i, partSize, size))
  }

  function EqualPart(i: nat, partSize: int, size: int): PartInfo {
    PartInfo(Some(size), PartStart(i, partSize), Min(partSize, size - PartStart(i, partSize)))
  }

  lemma EarlierStart(i: nat, j: nat, partSize: int)
    requires i <= j && 0 < partSize
    ensures PartStart(i, partSize) <= PartStart(j, partSize)
  {
  }

  lemma {:induction false} EqualSegmentsAre(
    fileId: string, ordered: seq<Article>, headers: Headers, index: nat, partSize: int, size: int)
    requires index <= |ordered| && 0 < partSize && PartStart(|ordered| - 1, partSize) < size
    requires forall i | 0 <= i < |ordered| :: InfoOf(ordered[i], headers) == Some(EqualPart(i, partSize, size))
    ensures EqualSegments(fileId, ordered, index, PartStart(index, partSize), partSize, size)
         == PartSegments(fileId, ordered[index..], headers)
    decreases |ordered| - index
  {
    if index < |ordered| {
      EarlierStart(index, |ordered| - 1, partSize);
      NextMultiple(index, partSize);
      assert ordered[index..][0] == ordered[index] && ordered[index..][1..] == ordered[index + 1..];
      EqualSegmentsAre(fileId, ordered, headers, index + 1, partSize, size);
    }
  }

  /** For equal parts fast mode gives exactly what exact mode gives, and the last part alone tells the size. */
  lemma FastRefinesExact(file: File, headers: Headers, partSize: int, size: int)
    requires EqualParts(file, headers, partSize, size) && file.articles != []
    ensures Built(file, true, Fast, headers) == Built(file, true, Exact, headers)
    ensures Built(file, true, Fast, headers).Some? && Built(file, true, Fast, headers).value.size == size
    ensures DecodedFileSize(file, headers) == size
  {
    hide InfoOf, PartSegments, EqualSegments, LargestFileSize, SortBy;
    var ordered := OrderedArticles(file);
    EqualPartInfos(ordered, headers, partSize, size);
    LargestIsTheSize(ordered, headers, size);
    PartSegmentsAre(file.id, ordered, headers);
    if |ordered| > 1 {
      EarlierStart(1, |ordered| - 1, partSize);
    }
    EqualSegmentsAre(file.id, ordered, headers, 0, Min(partSize, size), size);
    assert ordered[0..] == ordered;
    EqualPartsSorted(file.id, ordered, headers, partSize, size);
    SortOfSorted(PartSegments(file.id, ordered, headers), BY_START);
    NextMultiple(|ordered| - 1, partSize);
  }

  lemma EqualPartInfos(ordered: seq<Article>, headers: Headers, partSize: int, size: int)
    requires forall i | 0 <= i < |ordered| :: InfoOf(ordered[i], headers) == Some(EqualPart(i, partSize, size))
    ensures forall a | a in ordered :: InfoOf(a, headers).Some? && InfoOf(a, headers).value.fileSize == Some(size)
    ensures ordered != [] ==> InfoOf(ordered[0], headers) == Some(PartInfo(Some(size), 0, Min(partSize, size)))
  {
    hide InfoOf;
    NextMultiple(0, partSize);
    forall a | a in ordered
      ensures InfoOf(a, headers).Some? && InfoOf(a, headers).value.fileSize == Some(size)
    {
      var i :| 0 <= i < |ordered| && ordered[i] == a;
    }
  }

  lemma EqualPartsSorted(fileId: string, ordered: seq<Article>, headers: Headers, partSize: int, size: int)
    requires 0 < partSize
    requires forall i | 0 <= i < |ordered| :: InfoOf(ordered[i], headers) == Some(EqualPart(i, partSize, size))
    ensures SortedBy(PartSegments(fileId, ordered, headers), BY_START)
  {
    hide InfoOf, PartSegments;
    PartSegmentsAre(fileId, ordered, headers);
    var segs := PartSegments(fileId, ordered, headers);
    forall i, j | 0 <= i < j < |segs|
      ensures BY_START(segs[i]) <= BY_START(segs[j])
    {
      EarlierStart(i, j, partSize);
    }
  }

  /** `getDecodedYencFileSize`: where the last part ends, or the announced size. */
  function DecodedFileSize(file: File, headers: Headers): int {
    var ordered := OrderedArticles(file);
    if ordered == [] then Max(0, file.size)
    else
      match InfoOf(ordered[|ordered| - 1], headers)
      case Some(info) =>
        if info.partOffset >= 0 && info.partSize > 0 then info.partOffset + info.partSize else Max(0, file.size)
      case None => Max(0, file.size)
  }

  /**
   The file ends where the part of the article with the greatest number does, if its header
   could be read and names a place in the file, and else after as many bytes as were listed.
   */
  lemma DecodedSizeMeans(file: File, headers: Headers) returns (last: Article)
    requires file.articles != []
    ensures last in file.articles && forall a | a in file.articles :: a.number <= last.number
    ensures match InfoOf(last, headers)
      case Some(info) =>
        if info.partOffset >= 0
        then info.HasPosition(DecodedFileSize(file, headers)) && !info.HasPosition(DecodedFileSize(file, headers) + 1)
        else DecodedFileSize(file, headers) == if file.size < 0 then 0 else file.size
      case None => DecodedFileSize(file, headers) == if file.size < 0 then 0 else file.size
  {
    OrderedByNumber(file);
    var ordered := OrderedArticles(file);
    last := ordered[|ordered| - 1];
    assert last in multiset(ordered);
    forall a | a in file.articles
      ensures a.number <= last.number
    {
      assert a in multiset(ordered);
      var i :| 0 <= i < |ordered| && ordered[i] == a;
    }
  }
}
