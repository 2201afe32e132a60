/**
 Directly mounted files, end to end: the manifest `getDirectMountedFile` of
 src/services/mountedStream.service.ts guesses for a posted file, exactly when reads
 through that guess return the file, and that all readers then agree.
 */
module DirectFiles {
  import opened Bytes
  import opened Options
  import opened SegmentCache
  import opened Segments
  import opened Sorting
  import opened YencParts
  import opened YencManifest
  import opened RangePlanner
  import opened MountedReaders
  import opened MountedCache

  // ---------------------------------------------------------------------------
  // getDirectMountedFile

  function RawSegment(fileId: string, a: Article, start: int): Segment {
    Segment(fileId, a.articleId, a.number, a.bytes, start, start + a.bytes - 1, 0)
  }

  /** Without a manifest the announced sizes of the articles are the guess. */
  function RawSegments(fileId: string, articles: seq<Article>, start: int): (r: seq<Segment>)
    ensures |r| == |articles|
  {
    if articles == [] then []
    else
      [RawSegment(fileId, articles[0], start)] + RawSegments(fileId, articles[1..], start + articles[0].bytes)
  }

  /** The articles behind the segments of the mounted file, in segment order. */
  function SourcesOf(file: File, headers: Headers): seq<Article> {
    match Built(file, true, Fast, headers)
    case Some(manifest) => OrderedArticles(file)[..Min(|manifest.segments|, |file.articles|)]
    case None => file.articles
  }

  /** What the part headers say about these articles. */
  function InfosOf(articles: seq<Article>, headers: Headers): (r: seq<Option<PartInfo>>)
    ensures |r| == |articles| && forall i | 0 <= i < |r| :: r[i] == InfoOf(articles[i], headers)
  {
    seq(|articles|, i requires 0 <= i < |articles| => InfoOf(articles[i], headers))
  }

  /** The mounted file: always the fast manifest, or else the raw guess. */
  function MountOf(file: File, headers: Headers): DirectFile {
    var infos := InfosOf(SourcesOf(file, headers), headers);
    match Built(file, true, Fast, headers)
    case Some(manifest) => DirectFile(file.id, Max(0, manifest.size), manifest.segments, infos)
    case None => DirectFile(file.id, Max(0, DecodedFileSize(file, headers)), RawSegments(file.id, file.articles, 0), infos)
  }

  method MountDirectFile(file: File, headers: Headers) returns (d: DirectFile)
    ensures d == MountOf(file, headers)
  {
    hide Built, InfoOf, DecodedFileSize, RawSegments;
    var decoded := BuildDecodedYencSegments(file, true, Fast, headers);
    var size := Max(0, if decoded.Some? then decoded.value.size else DecodedFileSize(file, headers));
    var segments := if decoded.Some? then decoded.value.segments else [];
    if |segments| == 0 {
      if decoded.Some? {
        FastSegments(file, headers);
        assert false;
      }
      segments := CutByAnnouncedSizes(file);
    }
    d := DirectFile(file.id, size, segments, InfosOf(SourcesOf(file, headers), headers));
  }

  /** The fallback's map with its running cursor. */
  method CutByAnnouncedSizes(file: File) returns (segments: seq<Segment>)
    ensures segments == RawSegments(file.id, file.articles, 0)
  {
    hide RawSegments;
    segments := [];
    var cursor := 0;
    ghost var rest := RawSegments(file.id, file.articles, 0);
    ghost var all := rest;
    assert file.articles[0..] == file.articles;
    for index := 0 to |file.articles|
      invariant rest == RawSegments(file.id, file.articles[index..], cursor)
      invariant segments + rest == all
    {
      var a := file.articles[index];
      var start := cursor;
      cursor := cursor + a.bytes;
      var segment := RawSegment(file.id, a, start);
      RawStep(file.id, file.articles, index, start);
      rest := RawSegments(file.id, file.articles[index + 1..], cursor);
      assert (segments + [segment]) + rest == segments + ([segment] + rest);
      segments := segments + [segment];
    }
    assert rest == [];
    assert segments + [] == segments;
  }

  lemma RawStep(fileId: string, articles: seq<Article>, index: nat, start: int)
    requires index < |articles|
    ensures RawSegments(fileId, articles[index..], start)
         == [RawSegment(fileId, articles[index], start)]
            + RawSegments(fileId, articles[index + 1..], start + articles[index].bytes)
  {
    assert articles[index..][0] == articles[index] && articles[index..][1..] == articles[index + 1..];
  }

  // ---------------------------------------------------------------------------
  // The shape of the guess

  /** Segment `i` of a fast manifest: it starts at `i` times the first part's size. */
  predicate IsMultiple(s: Segment, partSize: int, size: int, i: nat) {
    s.start == PartStart(i, partSize) < size && s.end + 1 == Min(PartStart(i + 1, partSize), size)
  }

  lemma {:induction false} EqualSegmentAt(
    fileId: string, ordered: seq<Article>, index: nat, partSize: int, size: int)
    requires index <= |ordered| && partSize > 0
    ensures var segs := EqualSegments(fileId, ordered, index, PartStart(index, partSize), partSize, size);
      && index + |segs| <= |ordered|
      && (index + |segs| < |ordered| ==> PartStart(index + |segs|, partSize) >= size)
      && forall i | 0 <= i < |segs| ::
           && segs[i].articleId == ordered[index + i].articleId && segs[i].number == ordered[index + i].number
           && IsMultiple(segs[i], partSize, size, index + i)
    decreases |ordered| - index
  {
    hide PartStart;
    var start := PartStart(index, partSize);
    EqualStep(fileId, ordered, index, start, partSize, size);
    if index < |ordered| && start < size {
      NextMultiple(index, partSize);
      EqualSegmentAt(fileId, ordered, index + 1, partSize, size);
    }
  }

  /** The first part's size, when fast mode can use it. */
  lemma FastSegments(file: File, headers: Headers)
    requires Built(file, true, Fast, headers).Some?
    ensures var ordered, segs := OrderedArticles(file), Built(file, true, Fast, headers).value.segments;
      && ordered != [] && InfoOf(ordered[0], headers).Some?
      && var info := InfoOf(ordered[0], headers).value;
      && info.partOffset == 0 && info.partSize > 0
      && info.fileSize == Some(Built(file, true, Fast, headers).value.size)
      && 0 < |segs| <= |ordered|
      && (|segs| < |ordered| ==> PartStart(|segs|, info.partSize) >= info.fileSize.value)
      && forall i | 0 <= i < |segs| ::
           && segs[i].articleId == ordered[i].articleId && segs[i].number == ordered[i].number
           && IsMultiple(segs[i], info.partSize, info.fileSize.value, i)
  {
    hide InfoOf, PartStart, EqualSegments;
    var ordered := OrderedArticles(file);
    var info := InfoOf(ordered[0], headers).value;
    NextMultiple(0, info.partSize);
    EqualSegmentAt(file.id, ordered, 0, info.partSize, info.fileSize.value);
    EqualStep(file.id, ordered, 0, 0, info.partSize, info.fileSize.value);
  }

  /** One segment of the raw guess: all of the article, as long as listed. */
  predicate IsRaw(s: Segment, a: Article) {
    s.articleId == a.articleId && s.number == a.number && s.sourceOffset == 0 && s.Length() == s.bytes == a.bytes
  }

  lemma {:induction false} RawSegmentAt(fileId: string, articles: seq<Article>, start: int, i: nat)
    requires i < |articles|
    ensures IsRaw(RawSegments(fileId, articles, start)[i], articles[i])
  {
    hide RawSegments;
    RawCons(fileId, articles, start);
    if i > 0 {
      RawSegmentAt(fileId, articles[1..], start + articles[0].bytes, i - 1);
    }
  }

  lemma {:induction false} RawIsContiguous(fileId: string, articles: seq<Article>, start: int)
    requires articles != []
    ensures var segs := RawSegments(fileId, articles, start);
      Contiguous(segs, start, segs[|segs| - 1].end + 1)
  {
    hide Contiguous, RawSegments;
    var a, rest := articles[0], articles[1..];
    var first, others := RawSegment(fileId, a, start), RawSegments(fileId, rest, start + a.bytes);
    RawCons(fileId, articles, start);
    OneIsContiguous(first);
    if rest == [] {
      assert [first] + others == [first];
    } else {
      RawIsContiguous(fileId, rest, start + a.bytes);
      ContiguousAppend([first], others, start, first.end + 1, others[|others| - 1].end + 1);
    }
  }

  lemma RawSegmentsAre(fileId: string, articles: seq<Article>, start: int)
    requires articles != []
    ensures var segs := RawSegments(fileId, articles, start);
      && Contiguous(segs, start, segs[|segs| - 1].end + 1)
      && forall i | 0 <= i < |segs| :: IsRaw(segs[i], articles[i])
  {
    hide Contiguous, RawSegments, IsRaw;
    RawIsContiguous(fileId, articles, start);
    forall i | 0 <= i < |articles|
      ensures IsRaw(RawSegments(fileId, articles, start)[i], articles[i])
    {
      RawSegmentAt(fileId, articles, start, i);
    }
  }

  lemma RawCons(fileId: string, articles: seq<Article>, start: int)
    requires articles != []
    ensures RawSegments(fileId, articles, start)
         == [RawSegment(fileId, articles[0], start)] + RawSegments(fileId, articles[1..], start + articles[0].bytes)
  {
  }

  lemma OneIsContiguous(s: Segment)
    requires s.start <= s.end + 1
    ensures Contiguous([s], s.start, s.end + 1)
  {
  }

  /** Where the guess ends. */
  function Reach(segs: seq<Segment>): int
    requires segs != []
  {
    segs[|segs| - 1].end + 1
  }

  /** Every guess runs without gap from 0, with one segment for each of its articles. */
  lemma MountShape(file: File, headers: Headers)
    requires file.articles != []
    ensures var d, sources := MountOf(file, headers), SourcesOf(file, headers);
      && |d.segs| == |d.infos| == |sources| > 0 && d.size >= 0
      && Contiguous(d.segs, 0, Reach(d.segs))
      && forall i | 0 <= i < |sources| :: d.segs[i].articleId == sources[i].articleId && d.segs[i].number == sources[i].number
  {
    hide InfoOf, PartStart, Built, RawSegments, DecodedFileSize;
    if Built(file, true, Fast, headers).Some? {
      FastSegments(file, headers);
      FastIsContiguous(file, headers);
    } else {
      RawSegmentsAre(file.id, file.articles, 0);
    }
  }

  /** The first article's part starts the file and its header names the size of that. */
  predicate FirstPart(file: File, headers: Headers, size: int, partSize: int) {
    file.articles != [] && InfoOf(OrderedArticles(file)[0], headers) == Some(PartInfo(Some(size), 0, partSize))
  }

  /**
   With such a first part all segments are as long as it is, as far as the file goes, for the
   articles by number.
   */
  lemma MountsEqualParts(file: File, headers: Headers, size: int, partSize: int)
    requires FirstPart(file, headers, size, partSize)
    ensures var d, sources := MountOf(file, headers), SourcesOf(file, headers);
      && |d.segs| == |sources| > 0 && d.size == size && sources <= OrderedArticles(file)
      && (sources == OrderedArticles(file) || Reach(d.segs) == size)
      && forall i | 0 <= i < |d.segs| ::
           && d.segs[i].articleId == sources[i].articleId
           && d.segs[i].Length() == Min(partSize, size - d.segs[i].start) > 0
  {
    hide InfoOf, PartStart, EqualSegments, SortBy;
    var ordered := OrderedArticles(file);
    AnnouncedIsPositive(ordered[0], headers);
    PartIsNotEmpty(ordered[0], headers);
    EqualStep(file.id, ordered, 0, 0, partSize, size);
    FastSegments(file, headers);
    var segs := MountOf(file, headers).segs;
    NextMultiple(|segs| - 1, partSize);
    forall i | 0 <= i < |segs|
      ensures segs[i].Length() == Min(partSize, size - segs[i].start) > 0
    {
      NextMultiple(i, partSize);
    }
    assert ordered[..|ordered|] == ordered;
  }

  lemma PartIsNotEmpty(a: Article, headers: Headers)
    ensures InfoOf(a, headers).Some? ==> InfoOf(a, headers).value.partSize > 0
  {
  }

  /** Without one the articles are taken as listed, with the lengths listed. */
  lemma MountsAsListed(file: File, headers: Headers)
    requires file.articles != [] && forall size, partSize :: !FirstPart(file, headers, size, partSize)
    ensures var d := MountOf(file, headers);
      && |d.segs| == |file.articles| && d.size == DecodedFileSize(file, headers)
      && SourcesOf(file, headers) == file.articles
      && forall i | 0 <= i < |d.segs| ::
           && d.segs[i].articleId == file.articles[i].articleId
           && d.segs[i].Length() == d.segs[i].bytes == file.articles[i].bytes
  {
    hide InfoOf, PartStart, EqualSegments, SortBy, RawSegments;
    if Built(file, true, Fast, headers).Some? {
      FastNeedsFirstPart(file, headers);
      assert false;
    } else {
      RawSegmentsAre(file.id, file.articles, 0);
      SizeNotNegative(file, headers);
    }
  }

  lemma FastNeedsFirstPart(file: File, headers: Headers)
    requires Built(file, true, Fast, headers).Some?
    ensures exists size, partSize :: FirstPart(file, headers, size, partSize)
  {
    FastSegments(file, headers);
    var info := InfoOf(OrderedArticles(file)[0], headers).value;
    assert FirstPart(file, headers, info.fileSize.value, info.partSize);
  }

  lemma SizeNotNegative(file: File, headers: Headers)
    ensures DecodedFileSize(file, headers) >= 0
  {
  }

  lemma FastIsContiguous(file: File, headers: Headers)
    requires Built(file, true, Fast, headers).Some?
    ensures var segs := Built(file, true, Fast, headers).value.segments;
      segs != [] && Contiguous(segs, 0, Reach(segs))
  {
    hide InfoOf, PartStart, Built, OrderedArticles;
    FastSegments(file, headers);
    var segs := Built(file, true, Fast, headers).value.segments;
    var partSize := InfoOf(OrderedArticles(file)[0], headers).value.partSize;
    NextMultiple(0, partSize);
    forall i | 0 <= i < |segs|
      ensures segs[i].start <= segs[i].end + 1
    {
      NextMultiple(i, partSize);
    }
  }

  // ---------------------------------------------------------------------------
  // When the guess serves

  /** Where the headers put the parts, and where the file ends. */
  function PartStarts(infos: seq<Option<PartInfo>>, size: int): (r: seq<int>)
    ensures |r| == |infos| + 1 && r[|infos|] == size
    ensures forall i | 0 <= i < |infos| && infos[i].Some? :: r[i] == infos[i].value.partOffset
  {
    seq(|infos|, i requires 0 <= i < |infos| => if infos[i].Some? then infos[i].value.partOffset else 0) + [size]
  }

  /** In segment order the parts run from 0 to the end of the file without gap. */
  ghost predicate InOrder(infos: seq<Option<PartInfo>>, size: int) {
    var starts := PartStarts(infos, size);
    && starts[0] == 0
    && (forall i | 0 <= i < |infos| :: infos[i].Some? && infos[i].value.partSize > 0)
    && forall i, j | 0 <= i < |infos| && j == i + 1 :: starts[j] == infos[i].value.partOffset + infos[i].value.partSize
  }

  /** Some byte of the file is in guessed segment `e` and really in part `k`. */
  predicate Overlap(guessStart: int, guessEnd: int, partStart: int, partEnd: int) {
    Max(guessStart, partStart) < Min(guessEnd, partEnd)
  }

  /** A byte of part `k` is guessed in segment `e`, out of the walk's reach, and that segment's start is wrong. */
  predicate Misguides(starts: seq<int>, segs: seq<Segment>, e: nat, k: nat)
    requires |starts| == |segs| + 1 && e < |segs| && k < |segs|
  {
    && Overlap(segs[e].start, segs[e].end + 1, starts[k], starts[k + 1])
    && !(-64 < k - e < 64)
    && segs[e].start != starts[e]
  }

  /** No byte's guess leads astray. */
  ghost predicate Guides(starts: seq<int>, segs: seq<Segment>)
    requires |starts| == |segs| + 1
  {
    forall e, k | 0 <= e < |segs| && 0 <= k < |segs| :: !Misguides(starts, segs, e, k)
  }

  /** What can be checked once the file is mounted: its order, its size, its reach and its drift. */
  ghost predicate MountedRight(d: DirectFile, size: int)
    requires |d.segs| == |d.infos| > 0
  {
    && d.size == size
    && InOrder(d.infos, size)
    && size <= Reach(d.segs)
    && Guides(PartStarts(d.infos, size), d.segs)
  }

  lemma {:induction false} StartsIncrease(infos: seq<Option<PartInfo>>, size: int, i: nat, j: nat)
    requires InOrder(infos, size) && i < j <= |infos|
    ensures PartStarts(infos, size)[i] < PartStarts(infos, size)[j]
    decreases j
  {
    if i < j - 1 {
      StartsIncrease(infos, size, i, j - 1);
    }
    assert infos[j - 1].Some? && j == (j - 1) + 1;
  }

  /** The part that holds a byte. */
  lemma {:induction false} PartOfByte(infos: seq<Option<PartInfo>>, size: int, p: int, n: nat) returns (k: nat)
    requires InOrder(infos, size) && n <= |infos| && 0 <= p < PartStarts(infos, size)[n]
    ensures k < n && PartStarts(infos, size)[k] <= p < PartStarts(infos, size)[k + 1]
  {
    if PartStarts(infos, size)[n - 1] <= p {
      k := n - 1;
    } else {
      k := PartOfByte(infos, size, p, n - 1);
    }
  }

  /** The articles are the parts of the file their headers name. */
  ghost predicate Matched(d: DirectFile, articles: Articles, content: Buffer)
    requires |d.segs| == |d.infos|
  {
    forall i | 0 <= i < |d.segs| :: PartMatches(d.infos[i], articles(d.segs[i].articleId), content)
  }

  ghost predicate PartMatches(info: Option<PartInfo>, body: Buffer, content: Buffer) {
    && info.Some? && 0 <= info.value.partOffset && info.value.partSize > 0
    && info.value.partOffset + info.value.partSize <= |content|
    && body == content[info.value.partOffset..info.value.partOffset + info.value.partSize]
  }

  /** A header probe while reading either answers as before, or fails at an article whose guess is right. */
  ghost predicate ProbesOk(d: DirectFile, infos: seq<Option<PartInfo>>, size: int)
    requires |d.segs| == |d.infos|
  {
    && |infos| == |d.infos|
    && forall i | 0 <= i < |infos| ::
      || infos[i] == d.infos[i]
      || (infos[i].None?
          && d.segs[i].start == PartStarts(d.infos, size)[i] && d.segs[i].end + 1 == PartStarts(d.infos, size)[i + 1])
  }

  lemma ProbesAreTrue(d: DirectFile, infos: seq<Option<PartInfo>>, size: int)
    requires |d.segs| == |d.infos| && InOrder(d.infos, size) && ProbesOk(d, infos, size)
    ensures TrueStarts(PartStarts(d.infos, size), d.segs, infos)
  {
    var starts := PartStarts(d.infos, size);
    forall i, j | 0 <= i < j < |starts|
      ensures starts[i] < starts[j]
    {
      StartsIncrease(d.infos, size, i, j);
    }
    forall i | 0 <= i < |d.segs|
      ensures EffectiveBounds(d.segs[i], infos[i]) == Bounds(starts[i], starts[i + 1] - 1)
    {
      assert d.infos[i].Some?;
    }
  }

  lemma MatchedIsFaithful(d: DirectFile, articles: Articles, content: Buffer)
    requires |d.segs| == |d.infos| && InOrder(d.infos, |content|) && Matched(d, articles, content)
    ensures Faithful(PartStarts(d.infos, |content|), d.segs, articles, content)
  {
    var starts := PartStarts(d.infos, |content|);
    forall i | 0 <= i < |d.segs|
      ensures BodyBetween(starts[i], starts[i + 1], articles(d.segs[i].articleId), content)
    {
      assert PartMatches(d.infos[i], articles(d.segs[i].articleId), content);
    }
  }

  /** Every byte's part is found from its guess. */
  lemma ByteIsFound(d: DirectFile, size: int, offset: nat)
    requires |d.segs| == |d.infos| > 0 && Contiguous(d.segs, 0, Reach(d.segs))
    requires MountedRight(d, size) && offset < size
    ensures FindsStart(PartStarts(d.infos, size), d.segs, offset)
  {
    hide Contiguous, InOrder;
    var starts := PartStarts(d.infos, size);
    var e := SomeSegmentCovers(d.segs, 0, Reach(d.segs), offset);
    var k := PartOfByte(d.infos, size, offset, |d.infos|);
    assert IsEstimate(d.segs, offset, e) && TrulyAt(starts, offset, k);
    assert !Misguides(starts, d.segs, e, k);
  }

  /** A file mounted right is served exactly, also when header probes fail where the guess is right anyway. */
  lemma MountedIsServed(d: DirectFile, infos: seq<Option<PartInfo>>, articles: Articles, content: Buffer)
    requires |d.segs| == |d.infos| > 0 && Contiguous(d.segs, 0, Reach(d.segs))
    requires MountedRight(d, |content|) && Matched(d, articles, content) && ProbesOk(d, infos, |content|)
    ensures Served(d.(infos := infos), PartStarts(d.infos, |content|), articles, content)
  {
    hide Contiguous, InOrder, Matched, TrueStarts, Faithful, Ordered, Reach, Guides, FindsStart;
    var starts := PartStarts(d.infos, |content|);
    ContiguousBounds(d.segs, 0, Reach(d.segs));
    ProbesAreTrue(d, infos, |content|);
    MatchedIsFaithful(d, articles, content);
    forall offset | 0 <= offset < |content|
      ensures Locatable(starts, d.segs, infos, articles, content, offset)
    {
      ByteIsFound(d, |content|, offset);
    }
  }

  // ---------------------------------------------------------------------------
  // The converse: a file mounted wrong is read wrong

  /** Every read of the mounted file gives the file's bytes. */
  ghost predicate ReadsExactly(d: DirectFile, articles: Articles, content: Buffer)
    requires |d.segs| == |d.infos|
  {
    forall start: nat, length: nat ::
      DirectRead(d.segs, d.infos, d.size, start, length, articles) == Ok(Slice(content, start, length))
  }

  /** A file of `size` bytes with a single 1, at position `p`. */
  function OneHot(size: nat, p: int): (r: Buffer)
    ensures |r| == size
  {
    seq(size, i => if i == p then 1 else 0)
  }

  /** A way to post any content of the size the headers announce. */
  type Posting = Buffer -> Articles

  ghost predicate PostsAll(d: DirectFile, posting: Posting, size: nat)
    requires |d.segs| == |d.infos|
  {
    forall content: Buffer | |content| == size :: Matched(d, posting(content), content)
  }

  ghost predicate AllExact(d: DirectFile, posting: Posting, size: nat)
    requires |d.segs| == |d.infos|
  {
    forall content: Buffer | |content| == size :: ReadsExactly(d, posting(content), content)
  }

  /** What one read of one content shows. */
  lemma ReadIsExact(d: DirectFile, posting: Posting, content: Buffer, start: nat, length: nat)
    requires |d.segs| == |d.infos| && AllExact(d, posting, |content|)
    ensures DirectRead(d.segs, d.infos, d.size, start, length, posting(content)) == Ok(Slice(content, start, length))
  {
    assert ReadsExactly(d, posting(content), content);
  }

  /** The size announced is not too small, and every byte has a guess. */
  lemma SizeAndReach(d: DirectFile, posting: Posting, size: nat)
    requires |d.segs| == |d.infos| > 0 && Contiguous(d.segs, 0, Reach(d.segs)) && AllExact(d, posting, size)
    requires 0 <= d.size <= size
    ensures d.size == size <= Reach(d.segs)
  {
    hide AllExact, Contiguous, Bodies;
    var zeros, reach := OneHot(size, -1), Reach(d.segs);
    ContiguousBounds(d.segs, 0, reach);
    assert forall e :: !IsEstimate(d.segs, reach, e);
    if d.size < size {
      ReadIsExact(d, posting, zeros, d.size, 1);
    } else if reach < size {
      ReadIsExact(d, posting, zeros, reach, 1);
    }
  }

  /** How long the parts from `i` to `j` are together. */
  function PartLengths(infos: seq<Option<PartInfo>>, i: nat, j: nat): int
    requires i <= j <= |infos|
    decreases j
  {
    if i == j then 0
    else PartLengths(infos, i, j - 1) + if infos[j - 1].Some? then infos[j - 1].value.partSize else 0
  }

  lemma {:induction false} BodiesLength(d: DirectFile, articles: Articles, content: Buffer, i: nat, j: nat)
    requires |d.segs| == |d.infos| && Matched(d, articles, content) && i <= j <= |d.segs|
    ensures |Bodies(d.segs[i..j], articles)| == PartLengths(d.infos, i, j)
    decreases j
  {
    if i == j {
      assert d.segs[i..j] == [];
    } else {
      assert PartMatches(d.infos[j - 1], articles(d.segs[j - 1].articleId), content);
      hide Matched, Bodies;
      BodiesLength(d, articles, content, i, j - 1);
      BodiesSnoc(d.segs, i, j - 1, articles);
    }
  }

  /** The first byte of article `j`, in the articles laid end to end from article `i` on. */
  lemma FirstByte(d: DirectFile, articles: Articles, content: Buffer, i: nat, j: nat)
    requires |d.segs| == |d.infos| && Matched(d, articles, content) && i <= j < |d.segs|
    ensures var at := PartLengths(d.infos, i, j);
      && 0 <= at < |Bodies(d.segs[i..], articles)| && d.infos[j].Some?
      && 0 <= d.infos[j].value.partOffset < |content|
      && Bodies(d.segs[i..], articles)[at] == content[d.infos[j].value.partOffset]
  {
    BodiesLength(d, articles, content, i, j);
    BodiesSnoc(d.segs, i, j, articles);
    BodiesPrefix(d.segs, i, j + 1, articles);
    assert PartMatches(d.infos[j], articles(d.segs[j].articleId), content);
  }

  /** Reading from 0 reads some articles end to end, from their first byte on. */
  lemma LocatedAtZero(d: DirectFile, articles: Articles, content: Buffer) returns (i: nat)
    requires |d.segs| == |d.infos| > 0 && Contiguous(d.segs, 0, Reach(d.segs)) && Reach(d.segs) > 0
    requires Matched(d, articles, content)
    ensures var found := Locate(d.segs, d.infos, 0);
      i < |d.segs| && found.Located? && found.index == i && found.bounds.start == 0
  {
    hide Walk;
    ContiguousBounds(d.segs, 0, Reach(d.segs));
    var e := SomeSegmentCovers(d.segs, 0, Reach(d.segs), 0);
    OneEstimate(d.segs, 0, e);
    i := Locate(d.segs, d.infos, 0).index;
    assert PartMatches(d.infos[i], articles(d.segs[i].articleId), content);
  }

  /** So a part that comes next must be the part that follows in the file. */
  lemma NextPartFollows(d: DirectFile, posting: Posting, size: nat, i: nat, j: nat)
    requires |d.segs| == |d.infos| > 0 && PostsAll(d, posting, size) && AllExact(d, posting, size) && d.size == size > 0
    requires i <= j <= |d.segs| && PartLengths(d.infos, i, j) < size
    requires var found := Locate(d.segs, d.infos, 0); found.Located? && found.index == i && found.bounds.start == 0
    ensures j < |d.segs| && d.infos[j].Some? && d.infos[j].value.partOffset == PartLengths(d.infos, i, j)
  {
    hide Locate, Matched, PartLengths, Bodies, AllExact;
    assert j == |d.segs| ==> d.segs[i..j] == d.segs[i..];
    var at := PartLengths(d.infos, i, j);
    var content := OneHot(size, at);
    var articles := posting(content);
    assert Matched(d, articles, content);
    ReadIsExact(d, posting, content, 0, size);
    var laid := Bodies(d.segs[i..], articles);
    assert Slice(laid, 0, size) == content by { assert Slice(content, 0, size) == content; }
    BodiesLength(d, articles, content, i, j);
    if j < |d.segs| {
      FirstByte(d, articles, content, i, j);
      assert laid[at] == content[at];
    }
  }

  /** No byte is in two parts. */
  ghost predicate Disjoint(infos: seq<Option<PartInfo>>) {
    forall x, y | 0 <= x < y < |infos| && infos[x].Some? && infos[y].Some? :: PartsApart(infos[x].value, infos[y].value)
  }

  predicate PartsApart(a: PartInfo, b: PartInfo) {
    a.partOffset + a.partSize <= b.partOffset || b.partOffset + b.partSize <= a.partOffset
  }

  /** From part `i` up to part `j` the parts follow each other in the file. */
  ghost predicate Chained(infos: seq<Option<PartInfo>>, i: nat, j: nat)
    requires i <= j <= |infos|
  {
    forall l | i <= l < j :: infos[l].Some? && infos[l].value.partOffset == PartLengths(infos, i, l)
  }

  /** Each byte before the end of such a run is in one of its parts. */
  lemma {:induction false} ChainCovers(infos: seq<Option<PartInfo>>, i: nat, j: nat, p: int) returns (l: nat)
    requires i <= j <= |infos| && Chained(infos, i, j) && 0 <= p < PartLengths(infos, i, j)
    ensures i <= l < j && infos[l].Some? && infos[l].value.partOffset <= p < infos[l].value.partOffset + infos[l].value.partSize
    decreases j
  {
    if infos[j - 1].value.partOffset <= p {
      l := j - 1;
    } else {
      l := ChainCovers(infos, i, j - 1, p);
    }
  }

  /** A part outside a run that covers the whole file has no room. */
  lemma NoRoom(infos: seq<Option<PartInfo>>, size: int, i: nat, j: nat, x: nat)
    requires i <= j <= |infos| && Chained(infos, i, j) && PartLengths(infos, i, j) == size
    requires Disjoint(infos) && x < |infos| && infos[x].Some? && !(i <= x < j)
    requires infos[x].value.partSize > 0
    ensures !(0 <= infos[x].value.partOffset < size)
  {
    if 0 <= infos[x].value.partOffset < size {
      var l := ChainCovers(infos, i, j, infos[x].value.partOffset);
    }
  }

  /** Each header names a part inside the file. */
  ghost predicate PartsInside(infos: seq<Option<PartInfo>>, size: int) {
    forall x | 0 <= x < |infos| :: infos[x].Some? && PartInside(infos[x].value, size)
  }

  predicate PartInside(info: PartInfo, size: int) {
    0 <= info.partOffset && info.partSize > 0 && info.partOffset + info.partSize <= size
  }

  lemma {:induction false} ExactIsChained(d: DirectFile, posting: Posting, size: nat, i: nat, j: nat)
    requires |d.segs| == |d.infos| > 0 && PostsAll(d, posting, size) && AllExact(d, posting, size) && d.size == size > 0
    requires Disjoint(d.infos) && PartsInside(d.infos, size) && i <= j <= |d.segs|
    requires var found := Locate(d.segs, d.infos, 0); found.Located? && found.index == i && found.bounds.start == 0
    ensures Chained(d.infos, i, j) && PartLengths(d.infos, i, j) <= size
    decreases j
  {
    hide PostsAll, AllExact, Locate, Disjoint, PartLengths;
    PartLengthsStep(d.infos, i, j);
    if i < j {
      ExactIsChained(d, posting, size, i, j - 1);
      assert PartInside(d.infos[j - 1].value, size);
      if PartLengths(d.infos, i, j - 1) == size {
        NoRoom(d.infos, size, i, j - 1, j - 1);
      } else {
        NextPartFollows(d, posting, size, i, j - 1);
      }
    }
  }

  lemma PartLengthsStep(infos: seq<Option<PartInfo>>, i: nat, j: nat)
    requires i <= j <= |infos|
    ensures i == j ==> PartLengths(infos, i, j) == 0
    ensures i < j && infos[j - 1].Some? ==> PartLengths(infos, i, j) == PartLengths(infos, i, j - 1) + infos[j - 1].value.partSize
  {
  }

  lemma ExactIsInOrder(d: DirectFile, posting: Posting, size: nat)
    requires |d.segs| == |d.infos| > 0 && Contiguous(d.segs, 0, Reach(d.segs)) && size <= Reach(d.segs)
    requires PostsAll(d, posting, size) && AllExact(d, posting, size) && d.size == size > 0
    requires Disjoint(d.infos) && PartsInside(d.infos, size)
    ensures InOrder(d.infos, size)
  {
    hide AllExact, Locate, Disjoint, PartLengths, Contiguous, Matched;
    var zeros, n := OneHot(size, -1), |d.infos|;
    assert Matched(d, posting(zeros), zeros);
    var i := LocatedAtZero(d, posting(zeros), zeros);
    ExactIsChained(d, posting, size, i, n);
    if PartLengths(d.infos, i, n) < size {
      NextPartFollows(d, posting, size, i, n);
    }
    if i > 0 {
      assert PartInside(d.infos[0].value, size);
      NoRoom(d.infos, size, i, n, 0);
    }
    ChainIsInOrder(d.infos, size);
  }

  lemma ChainIsInOrder(infos: seq<Option<PartInfo>>, size: int)
    requires infos != [] && Chained(infos, 0, |infos|) && PartLengths(infos, 0, |infos|) == size && PartsInside(infos, size)
    ensures InOrder(infos, size)
  {
    hide PartLengths;
    PartLengthsStep(infos, 0, 0);
    var starts := PartStarts(infos, size);
    forall i | 0 <= i <= |infos|
      ensures starts[i] == PartLengths(infos, 0, i)
    {
    }
    forall i, j | 0 <= i < |infos| && j == i + 1
      ensures starts[j] == infos[i].value.partOffset + infos[i].value.partSize
    {
      PartLengthsStep(infos, 0, j);
    }
    assert forall i | 0 <= i < |infos| :: PartInside(infos[i].value, size);
  }

  /** A byte whose guess is far off and wrong would be read from elsewhere. */
  lemma ExactIsGuided(d: DirectFile, posting: Posting, size: nat)
    requires |d.segs| == |d.infos| > 0 && Contiguous(d.segs, 0, Reach(d.segs)) && InOrder(d.infos, size)
    requires PostsAll(d, posting, size) && AllExact(d, posting, size) && d.size == size > 0
    ensures Guides(PartStarts(d.infos, size), d.segs)
  {
    hide AllExact, InOrder, Contiguous, Matched, TrueStarts, Faithful, Ordered, Slice;
    var starts := PartStarts(d.infos, size);
    ContiguousBounds(d.segs, 0, Reach(d.segs));
    forall e, k | 0 <= e < |d.segs| && 0 <= k < |d.segs| && Overlap(d.segs[e].start, d.segs[e].end + 1, starts[k], starts[k + 1])
      ensures !Misguides(starts, d.segs, e, k)
    {
      StartsBelowSize(d.infos, size, k + 1);
      ExactIsGuidedAt(d, posting, size, Max(d.segs[e].start, starts[k]), e, k);
    }
  }

  /** The file that differs from a blank one in that byte alone shows it. */
  lemma ExactIsGuidedAt(d: DirectFile, posting: Posting, size: nat, start: nat, e: nat, k: nat)
    requires |d.segs| == |d.infos| && Ordered(d.segs) && InOrder(d.infos, size)
    requires PostsAll(d, posting, size) && AllExact(d, posting, size) && start < d.size == size
    requires IsEstimate(d.segs, start, e) && TrulyAt(PartStarts(d.infos, size), start, k)
    ensures !Misguides(PartStarts(d.infos, size), d.segs, e, k)
  {
    hide AllExact, InOrder, Matched, TrueStarts, Faithful, Ordered, Slice;
    var starts := PartStarts(d.infos, size);
    var content := OneHot(size, start);
    var articles := posting(content);
    ProbesAreTrue(d, d.infos, size);
    assert Matched(d, articles, content);
    MatchedIsFaithful(d, articles, content);
    DirectReadAnswers(starts, d.segs, d.infos, articles, content, d.size, start, 1, e, k);
    ReadIsExact(d, posting, content, start, 1);
    OneHotTells(size, start, ReadsFrom(starts, d.segs, start, e, k));
  }

  lemma StartsBelowSize(infos: seq<Option<PartInfo>>, size: int, k: nat)
    requires InOrder(infos, size) && k <= |infos|
    ensures PartStarts(infos, size)[k] <= size
  {
    if k < |infos| {
      StartsIncrease(infos, size, k, |infos|);
    }
  }

  /** Reading one byte of a one-hot file elsewhere shows. */
  lemma OneHotTells(size: nat, start: nat, from: nat)
    requires start < size && Slice(OneHot(size, start), from, 1) == Slice(OneHot(size, start), start, 1)
    ensures from == start
  {
    var content := OneHot(size, start);
    assert Slice(content, start, 1)[0] == 1;
    assert Slice(content, from, 1)[0] == content[from];
  }

  /**
   For every content that can be posted with these headers: all reads of the mounted
   file are exact if and only if it is mounted right.
   */
  lemma AllExactIffMountedRight(d: DirectFile, posting: Posting, size: nat)
    requires |d.segs| == |d.infos| > 0 && Contiguous(d.segs, 0, Reach(d.segs)) && 0 <= d.size <= size && size > 0
    requires PostsAll(d, posting, size) && Disjoint(d.infos) && PartsInside(d.infos, size)
    ensures AllExact(d, posting, size) <==> MountedRight(d, size)
  {
    hide AllExact, PostsAll, Guides, InOrder, Contiguous, Disjoint, PartsInside;
    if AllExact(d, posting, size) {
      SizeAndReach(d, posting, size);
      ExactIsInOrder(d, posting, size);
      ExactIsGuided(d, posting, size);
    }
    if MountedRight(d, size) {
      RightIsExact(d, posting, size);
    }
  }

  lemma RightIsExact(d: DirectFile, posting: Posting, size: nat)
    requires |d.segs| == |d.infos| > 0 && Contiguous(d.segs, 0, Reach(d.segs)) && PostsAll(d, posting, size)
    requires MountedRight(d, size)
    ensures AllExact(d, posting, size)
  {
    hide MountedRight, Contiguous, Matched;
    forall content: Buffer | |content| == size
      ensures ReadsExactly(d, posting(content), content)
    {
      assert Matched(d, posting(content), content);
      assert d.(infos := d.infos) == d;
      MountedIsServed(d, d.infos, posting(content), content);
      ServedIsExact(d, PartStarts(d.infos, size), posting(content), content);
    }
  }

  /** What the cached reads assume of a file is that all its direct reads are exact. */
  lemma ServedIsExact(d: DirectFile, starts: seq<int>, articles: Articles, content: Buffer)
    requires |d.segs| == |d.infos| && Served(d, starts, articles, content)
    ensures ReadsExactly(d, articles, content)
  {
    hide Locatable, DirectRead, Slice;
    forall start: nat, length: nat
      ensures DirectRead(d.segs, d.infos, d.size, start, length, articles) == Ok(Slice(content, start, length))
    {
      if start < |content| {
        DirectReadIsContent(starts, d.segs, d.infos, articles, content, d.size, start, length);
      } else {
        BehindTheEnd(d, articles, start, length);
      }
      ExactWindow(content, start, length);
    }
  }

  lemma BehindTheEnd(d: DirectFile, articles: Articles, start: nat, length: nat)
    requires |d.segs| == |d.infos| && start >= d.size
    ensures DirectRead(d.segs, d.infos, d.size, start, length, articles) == Ok([])
  {
  }

  lemma ExactWindow(content: Buffer, start: nat, length: nat)
    ensures WindowOf(content, |content|, start, length) == Slice(content, start, length)
    ensures start >= |content| ==> Slice(content, start, length) == []
  {
  }

  // ---------------------------------------------------------------------------
  // Posted files

  predicate DistinctIds(articles: seq<Article>) {
    forall i, j | 0 <= i < j < |articles| :: articles[i].articleId != articles[j].articleId
  }

  /** The body of the article with this id, when the file has this content. */
  function PostedBody(articles: seq<Article>, headers: Headers, content: Buffer, id: string): Buffer {
    if articles == [] then []
    else if articles[0].articleId != id then PostedBody(articles[1..], headers, content, id)
    else
      match InfoOf(articles[0], headers)
      case None => []
      case Some(info) => if PartInside(info, |content|) then content[info.partOffset..info.partOffset + info.partSize] else []
  }

  /** Any content can be posted under these headers. */
  function Posted(file: File, headers: Headers): Posting {
    (content: Buffer) => (id: string) => PostedBody(file.articles, headers, content, id)
  }

  lemma {:induction false} PostedBodyIs(articles: seq<Article>, headers: Headers, content: Buffer, i: nat)
    requires DistinctIds(articles) && i < |articles|
    requires InfoOf(articles[i], headers).Some? && PartInside(InfoOf(articles[i], headers).value, |content|)
    ensures PartMatches(InfoOf(articles[i], headers), PostedBody(articles, headers, content, articles[i].articleId), content)
  {
    if i > 0 {
      assert articles[0].articleId != articles[i].articleId;
      PostedBodyIs(articles[1..], headers, content, i - 1);
    }
  }

  lemma PartitionParts(articles: seq<Article>, headers: Headers, size: int)
    requires Partition(articles, headers, size)
    ensures PartsInside(InfosOf(articles, headers), size) && Disjoint(InfosOf(articles, headers))
    ensures forall a | a in articles :: InfoOf(a, headers).Some? && InfoOf(a, headers).value.fileSize == Some(size)
  {
    hide InfoOf;
    var infos := InfosOf(articles, headers);
    forall i | 0 <= i < |articles|
      ensures infos[i].Some? && PartInside(infos[i].value, size) && infos[i].value.fileSize == Some(size)
    {
      assert articles[i] in articles;
      var begin, end :| IsPart(articles[i], headers, begin, end, size);
    }
    forall x, y | 0 <= x < y < |infos|
      ensures PartsApart(infos[x].value, infos[y].value)
    {
      assert Apart(articles[x], articles[y], headers);
      var p := Max(infos[x].value.partOffset, infos[y].value.partOffset) + 1;
      assert PartInside(infos[x].value, size) && PartInside(infos[y].value, size);
      assert !(PartHas(articles[x], headers, p) && PartHas(articles[y], headers, p));
    }
  }

  /** Fewer parts are still inside and apart. */
  lemma FirstParts(infos: seq<Option<PartInfo>>, size: int, n: nat)
    requires PartsInside(infos, size) && Disjoint(infos) && n <= |infos|
    ensures PartsInside(infos[..n], size) && Disjoint(infos[..n])
  {
  }

  /** What a partition says about the mounted file. */
  lemma MountOfPartition(file: File, headers: Headers, size: nat)
    requires Partition(file.articles, headers, size) && size > 0
    ensures var d := MountOf(file, headers);
      && |d.segs| == |d.infos| > 0 && Contiguous(d.segs, 0, Reach(d.segs)) && 0 <= d.size <= size
      && Disjoint(d.infos) && PartsInside(d.infos, size)
  {
    var ordered := OrderedArticles(file);
    assert |ordered| == |file.articles|;
    hide Partition, PartsInside, Disjoint, Contiguous, Built, DecodedFileSize, RawSegments, InfoOf, OrderedArticles;
    PartitionInfos(file.articles, headers, size);
    MountShape(file, headers);
    PartitionOfOrdered(file, headers, size);
    PartitionParts(file.articles, headers, size);
    PartitionParts(ordered, headers, size);
    var n := |SourcesOf(file, headers)|;
    if Built(file, true, Fast, headers).Some? {
      FirstParts(InfosOf(ordered, headers), size, n);
      assert InfosOf(ordered, headers)[..n] == InfosOf(SourcesOf(file, headers), headers);
      FastSegments(file, headers);
      assert ordered[0] in ordered;
    } else {
      LastPartInside(file, headers, size);
    }
  }

  lemma LastPartInside(file: File, headers: Headers, size: nat)
    requires PartsInside(InfosOf(OrderedArticles(file), headers), size) && OrderedArticles(file) != []
    ensures 0 <= DecodedFileSize(file, headers) <= size
  {
    var ordered := OrderedArticles(file);
    assert PartInside(InfosOf(ordered, headers)[|ordered| - 1].value, size);
  }

  lemma PostedMatches(file: File, headers: Headers, size: nat)
    requires Partition(file.articles, headers, size) && size > 0 && DistinctIds(file.articles)
    ensures |MountOf(file, headers).segs| == |MountOf(file, headers).infos|
    ensures PostsAll(MountOf(file, headers), Posted(file, headers), size)
  {
    hide Partition, PartsInside, Disjoint, Contiguous, Built, DecodedFileSize, RawSegments, InfoOf, OrderedArticles, PartMatches;
    PartitionInfos(file.articles, headers, size);
    MountShape(file, headers);
    PartitionParts(file.articles, headers, size);
    var d, sources, posting := MountOf(file, headers), SourcesOf(file, headers), Posted(file, headers);
    SourcesArePosted(file, headers);
    forall content: Buffer, i | |content| == size && 0 <= i < |d.segs|
      ensures PartMatches(d.infos[i], posting(content)(d.segs[i].articleId), content)
    {
      assert sources[i] in file.articles;
      var x :| 0 <= x < |file.articles| && file.articles[x] == sources[i];
      InsideAt(InfosOf(file.articles, headers), size, x);
      PostedBodyIs(file.articles, headers, content, x);
    }
  }

  lemma InsideAt(infos: seq<Option<PartInfo>>, size: int, x: nat)
    requires PartsInside(infos, size) && x < |infos|
    ensures infos[x].Some? && PartInside(infos[x].value, size)
  {
  }

  lemma SourcesArePosted(file: File, headers: Headers)
    ensures forall a | a in SourcesOf(file, headers) :: a in file.articles
  {
    SortKeepsElements(file.articles, BY_NUMBER);
    assert forall a | a in SourcesOf(file, headers) :: a in OrderedArticles(file) || a in file.articles;
  }

  /**
   The end-to-end theorem for posted files. Their parts partition the file and their
   headers say so, but segment numbers, part sizes and announced sizes may be
   anything. Then all direct reads are exact for all contents if and only if the mounted
   file has its parts in order, the right size, a guess that reaches the end, and no
   guess further off than the header walk can correct.
   */
  lemma PostedFileReadsIffMountedRight(file: File, headers: Headers, size: nat)
    requires Partition(file.articles, headers, size) && size > 0 && DistinctIds(file.articles)
    ensures var d := MountOf(file, headers);
      && |d.segs| == |d.infos| > 0
      && (AllExact(d, Posted(file, headers), size) <==> MountedRight(d, size))
  {
    hide Partition, PostsAll, AllExact, MountedRight, MountOf, Posted, Contiguous, Disjoint, PartsInside;
    MountOfPartition(file, headers, size);
    PostedMatches(file, headers, size);
    AllExactIffMountedRight(MountOf(file, headers), Posted(file, headers), size);
  }

  // ---------------------------------------------------------------------------
  // Parts numbered in file order

  /** The headers, in number order, cut the file at `starts`. */
  ghost predicate NumberedParts(file: File, headers: Headers, starts: seq<int>) {
    var ordered := OrderedArticles(file);
    && |starts| == |ordered| + 1 && starts[0] == 0
    && Increasing(starts)
    && forall i | 0 <= i < |ordered| :: NamesPart(InfoOf(ordered[i], headers), starts, i)
  }

  ghost predicate Increasing(starts: seq<int>) {
    forall i, j | 0 <= i < j < |starts| :: starts[i] < starts[j]
  }

  /** The header says that part `i` of a file cut at `starts` is here. */
  predicate NamesPart(info: Option<PartInfo>, starts: seq<int>, i: nat)
    requires i < |starts| - 1
  {
    info == Some(PartInfo(Some(starts[|starts| - 1]), starts[i], starts[i + 1] - starts[i]))
  }

  /** As many parts of the first one's size as there are articles just cover the file. */
  predicate FirstPartTells(starts: seq<int>)
    requires |starts| > 1
  {
    PartStart(|starts| - 2, starts[1]) < starts[|starts| - 1] <= PartStart(|starts| - 1, starts[1])
  }

  /**
   A byte of part `k` lies between the `e`-th and the next multiple of the first part's
   size, more than 63 positions off, and part `e` does not start at that multiple.
   */
  predicate DriftsOff(starts: seq<int>, e: nat, k: nat)
    requires e < |starts| - 1 && k < |starts| - 1
  {
    && Overlap(PartStart(e, starts[1]), PartStart(e + 1, starts[1]), starts[k], starts[k + 1])
    && !(-64 < k - e < 64)
    && PartStart(e, starts[1]) != starts[e]
  }

  predicate SmallDrift(starts: seq<int>) {
    forall e, k | 0 <= e < |starts| - 1 && 0 <= k < |starts| - 1 :: !DriftsOff(starts, e, k)
  }

  /** What fast mode makes of such parts. */
  lemma NumberedMount(file: File, headers: Headers, starts: seq<int>)
    requires NumberedParts(file, headers, starts) && file.articles != []
    ensures Built(file, true, Fast, headers).Some?
    ensures var d, n := MountOf(file, headers), |starts| - 1;
      && n > 0 && starts[1] > 0 && d.size == starts[n]
      && 0 < |d.segs| == |d.infos| <= n && (|d.segs| < n ==> PartStart(|d.segs|, starts[1]) >= starts[n])
      && (forall i | 0 <= i < |d.infos| :: NamesPart(d.infos[i], starts, i))
      && (forall i | 0 <= i < |d.segs| :: IsMultiple(d.segs[i], starts[1], starts[n], i))
  {
    var ordered, n := OrderedArticles(file), |starts| - 1;
    assert |ordered| == |file.articles| == n && starts[0] < starts[1] && starts[0] < starts[n];
    hide PartStart, InfoOf, IsMultiple, Built, RawSegments, DecodedFileSize, OrderedArticles, Increasing;
    assert NamesPart(InfoOf(ordered[0], headers), starts, 0);
    FastIsUsable(file, headers, starts);
    FastSegments(file, headers);
    hide NumberedParts, NamesPart;
    var d := MountOf(file, headers);
    forall i | 0 <= i < |d.infos|
      ensures NamesPart(d.infos[i], starts, i)
    {
      assert d.infos[i] == InfoOf(ordered[i], headers);
    }
  }

  lemma FastIsUsable(file: File, headers: Headers, starts: seq<int>)
    requires NumberedParts(file, headers, starts) && file.articles != [] && starts[|starts| - 1] > 0 && starts[1] > 0
    ensures Built(file, true, Fast, headers).Some?
  {
  }

  /** In number order, the mounted file is right exactly when the first part's size says enough. */
  lemma NumberedIsRightIff(file: File, headers: Headers, starts: seq<int>)
    requires NumberedParts(file, headers, starts) && file.articles != []
    ensures var d := MountOf(file, headers);
      && |d.segs| == |d.infos| > 0
      && (MountedRight(d, starts[|starts| - 1]) <==> FirstPartTells(starts) && SmallDrift(starts))
  {
    NumberedMount(file, headers, starts);
    hide *;
    NumberedGuess(MountOf(file, headers), starts);
  }

  lemma NumberedGuess(d: DirectFile, starts: seq<int>)
    requires |starts| > 1 && starts[0] == 0 && 0 < |d.segs| == |d.infos| < |starts| && Increasing(starts)
    requires var n, m := |starts| - 1, |d.segs|;
      && d.size == starts[n] && (m < n ==> PartStart(m, starts[1]) >= starts[n])
      && (forall i | 0 <= i < m :: NamesPart(d.infos[i], starts, i))
      && (forall i | 0 <= i < m :: IsMultiple(d.segs[i], starts[1], starts[n], i))
    ensures MountedRight(d, starts[|starts| - 1]) <==> FirstPartTells(starts) && SmallDrift(starts)
  {
    hide PartStart, SmallDrift, Guides, InOrder, PartStarts;
    var n, m := |starts| - 1, |d.segs|;
    NumberedInOrder(d.infos, starts);
    assert IsMultiple(d.segs[m - 1], starts[1], starts[n], m - 1);
    if m == n {
      DriftIff(d.segs, starts);
    } else {
      EarlierStart(m, n - 1, starts[1]);
    }
  }

  lemma NumberedInOrder(infos: seq<Option<PartInfo>>, starts: seq<int>)
    requires |starts| > 1 && starts[0] == 0 && 0 < |infos| < |starts| && Increasing(starts)
    requires forall i | 0 <= i < |infos| :: NamesPart(infos[i], starts, i)
    ensures InOrder(infos, starts[|starts| - 1]) <==> |infos| == |starts| - 1
    ensures |infos| == |starts| - 1 ==> PartStarts(infos, starts[|starts| - 1]) == starts
  {
    var n, m := |starts| - 1, |infos|;
    var parts := PartStarts(infos, starts[n]);
    if m == n {
      forall i | 0 <= i <= n
        ensures parts[i] == starts[i]
      {
        assert i < n ==> NamesPart(infos[i], starts, i);
      }
      assert parts == starts;
      forall i | 0 <= i < m
        ensures infos[i].Some? && infos[i].value.partSize > 0
      {
        assert NamesPart(infos[i], starts, i);
      }
    } else {
      assert parts[m] == starts[n] && starts[m] < starts[n] && NamesPart(infos[m - 1], starts, m - 1);
      assert infos[m - 1].value.partOffset + infos[m - 1].value.partSize == starts[m];
    }
  }

  lemma DriftIff(segs: seq<Segment>, starts: seq<int>)
    requires |starts| == |segs| + 1 > 1
    requires forall i | 0 <= i < |segs| :: IsMultiple(segs[i], starts[1], starts[|segs|], i)
    requires Increasing(starts)
    ensures Guides(starts, segs) <==> SmallDrift(starts)
  {
    hide PartStart, Overlap;
    forall e, k | 0 <= e < |segs| && 0 <= k < |segs|
      ensures Misguides(starts, segs, e, k) <==> DriftsOff(starts, e, k)
    {
      assert IsMultiple(segs[e], starts[1], starts[|segs|], e);
      CutOverlap(segs[e].start, PartStart(e + 1, starts[1]), starts[k], starts[k + 1], starts[|segs|]);
    }
  }

  lemma CutOverlap(guessStart: int, guessEnd: int, partStart: int, partEnd: int, size: int)
    requires partEnd <= size
    ensures Overlap(guessStart, Min(guessEnd, size), partStart, partEnd) <==> Overlap(guessStart, guessEnd, partStart, partEnd)
  {
  }

  /** Bodies that are what their headers say match the mounted file. */
  lemma BodiesMatch(file: File, headers: Headers, articles: Articles, content: Buffer)
    requires file.articles != [] && forall a | a in file.articles :: BodyMatches(a, headers, articles, content)
    ensures var d := MountOf(file, headers); |d.segs| == |d.infos| && Matched(d, articles, content)
  {
    hide Built, InfoOf, OrderedArticles, RawSegments, DecodedFileSize, Contiguous;
    MountShape(file, headers);
    SourcesArePosted(file, headers);
    hide PartMatches, BodyMatches, SourcesOf;
    var d, sources := MountOf(file, headers), SourcesOf(file, headers);
    forall i | 0 <= i < |d.segs|
      ensures PartMatches(d.infos[i], articles(d.segs[i].articleId), content)
    {
      assert sources[i] in file.articles;
      BodyIsPart(sources[i], headers, articles, content);
    }
  }

  lemma BodyIsPart(a: Article, headers: Headers, articles: Articles, content: Buffer)
    requires BodyMatches(a, headers, articles, content)
    ensures PartMatches(InfoOf(a, headers), articles(a.articleId), content)
  {
  }

  /** A header probe that fails at an article whose multiple of the first part's size is right. */
  predicate MayFail(info: Option<PartInfo>, starts: seq<int>, i: nat)
    requires i < |starts| - 1
  {
    && info.None?
    && starts[i] == PartStart(i, starts[1])
    && starts[i + 1] == Min(PartStart(i + 1, starts[1]), starts[|starts| - 1])
  }

  /** The numbered files that are served, whatever header probes fail later at articles guessed right. */
  lemma NumberedIsServed(
    file: File, headers: Headers, starts: seq<int>, infos: seq<Option<PartInfo>>, articles: Articles, content: Buffer)
    requires NumberedParts(file, headers, starts) && file.articles != [] && starts[|starts| - 1] == |content|
    requires forall a | a in file.articles :: BodyMatches(a, headers, articles, content)
    requires FirstPartTells(starts) && SmallDrift(starts)
    requires |infos| == |file.articles|
    requires forall i | 0 <= i < |infos| :: infos[i] == InfoOf(OrderedArticles(file)[i], headers) || MayFail(infos[i], starts, i)
    ensures var d := MountOf(file, headers);
      && |d.segs| == |d.infos|
      && Served(d.(infos := infos), PartStarts(d.infos, |content|), articles, content)
  {
    NumberedIsRightIff(file, headers, starts);
    MountShape(file, headers);
    BodiesMatch(file, headers, articles, content);
    NumberedProbes(file, headers, starts, infos);
    hide *;
    MountedIsServed(MountOf(file, headers), infos, articles, content);
  }

  lemma NumberedProbes(file: File, headers: Headers, starts: seq<int>, infos: seq<Option<PartInfo>>)
    requires NumberedParts(file, headers, starts) && file.articles != []
    requires |infos| == |file.articles|
    requires var d := MountOf(file, headers); |d.segs| == |d.infos| > 0 && MountedRight(d, starts[|starts| - 1])
    requires forall i | 0 <= i < |infos| :: infos[i] == InfoOf(OrderedArticles(file)[i], headers) || MayFail(infos[i], starts, i)
    ensures ProbesOk(MountOf(file, headers), infos, starts[|starts| - 1])
  {
    NumberedMount(file, headers, starts);
    NumberedIsFull(file, headers, starts);
    SourceInfos(file, headers, starts);
    hide *;
    ProbesFromStarts(MountOf(file, headers), OrderedArticles(file), headers, starts, infos);
  }

  lemma ProbesFromStarts(
    d: DirectFile, ordered: seq<Article>, headers: Headers, starts: seq<int>, infos: seq<Option<PartInfo>>)
    requires |starts| > 1 && |d.segs| == |d.infos| == |infos| == |starts| - 1 <= |ordered|
    requires PartStarts(d.infos, starts[|starts| - 1]) == starts
    requires forall i | 0 <= i < |d.infos| :: d.infos[i] == InfoOf(ordered[i], headers)
    requires forall i | 0 <= i < |d.segs| :: IsMultiple(d.segs[i], starts[1], starts[|starts| - 1], i)
    requires forall i | 0 <= i < |infos| :: infos[i] == InfoOf(ordered[i], headers) || MayFail(infos[i], starts, i)
    ensures ProbesOk(d, infos, starts[|starts| - 1])
  {
    hide InfoOf, PartStarts, IsMultiple, MayFail;
    forall i | 0 <= i < |infos|
      ensures infos[i] == d.infos[i] || (infos[i].None? && d.segs[i].start == starts[i] && d.segs[i].end + 1 == starts[i + 1])
    {
      if infos[i] != d.infos[i] {
        FailsWhereRight(d.segs[i], infos[i], starts, i);
      }
    }
  }

  lemma FailsWhereRight(s: Segment, info: Option<PartInfo>, starts: seq<int>, i: nat)
    requires i < |starts| - 1 && IsMultiple(s, starts[1], starts[|starts| - 1], i) && MayFail(info, starts, i)
    ensures info.None? && s.start == starts[i] && s.end + 1 == starts[i + 1]
  {
  }

  lemma SourceInfos(file: File, headers: Headers, starts: seq<int>)
    requires NumberedParts(file, headers, starts) && file.articles != []
    ensures var d := MountOf(file, headers);
      && |d.infos| <= |file.articles| == |OrderedArticles(file)|
      && forall i | 0 <= i < |d.infos| :: d.infos[i] == InfoOf(OrderedArticles(file)[i], headers)
  {
    hide InfoOf, PartStart;
    NumberedMount(file, headers, starts);
  }

  /** A numbered file mounted right has a segment for every article. */
  lemma NumberedIsFull(file: File, headers: Headers, starts: seq<int>)
    requires NumberedParts(file, headers, starts) && file.articles != []
    requires var d := MountOf(file, headers); |d.segs| == |d.infos| > 0 && MountedRight(d, starts[|starts| - 1])
    ensures var d := MountOf(file, headers);
      && |d.infos| == |starts| - 1 == |file.articles|
      && PartStarts(d.infos, starts[|starts| - 1]) == starts
  {
    NumberedMount(file, headers, starts);
    hide InfoOf, PartStart, Built, MountOf, InOrder, PartStarts;
    NumberedInOrder(MountOf(file, headers).infos, starts);
  }

  /**
   The usual case: full parts of one size, the last one shorter. Every multiple is
   right, so the file is served exactly even if any of the later header probes fail.
   */
  lemma EqualPartsAreServed(
    file: File, headers: Headers, partSize: int, infos: seq<Option<PartInfo>>, articles: Articles, content: Buffer)
    requires EqualParts(file, headers, partSize, |content|) && file.articles != []
    requires forall a | a in file.articles :: BodyMatches(a, headers, articles, content)
    requires |infos| == |file.articles|
    requires forall i | 0 <= i < |infos| :: infos[i].None? || infos[i] == InfoOf(OrderedArticles(file)[i], headers)
    ensures var d := MountOf(file, headers);
      && |d.segs| == |d.infos|
      && Served(d.(infos := infos), PartStarts(d.infos, |content|), articles, content)
  {
    hide Served, InfoOf, PartStart, MountOf, EqualParts, BodyMatches, NumberedParts, SmallDrift, FirstPartTells;
    var starts := EqualStarts(file, headers, partSize, |content|);
    NumberedIsServed(file, headers, starts, infos, articles, content);
  }

  /** The true starts of equal parts; the first part's multiples are all of them. */
  lemma EqualStarts(file: File, headers: Headers, partSize: int, size: int) returns (starts: seq<int>)
    requires EqualParts(file, headers, partSize, size) && file.articles != []
    ensures NumberedParts(file, headers, starts) && |starts| == |file.articles| + 1 && starts[|starts| - 1] == size
    ensures forall i | 0 <= i < |file.articles| :: starts[i] == PartStart(i, starts[1])
    ensures forall j | 0 < j <= |file.articles| :: starts[j] == Min(PartStart(j, starts[1]), size)
    ensures FirstPartTells(starts) && SmallDrift(starts)
  {
    hide InfoOf, PartStart;
    var n := |file.articles|;
    starts := Multiples(n, partSize, size);
    forall i | 0 <= i < n
      ensures NamesPart(InfoOf(OrderedArticles(file)[i], headers), starts, i)
    {
      var j := i + 1;
      assert starts[j] == Min(PartStart(j, partSize), size);
      NextMultiple(i, partSize);
    }
  }

  lemma Multiples(n: nat, partSize: int, size: int) returns (starts: seq<int>)
    requires n > 0 && 0 < partSize && 0 < size && PartStart(n - 1, partSize) < size <= PartStart(n, partSize)
    ensures |starts| == n + 1 && starts[0] == 0 && starts[n] == size
    ensures forall i | 0 <= i < n :: starts[i] == PartStart(i, partSize) == PartStart(i, starts[1])
    ensures forall j | 0 < j <= n :: starts[j] == Min(PartStart(j, partSize), size) == Min(PartStart(j, starts[1]), size)
    ensures Increasing(starts)
    ensures PartStart(n - 1, starts[1]) < size <= PartStart(n, starts[1])
  {
    hide PartStart;
    starts := seq(n, i requires 0 <= i < n => PartStart(i, partSize)) + [size];
    NextMultiple(0, partSize);
    NextMultiple(0, size);
    forall i | 0 <= i < n
      ensures PartStart(i, partSize) < size && PartStart(i, partSize) < PartStart(i + 1, partSize)
    {
      NextMultiple(i, partSize);
      EarlierStart(i, n - 1, partSize);
    }
    forall i, j | 0 <= i < j <= n
      ensures starts[i] < starts[j]
    {
      EarlierStart(i + 1, j, partSize);
    }
    if n > 1 {
      assert starts[1] == partSize;
    }
  }

  /** A first part that is too short: behind its last multiple nothing can be read. */
  lemma ShortFirstPartFails(file: File, headers: Headers, starts: seq<int>, articles: Articles, start: nat, length: nat)
    requires NumberedParts(file, headers, starts) && file.articles != [] && length > 0
    requires PartStart(|starts| - 1, starts[1]) <= start < starts[|starts| - 1]
    ensures var d := MountOf(file, headers);
      |d.segs| == |d.infos| && DirectRead(d.segs, d.infos, d.size, start, length, articles) == UnableToLocate
  {
    NumberedMount(file, headers, starts);
    hide *;
    var d := MountOf(file, headers);
    forall e | 0 <= e < |d.segs|
      ensures !d.segs[e].Covers(start)
    {
      EndsBefore(d.segs[e], starts[1], starts[|starts| - 1], e, |starts| - 1, start);
    }
    NothingLocated(d, articles, start, length);
  }

  lemma EndsBefore(s: Segment, partSize: int, size: int, e: nat, n: nat, start: int)
    requires IsMultiple(s, partSize, size, e) && e < n && partSize > 0 && PartStart(n, partSize) <= start
    ensures !s.Covers(start)
  {
    EarlierStart(e + 1, n, partSize);
    hide PartStart;
  }

  lemma NothingLocated(d: DirectFile, articles: Articles, start: nat, length: nat)
    requires |d.segs| == |d.infos| && start < d.size && length > 0
    requires forall e | 0 <= e < |d.segs| :: !d.segs[e].Covers(start)
    ensures DirectRead(d.segs, d.infos, d.size, start, length, articles) == UnableToLocate
  {
    assert forall e :: !IsEstimate(d.segs, start, e);
  }

  /** Parts of 1, 3 and 1 bytes. */
  const ONE_THREE_ONE := File("f", 5, [Article(1, 1, "a"), Article(2, 3, "b"), Article(3, 1, "c")])

  const ONE_THREE_ONE_HEADERS: Headers := (a: Article) =>
    if a.number == 1 then Some(Header(Num(5), Num(1), Num(1), Num(1)))
    else if a.number == 2 then Some(Header(Num(5), Num(2), Num(4), Num(3)))
    else Some(Header(Num(5), Num(5), Num(5), Num(1)))

  lemma OneThreeOneParts()
    ensures var headers := ONE_THREE_ONE_HEADERS;
      && InfoOf(Article(1, 1, "a"), headers) == Some(PartInfo(Some(5), 0, 1))
      && InfoOf(Article(2, 3, "b"), headers) == Some(PartInfo(Some(5), 1, 3))
      && InfoOf(Article(3, 1, "c"), headers) == Some(PartInfo(Some(5), 4, 1))
  {
  }

  lemma OneThreeOnePartitions()
    ensures Partition(ONE_THREE_ONE.articles, ONE_THREE_ONE_HEADERS, 5)
  {
    hide InfoOf;
    OneThreeOneParts();
    var headers, a, b, c := ONE_THREE_ONE_HEADERS, Article(1, 1, "a"), Article(2, 3, "b"), Article(3, 1, "c");
    assert ONE_THREE_ONE.articles == [a, b, c];
    assert IsPart(a, headers, 1, 1, 5) && IsPart(b, headers, 2, 4, 5) && IsPart(c, headers, 5, 5, 5);
    forall p: int | 1 <= p <= 5
      ensures SomePartHas([a, b, c], headers, p)
    {
      assert PartHas(if p == 1 then a else if p == 5 then c else b, headers, p);
    }
  }

  lemma OneThreeOneNumbered()
    ensures NumberedParts(ONE_THREE_ONE, ONE_THREE_ONE_HEADERS, [0, 1, 4, 5])
  {
    hide InfoOf;
    OneThreeOneParts();
    SortOfSorted(ONE_THREE_ONE.articles, BY_NUMBER);
  }

  /** They partition a file of 5 bytes, and its last two bytes cannot be read directly. */
  lemma OneThreeOneFails(articles: Articles)
    ensures Partition(ONE_THREE_ONE.articles, ONE_THREE_ONE_HEADERS, 5)
    ensures var d := MountOf(ONE_THREE_ONE, ONE_THREE_ONE_HEADERS);
      |d.segs| == |d.infos| && DirectRead(d.segs, d.infos, d.size, 3, 1, articles) == UnableToLocate
  {
    OneThreeOnePartitions();
    OneThreeOneNumbered();
    assert PartStart(3, 1) == 3;
    hide *;
    ShortFirstPartFails(ONE_THREE_ONE, ONE_THREE_ONE_HEADERS, [0, 1, 4, 5], articles, 3, 1);
  }

  // ---------------------------------------------------------------------------
  // Three readers

  /**
   Three independent readers, one answer. The buffered window and the plan go by the
   exact manifest, the direct reader by its own guess, all of them through the article
   cache; when the file is mounted right and no two of its articles share a number all
   three return that slice of it.
   */
  method ReadThreeWays(
    file: File, headers: Headers, segments: array<Segment>, start: nat, end: int, cache: ArticleCache, ghost content: Buffer)
    returns (window: Buffer, direct: ReadResult, planned: Buffer)
    requires Partition(file.articles, headers, |content|) && start <= end < |content|
    requires forall a | a in file.articles :: BodyMatches(a, headers, cache.articles, content)
    requires Built(file, true, Exact, headers).Some? ==> segments[..] == Built(file, true, Exact, headers).value.segments
    requires var d := MountOf(file, headers); |d.segs| == |d.infos| > 0 ==> MountedRight(d, |content|)
    requires cache.Valid() && forall a | a in file.articles :: SoleUser(cache.refs, ArticleRef(file.id, a.number, a.articleId))
    modifies segments, cache
    ensures cache.Valid()
    ensures segments[..] == old(segments[..])
    ensures window == planned == content[start..end + 1] && direct == Ok(window)
  {
    hide *;
    ThreeWaysFacts(file, headers, cache.articles, content, start, end);
    ThreeWaysRefs(file, headers, cache.refs, start, end);
    ghost var starts := PartStarts(MountOf(file, headers).infos, |content|);
    var d := MountDirectFile(file, headers);
    ghost var supply;
    direct, supply := ReadDirectMountedRange(
      d.segs, d.infos, d.size, start, end - start + 1, cache, starts, content);
    var ranges := PlanRanges(segments[..], start, end);
    planned := ReadPlannedRanges(ranges, cache);
    window := ReadManifestWindow(segments, d.size, start, end - start + 1, cache, content);
  }

  /** Everything the three readers ask for is one of the file's articles. */
  lemma ThreeWaysRefs(file: File, headers: Headers, refs: set<ArticleRef>, start: nat, end: int)
    requires forall a | a in file.articles :: SoleUser(refs, ArticleRef(file.id, a.number, a.articleId))
    ensures var d := MountOf(file, headers); SoleUsers(refs, d.segs) && AllAsked(refs, d.segs)
    ensures Built(file, true, Exact, headers).Some? ==>
      var segs := Built(file, true, Exact, headers).value.segments;
      && SoleUsers(refs, segs) && AllAsked(refs, segs)
      && RangesSole(refs, Plan(segs, start, end)) && RangesAsked(refs, Plan(segs, start, end))
  {
    hide Built, InfoOf, Plan;
    MountRefs(file, headers);
    RefsAreSole(file, refs, MountOf(file, headers).segs);
    if Built(file, true, Exact, headers).Some? {
      var segs := Built(file, true, Exact, headers).value.segments;
      ExactRefs(file, headers);
      RefsAreSole(file, refs, segs);
      PlanRefs(segs, start, end);
      forall i | 0 <= i < |Plan(segs, start, end)|
        ensures SoleUser(refs, RefOfRange(Plan(segs, start, end)[i]))
      {
        assert Plan(segs, start, end)[i] in Plan(segs, start, end);
      }
    }
  }

  /** Every segment asks for one of the file's articles under its number. */
  ghost predicate RefsOfFile(file: File, segs: seq<Segment>) {
    forall s | s in segs :: SomeArticle(file, RefOf(s))
  }

  ghost predicate SomeArticle(file: File, r: ArticleRef) {
    exists a :: a in file.articles && r == ArticleRef(file.id, a.number, a.articleId)
  }

  lemma RefsAreSole(file: File, refs: set<ArticleRef>, segs: seq<Segment>)
    requires RefsOfFile(file, segs)
    requires forall a | a in file.articles :: SoleUser(refs, ArticleRef(file.id, a.number, a.articleId))
    ensures SoleUsers(refs, segs) && AllAsked(refs, segs)
  {
    forall i | 0 <= i < |segs|
      ensures SoleUser(refs, RefOf(segs[i]))
    {
      assert SomeArticle(file, RefOf(segs[i]));
    }
  }

  lemma {:induction false} PlanRefs(segs: seq<Segment>, start: int, end: int)
    ensures forall r | r in Plan(segs, start, end) :: exists s :: s in segs && RefOfRange(r) == RefOf(s)
  {
    if segs != [] {
      PlanRefs(segs[1..], start, end);
      forall r | r in Plan(segs, start, end)
        ensures exists s :: s in segs && RefOfRange(r) == RefOf(s)
      {
        if r in Plan(segs[1..], start, end) {
          var s :| s in segs[1..] && RefOfRange(r) == RefOf(s);
          assert s in segs;
        } else {
          assert segs[0] in segs && RefOfRange(r) == RefOf(segs[0]);
        }
      }
    }
  }

  lemma {:induction false} RawRefs(fileId: string, articles: seq<Article>, start: int)
    ensures forall i | 0 <= i < |articles| ::
      RefOf(RawSegments(fileId, articles, start)[i]) == ArticleRef(fileId, articles[i].number, articles[i].articleId)
  {
    if articles != [] {
      RawRefs(fileId, articles[1..], start + articles[0].bytes);
    }
  }

  lemma {:induction false} EqualRefs(fileId: string, ordered: seq<Article>, index: nat, start: int, partSize: int, size: int)
    requires index <= |ordered|
    ensures forall s | s in EqualSegments(fileId, ordered, index, start, partSize, size) ::
      exists a :: a in ordered && RefOf(s) == ArticleRef(fileId, a.number, a.articleId)
    decreases |ordered| - index
  {
    EqualStep(fileId, ordered, index, start, partSize, size);
    if index < |ordered| && start < size {
      EqualRefs(fileId, ordered, index + 1, start + partSize, partSize, size);
      assert ordered[index] in ordered;
    }
  }

  /** What the mounted file's segments ask for. */
  lemma MountRefs(file: File, headers: Headers)
    ensures RefsOfFile(file, MountOf(file, headers).segs)
  {
    hide InfoOf, EqualSegments, RawSegments;
    var ordered := OrderedArticles(file);
    SortKeepsElements(file.articles, BY_NUMBER);
    if Built(file, true, Fast, headers).Some? {
      var info := InfoOf(ordered[0], headers).value;
      EqualRefs(file.id, ordered, 0, 0, info.partSize, info.fileSize.value);
    } else {
      RawRefs(file.id, file.articles, 0);
    }
  }

  lemma {:induction false} PartRefs(fileId: string, articles: seq<Article>, headers: Headers)
    ensures forall s | s in PartSegments(fileId, articles, headers) ::
      exists a :: a in articles && RefOf(s) == ArticleRef(fileId, a.number, a.articleId)
  {
    if articles != [] {
      PartRefs(fileId, articles[1..], headers);
      assert articles[0] in articles;
    }
  }

  lemma ExactRefs(file: File, headers: Headers)
    requires Built(file, true, Exact, headers).Some?
    ensures RefsOfFile(file, Built(file, true, Exact, headers).value.segments)
  {
    hide InfoOf, EqualSegments, PartSegments, SortBy;
    var ordered := OrderedArticles(file);
    SortKeepsElements(file.articles, BY_NUMBER);
    if ExactManifest(file, headers).Some? {
      var parts := PartSegments(file.id, ordered, headers);
      PartRefs(file.id, ordered, headers);
      SortKeepsElements(parts, BY_START);
    } else {
      var info := InfoOf(ordered[0], headers).value;
      EqualRefs(file.id, ordered, 0, 0, info.partSize, info.fileSize.value);
    }
  }

  lemma ThreeWaysFacts(file: File, headers: Headers, articles: Articles, content: Buffer, start: nat, end: int)
    requires Partition(file.articles, headers, |content|) && start <= end < |content|
    requires forall a | a in file.articles :: BodyMatches(a, headers, articles, content)
    requires var d := MountOf(file, headers); |d.segs| == |d.infos| > 0 ==> MountedRight(d, |content|)
    ensures Built(file, true, Exact, headers).Some?
    ensures var segs := Built(file, true, Exact, headers).value.segments;
      Tiles(segs, articles, content) && Ordered(segs) && Execute(Plan(segs, start, end), articles) == content[start..end + 1]
    ensures var d := MountOf(file, headers);
      && |d.segs| == |d.infos| && d.size == |content|
      && Locatable(PartStarts(d.infos, |content|), d.segs, d.infos, articles, content, start)
    ensures WindowOf(content, |content|, start, end - start + 1) == content[start..end + 1]
  {
    hide Partition, BodyMatches, Built, MountOf, Execute, Plan, Locatable, Holds, Contiguous;
    ExactManifestDescribesFile(file, headers, articles, content);
    var segs, d := Built(file, true, Exact, headers).value.segments, MountOf(file, headers);
    ContiguousBounds(segs, 0, |content|);
    PlanReadsContent(segs, articles, content, start, end);
    MountOfPartition(file, headers, |content|);
    PartitionInfos(file.articles, headers, |content|);
    BodiesMatch(file, headers, articles, content);
    assert d.(infos := d.infos) == d;
    MountedIsServed(d, d.infos, articles, content);
  }
}
