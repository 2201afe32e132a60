/**
 Turning a byte range of a virtual file into slices of articles:
 `planMountedFileRange` of src/services/rangePlanner.service.ts, and the two
 places of src/services/mountedStream.service.ts that execute such a plan.
 */
module RangePlanner {
  import opened Bytes
  import opened SegmentCache
  import opened Segments

  datatype PlannedRange = PlannedRange(
    fileId: string,
    articleId: string,
    number: int,
    segmentOffset: int,
    readOffset: int,
    length: int,
    bytes: int)

  // ---------------------------------------------------------------------------
  // Planning

  predicate Misses(s: Segment, start: int, end: int) {
    s.end < start || end < s.start
  }

  function RangeWithin(s: Segment, start: int, end: int): PlannedRange {
    var readStart := Max(start, s.start);
    var readEnd := Min(end, s.end);
    PlannedRange(
      s.fileId, s.articleId, s.number,
      s.sourceOffset + (readStart - s.start),
      readStart,
      readEnd - readStart + 1,
      s.bytes)
  }

  /** One slice for every segment the range meets, in manifest order. */
  function Plan(segs: seq<Segment>, start: int, end: int): seq<PlannedRange> {
    if segs == [] then []
    else (if Misses(segs[0], start, end) then [] else [RangeWithin(segs[0], start, end)]) + Plan(segs[1..], start, end)
  }

  lemma {:induction false} PlanAppend(a: seq<Segment>, b: seq<Segment>, start: int, end: int)
    ensures Plan(a + b, start, end) == Plan(a, start, end) + Plan(b, start, end)
  {
    if a == [] {
      assert a + b == b;
    } else {
      assert (a + b)[1..] == a[1..] + b;
      PlanAppend(a[1..], b, start, end);
    }
  }

  lemma {:induction false} PlanOfMissed(segs: seq<Segment>, start: int, end: int)
    requires forall i | 0 <= i < |segs| :: Misses(segs[i], start, end)
    ensures Plan(segs, start, end) == []
  {
    if segs != [] {
      PlanOfMissed(segs[1..], start, end);
    }
  }

  lemma PlanStep(segs: seq<Segment>, index: nat, start: int, end: int)
    requires index < |segs|
    ensures Plan(segs[..index + 1], start, end)
         == Plan(segs[..index], start, end) + if Misses(segs[index], start, end) then [] else [RangeWithin(segs[index], start, end)]
  {
    assert segs[..index + 1] == segs[..index] + [segs[index]];
    PlanAppend(segs[..index], [segs[index]], start, end);
  }

  /** Behind a segment that starts after the range nothing is planned. */
  lemma PlanRest(segs: seq<Segment>, index: nat, start: int, end: int)
    requires Ordered(segs) && index <= |segs| && start <= end + 1
    requires index < |segs| ==> index > 0 && segs[index - 1].start > end
    ensures Plan(segs, start, end) == Plan(segs[..index], start, end)
  {
    PlanOfMissed(segs[index..], start, end);
    PlanAppend(segs[..index], segs[index..], start, end);
    assert segs == segs[..index] + segs[index..];
  }

  /**
   The planner's scan. It stops at the first segment behind the range, which
   loses nothing when the manifest is ordered.
   */
  method PlanRanges(segs: seq<Segment>, start: int, end: int) returns (ranges: seq<PlannedRange>)
    requires start <= end
    ensures Ordered(segs) ==> ranges == Plan(segs, start, end)
  {
    hide Plan, RangeWithin, Ordered;
    ranges := [];
    var index := 0;
    assert segs[..0] == [] && Plan([], start, end) == [] by { PlanOfMissed([], start, end); }
    while index < |segs|
      invariant index <= |segs|
      invariant ranges == Plan(segs[..index], start, end)
    {
      var segment := segs[index];
      PlanStep(segs, index, start, end);
      index := index + 1;
      if segment.end < start {
        continue;
      }
      if segment.start > end {
        break;
      }
      ranges := ranges + [RangeWithin(segment, start, end)];
    }
    if Ordered(segs) {
      PlanRest(segs, index, start, end);
    }
  }

  // ---------------------------------------------------------------------------
  // Executing a plan

  /** The test under which the source streams the whole article. */
  predicate IsWholeArticle(r: PlannedRange) {
    r.segmentOffset == 0 && r.length == r.bytes
  }

  /** What one planned range contributes. */
  function RangeBytes(r: PlannedRange, articles: Articles): Buffer {
    if IsWholeArticle(r) then articles(r.articleId)
    else Subarray(articles(r.articleId), r.segmentOffset, r.segmentOffset + r.length)
  }

  function Execute(ranges: seq<PlannedRange>, articles: Articles): Buffer {
    if ranges == [] then [] else RangeBytes(ranges[0], articles) + Execute(ranges[1..], articles)
  }

  lemma {:induction false} ExecuteSnoc(ranges: seq<PlannedRange>, r: PlannedRange, articles: Articles)
    ensures Execute(ranges + [r], articles) == Execute(ranges, articles) + RangeBytes(r, articles)
  {
    if ranges == [] {
      assert ranges + [r] == [r];
    } else {
      assert (ranges + [r])[1..] == ranges[1..] + [r];
      ExecuteSnoc(ranges[1..], r, articles);
    }
  }

  /** What executing a planned range asks the cache for. */
  function RefOfRange(r: PlannedRange): ArticleRef {
    ArticleRef(r.fileId, r.number, r.articleId)
  }

  ghost predicate RangesAsked(refs: set<ArticleRef>, ranges: seq<PlannedRange>) {
    forall i | 0 <= i < |ranges| :: RefOfRange(ranges[i]) in refs
  }

  ghost predicate RangesSole(refs: set<ArticleRef>, ranges: seq<PlannedRange>) {
    forall i | 0 <= i < |ranges| :: SoleUser(refs, RefOfRange(ranges[i]))
  }

  /**
   The reading loop over a plan. A whole article is streamed, whatever its division into
   chunks; any other range is cut out of the buffered article.
   */
  method ReadPlannedRanges(ranges: seq<PlannedRange>, cache: ArticleCache) returns (out: Buffer)
    requires cache.Valid() && RangesAsked(cache.refs, ranges)
    modifies cache
    ensures cache.Valid()
    ensures RangesSole(cache.refs, ranges) ==> out == Execute(ranges, cache.articles)
  {
    hide Subarray, RangeBytes, Execute, Concat, Serves, SoleUser, ArticleCache.Valid;
    ghost var articles, sole := cache.articles, RangesSole(cache.refs, ranges);
    var buffers: seq<Buffer> := [];
    NothingExecuted(articles);
    for index := 0 to |ranges|
      invariant cache.Valid()
      invariant sole ==> Concat(buffers) == Execute(ranges[..index], articles)
    {
      var range := ranges[index];
      var source: seq<Buffer>;
      if IsWholeArticle(range) {
        source := cache.StreamSegment(RefOfRange(range));
      } else {
        var decoded := cache.GetOrFetch(RefOfRange(range));
        source := [Subarray(decoded, range.segmentOffset, range.segmentOffset + range.length)];
      }
      RangeSource(range, articles);
      ConcatAppend(buffers, source);
      buffers := buffers + source;
      assert ranges[..index + 1] == ranges[..index] + [range];
      ExecuteSnoc(ranges[..index], range, articles);
    }
    assert ranges[..|ranges|] == ranges;
    out := Concat(buffers);
  }

  lemma NothingExecuted(articles: Articles)
    ensures Concat([]) == Execute([], articles)
  {
  }

  lemma RangeSource(r: PlannedRange, articles: Articles)
    ensures if IsWholeArticle(r) then RangeBytes(r, articles) == articles(r.articleId)
            else Concat([Subarray(articles(r.articleId), r.segmentOffset, r.segmentOffset + r.length)]) == RangeBytes(r, articles)
  {
    var cut := Subarray(articles(r.articleId), r.segmentOffset, r.segmentOffset + r.length);
    ConcatSnoc([], cut);
    assert [] + [cut] == [cut];
  }

  // ---------------------------------------------------------------------------
  // What a plan over a tiling manifest means

  /** Consecutive slices from `from` up to `to`, each inside its article. */
  ghost predicate Chains(ranges: seq<PlannedRange>, articles: Articles, from: int, to: int) {
    if ranges == [] then
      from == to
    else
      var r := ranges[0];
      && r.readOffset == from
      && 0 <= r.length
      && 0 <= r.segmentOffset
      && r.segmentOffset + r.length <= |articles(r.articleId)|
      && Chains(ranges[1..], articles, from + r.length, to)
  }

  /** One segment's slice of the range. */
  lemma {:induction false} RangeBytesAreContent(s: Segment, articles: Articles, content: Buffer, start: nat, end: int)
    requires Holds(s, articles, content) && start <= end && !Misses(s, start, end)
    ensures var r := RangeWithin(s, start, end);
      && 0 <= r.length && 0 <= r.segmentOffset && r.segmentOffset + r.length <= |articles(s.articleId)|
      && RangeBytes(r, articles) == content[r.readOffset..r.readOffset + r.length]
  {
    var r := RangeWithin(s, start, end);
    var article := articles(s.articleId);
    HeldPiece(s, articles, content, r.readOffset - s.start, r.length);
    assert article[0..|article|] == article;
  }

  /** A planned range is streamed as a whole article exactly when it is all of the article. */
  lemma WholeArticleIff(s: Segment, articles: Articles, content: Buffer, start: nat, end: int)
    requires Holds(s, articles, content) && start <= end && !Misses(s, start, end)
    ensures var r := RangeWithin(s, start, end);
      && r.articleId == s.articleId
      && (IsWholeArticle(r) <==> r.length == |articles(s.articleId)|)
      && (IsWholeArticle(r) ==> articles(s.articleId) == content[r.readOffset..r.readOffset + r.length])
  {
    RangeBytesAreContent(s, articles, content, start, end);
  }

  /** Nothing is planned for a run of segments behind the range. */
  lemma {:induction false} PlanBehind(segs: seq<Segment>, from: int, to: int, start: int, end: int)
    requires Contiguous(segs, from, to) && end < from
    ensures Plan(segs, start, end) == []
  {
    ContiguousBounds(segs, from, to);
    PlanOfMissed(segs, start, end);
  }

  /** `plan` reads `content` from `lo` up to `hi`. */
  ghost predicate Reads(plan: seq<PlannedRange>, articles: Articles, content: Buffer, lo: nat, hi: nat) {
    && lo <= hi <= |content|
    && Chains(plan, articles, lo, hi)
    && Execute(plan, articles) == content[lo..hi]
  }

  lemma ReadsNothing(articles: Articles, content: Buffer, at: nat)
    requires at <= |content|
    ensures Reads([], articles, content, at, at)
  {
  }

  lemma {:induction false} ReadsCons(
    s: Segment, plan: seq<PlannedRange>, articles: Articles, content: Buffer, start: nat, end: int, lo: nat, mid: nat, hi: nat)
    requires Holds(s, articles, content) && start <= end && !Misses(s, start, end)
    requires lo == Max(start, s.start) && mid == Min(end, s.end) + 1
    requires Reads(plan, articles, content, mid, hi)
    ensures Reads([RangeWithin(s, start, end)] + plan, articles, content, lo, hi)
  {
    hide RangeBytes, Holds, RangeWithin, Chains, Execute;
    RangeBytesAreContent(s, articles, content, start, end);
    RangeBounds(s, start, end);
    var r := RangeWithin(s, start, end);
    PlanGrows(r, plan, articles, hi);
    SeamlessSlices(content, lo, mid, hi);
  }

  lemma PlanGrows(r: PlannedRange, plan: seq<PlannedRange>, articles: Articles, to: int)
    requires 0 <= r.length && 0 <= r.segmentOffset && r.segmentOffset + r.length <= |articles(r.articleId)|
    requires Chains(plan, articles, r.readOffset + r.length, to)
    ensures Chains([r] + plan, articles, r.readOffset, to)
    ensures Execute([r] + plan, articles) == RangeBytes(r, articles) + Execute(plan, articles)
  {
    hide RangeBytes;
    assert ([r] + plan)[1..] == plan;
  }

  lemma SeamlessSlices(content: Buffer, lo: nat, mid: nat, hi: nat)
    requires lo <= mid <= hi <= |content|
    ensures content[lo..mid] + content[mid..hi] == content[lo..hi]
  {
  }

  lemma RangeBounds(s: Segment, start: int, end: int)
    ensures var r := RangeWithin(s, start, end);
      r.articleId == s.articleId && r.readOffset == Max(start, s.start) && r.length == Min(end, s.end) + 1 - Max(start, s.start)
  {
  }

  /** The plan from the position `from` a contiguous run of segments starts at. */
  lemma {:induction false} PlanFrom(
    segs: seq<Segment>, articles: Articles, content: Buffer, from: nat, to: nat, start: nat, end: int)
    requires Contiguous(segs, from, to) && to <= |content| && AllHold(segs, articles, content)
    requires start <= end
    ensures from <= to
    ensures Reads(Plan(segs, start, end), articles, content, Min(Max(start, from), to), Max(from, Min(end + 1, to)))
  {
    hide Contiguous, Holds, Reads, RangeWithin, Plan;
    ContiguousHead(segs, from, to);
    if end < from {
      PlanBehind(segs, from, to, start, end);
      ReadsNothing(articles, content, from);
    } else if segs == [] {
      PlanOfMissed(segs, start, end);
      ReadsNothing(articles, content, from);
    } else {
      var s, rest := segs[0], segs[1..];
      assert Holds(s, articles, content) && AllHold(rest, articles, content);
      PlanCons(segs, start, end);
      if s.end < start {
        PlanFrom(rest, articles, content, s.end + 1, to, start, end);
      } else if end <= s.end {
        PlanBehind(rest, s.end + 1, to, start, end);
        ReadsNothing(articles, content, end + 1);
        ReadsCons(s, [], articles, content, start, end, Max(start, s.start), end + 1, end + 1);
      } else {
        PlanFrom(rest, articles, content, s.end + 1, to, start, end);
        ReadsCons(s, Plan(rest, start, end), articles, content, start, end, Max(start, s.start), s.end + 1, Min(end + 1, to));
      }
    }
  }

  lemma PlanCons(segs: seq<Segment>, start: int, end: int)
    requires segs != []
    ensures Plan(segs, start, end)
         == if Misses(segs[0], start, end) then Plan(segs[1..], start, end)
            else [RangeWithin(segs[0], start, end)] + Plan(segs[1..], start, end)
  {
  }

  /**
   Over a manifest that tiles the file, a plan is a chain of article slices from
   `start` to the end of the range or of the file, and reading it gives exactly
   that part of the file.
   */
  lemma {:induction false} PlanReadsContent(segs: seq<Segment>, articles: Articles, content: Buffer, start: nat, end: int)
    requires Tiles(segs, articles, content) && start <= end && start < |content|
    ensures Chains(Plan(segs, start, end), articles, start, Min(end + 1, |content|))
    ensures Execute(Plan(segs, start, end), articles) == Slice(content, start, end - start + 1)
  {
    PlanFrom(segs, articles, content, 0, |content|, start, end);
    assert Slice(content, start, end - start + 1) == content[start..Min(end + 1, |content|)];
  }

  function TotalLength(ranges: seq<PlannedRange>): int {
    if ranges == [] then 0 else ranges[0].length + TotalLength(ranges[1..])
  }

  lemma {:induction false} ChainLength(ranges: seq<PlannedRange>, articles: Articles, from: int, to: int)
    requires Chains(ranges, articles, from, to)
    ensures TotalLength(ranges) == to - from
  {
    if ranges != [] {
      ChainLength(ranges[1..], articles, from + ranges[0].length, to);
    }
  }
}
