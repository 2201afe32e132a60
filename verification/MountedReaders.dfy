/**
 The readers of src/services/mountedStream.service.ts that go from a manifest to
 bytes: the buffered window (`readManifestWindow`), and the direct reader and
 streamer, which first correct the manifest's estimate with the yEnc part headers
 (`findDirectMountedSegmentByOffsetExact`) and then run over article chunks.
 */
module MountedReaders {
  import opened Bytes
  import opened Options
  import opened SegmentCache
  import opened Segments
  import opened YencParts

  /** What a reader asks the cache for. */
  function RefOf(s: Segment): ArticleRef {
    ArticleRef(s.fileId, s.number, s.articleId)
  }

  ghost predicate AllAsked(refs: set<ArticleRef>, segs: seq<Segment>) {
    forall i | 0 <= i < |segs| :: RefOf(segs[i]) in refs
  }

  /** No segment's article shares its file and number with another that is ever asked for. */
  ghost predicate SoleUsers(refs: set<ArticleRef>, segs: seq<Segment>) {
    forall i | 0 <= i < |segs| :: SoleUser(refs, RefOf(segs[i]))
  }

  /** The same articles in the same places, whatever their bounds. */
  ghost predicate SameRefs(a: seq<Segment>, b: seq<Segment>) {
    |a| == |b| && forall i | 0 <= i < |a| :: RefOf(a[i]) == RefOf(b[i])
  }

  lemma ShrinkKeepsRefs(segs: seq<Segment>, now: seq<Segment>, index: nat, actual: int)
    requires SameRefs(segs, now) && index < |now|
    ensures SameRefs(segs, Shrunk(now, index, actual))
  {
  }

  lemma AskedAt(refs: set<ArticleRef>, segs: seq<Segment>, now: seq<Segment>, index: nat)
    requires AllAsked(refs, segs) && SameRefs(segs, now) && index < |now|
    ensures RefOf(now[index]) in refs && now[index].articleId == segs[index].articleId
    ensures SoleUsers(refs, segs) ==> SoleUser(refs, RefOf(now[index]))
  {
    assert RefOf(segs[index]) == RefOf(now[index]);
  }

  // ---------------------------------------------------------------------------
  // readManifestWindow

  /** What a window over a file of declared size `size` should hold. */
  function WindowOf(content: Buffer, size: int, start: nat, length: int): Buffer {
    if length <= 0 || start >= size then [] else Slice(content, start, Min(length, size - start))
  }

  /** A window's bytes, and the manifest it leaves behind. */
  datatype WindowRead = WindowRead(bytes: Buffer, segs: seq<Segment>)

  /** How much of a segment a shorter article takes away. */
  function Missing(s: Segment, actual: nat): nat {
    if Shrinks(s, actual) then s.bytes - actual else 0
  }

  /** The bytes a window takes from an article it enters `skip` bytes behind the segment's start. */
  function Taken(s: Segment, body: Buffer, skip: int, wanted: nat): (r: Buffer)
    requires skip < s.Length()
    ensures |r| <= wanted
  {
    var from := s.sourceOffset + Max(0, skip);
    Subarray(body, from, from + Min(wanted, s.Length() - skip))
  }

  function AllShifted(segs: seq<Segment>, delta: int): (r: seq<Segment>)
    ensures |r| == |segs|
  {
    seq(|segs|, i requires 0 <= i < |segs| => Shifted(segs[i], delta))
  }

  /**
   A window without updates in place: `skip` is how far it starts behind the first segment,
   or how much before it once empty articles were passed, and `moved` by how much the
   segments have come forward.
   */
  function Through(segs: seq<Segment>, articles: Articles, skip: int, wanted: nat, moved: int): WindowRead {
    if segs == [] || wanted == 0 then WindowRead([], AllShifted(segs, moved))
    else
      var s := segs[0];
      if skip >= s.Length() then
        Behind([], Shifted(s, moved), Through(segs[1..], articles, skip - s.Length(), wanted, moved))
      else
        var body := articles(s.articleId);
        var chunk, missing := Taken(s, body, skip, wanted), Missing(s, |body|);
        Behind(chunk, Shortened(Shifted(s, moved), |body|),
               Through(segs[1..], articles, skip + |chunk| - s.Length() + missing, wanted - |chunk|, moved + missing))
  }

  function Behind(bytes: Buffer, s: Segment, rest: WindowRead): WindowRead {
    WindowRead(bytes + rest.bytes, [s] + rest.segs)
  }

  /** A segment after its article came out `actual` bytes long. */
  function Shortened(s: Segment, actual: nat): Segment {
    if Shrinks(s, actual) then s.(bytes := actual, end := s.start + actual - 1) else s
  }

  /** Segments without gap or overlap, wherever they begin. */
  ghost predicate Gapless(segs: seq<Segment>) {
    segs != [] ==> Contiguous(segs, segs[0].start, segs[|segs| - 1].end + 1)
  }

  function FirstStart(segs: seq<Segment>): int {
    if segs == [] then 0 else segs[0].start
  }

  function Wanted(size: int, start: nat, length: int): nat {
    Max(0, Min(length, size - start))
  }

  /**
   Reads a window through whole buffered articles, of whatever lengths, shrinking the
   manifest in place. Over any gapless manifest that is the reading and the manifest
   `Through` describes. A manifest that tiles `content` is left alone and the window is
   exact, whatever size the file declares. For whole articles of other lengths the window
   runs through what is there, up to the lengths announced, from the article of the first
   byte on. All this for segments that do not share their cache keys with others.
   */
  method ReadManifestWindow(
    segments: array<Segment>, size: int, start: nat, length: int, cache: ArticleCache, ghost content: Buffer)
    returns (out: Buffer)
    requires cache.Valid() && AllAsked(cache.refs, segments[..])
    modifies segments, cache
    ensures cache.Valid()
    ensures Gapless(old(segments[..])) && SoleUsers(cache.refs, old(segments[..])) ==>
      WindowRead(out, segments[..])
      == Through(old(segments[..]), cache.articles, start - FirstStart(old(segments[..])), Wanted(size, start, length), 0)
    ensures Tiles(old(segments[..]), cache.articles, content) && SoleUsers(cache.refs, old(segments[..])) ==>
      segments[..] == old(segments[..]) && out == WindowOf(content, size, start, length)
    ensures
      (&& Gapless(old(segments[..])) && WholeArticles(old(segments[..])) && Level(old(segments[..]), cache.articles)
       && SoleUsers(cache.refs, old(segments[..]))) ==>
      forall i | StartsInside(old(segments[..]), cache.articles, start, i) ::
        out == Slice(Announced(old(segments[..])[i..], cache.articles), start - old(segments[..])[i].start,
                     Wanted(size, start, length))
  {
    hide Slice, Subarray, Tiles, Ordered, Shrunk, Gapless, Reading, Concat, Through, FirstStart;
    hide AllAsked, SoleUser, SoleUsers, SameRefs, Serves, ArticleCache.Valid, WholeArticles, Level, StartsInside, Announced;
    ghost var segs, articles, wanted := segments[..], cache.articles, Wanted(size, start, length);
    WindowMeans(segs, articles, content, size, start, length);
    if length <= 0 || start >= size {
      NothingThrough(segs, articles, start - FirstStart(segs), 0);
      return [];
    }
    var safeLength := Min(length, size - start);
    var buffers: seq<Buffer> := [];
    var total := 0;
    var cursor := start;
    var segmentIndex := FindSegmentIndex(segments[..], start);
    ghost var sole, moved := SoleUsers(cache.refs, segs) && Gapless(segs), 0;
    ReadingStarts(segs, articles, start, wanted, segmentIndex);

    while total < safeLength && segmentIndex < segments.Length
      invariant cache.Valid() && SameRefs(segs, segments[..])
      invariant cursor == start + total && total == |Concat(buffers)|
      invariant sole ==> Reading(segs, segments[..], articles, start, wanted, segmentIndex, Concat(buffers), moved)
      decreases segments.Length - segmentIndex
    {
      var segment := segments[segmentIndex];
      if cursor > segment.end {
        if sole {
          ReadingSkips(segs, segments[..], articles, start, wanted, segmentIndex, Concat(buffers), moved);
        }
        segmentIndex := segmentIndex + 1;
        continue;
      }
      var segmentOffset := segment.sourceOffset + Max(0, cursor - segment.start);
      var take := Min(safeLength - total, segment.end - cursor + 1);
      AskedAt(cache.refs, segs, segments[..], segmentIndex);
      var decoded := cache.GetOrFetch(RefOf(segment));
      if sole {
        moved := ReadingTakes(segs, segments[..], articles, start, wanted, segmentIndex, Concat(buffers), moved);
      }
      ShrinkKeepsRefs(segs, segments[..], segmentIndex, |decoded|);
      if |decoded| < segment.bytes {
        ShrinkManifestSegment(segments, segmentIndex, |decoded|);
      }
      var chunk := Subarray(decoded, segmentOffset, segmentOffset + take);
      ConcatSnoc(buffers, chunk);
      buffers := buffers + [chunk];
      total := total + |chunk|;
      cursor := cursor + |chunk|;
      segmentIndex := segmentIndex + 1;
    }
    out := Concat(buffers);
    if sole {
      ReadingEnds(segs, segments[..], articles, start, wanted, segmentIndex, out, moved);
    }
  }

  /** The window's loop invariant: what is done and what is left make up the whole. */
  ghost predicate Reading(
    segs: seq<Segment>, now: seq<Segment>, articles: Articles, start: nat, wanted: nat,
    index: nat, done: Buffer, moved: int)
  {
    && Gapless(segs) && index <= |segs| == |now| && |done| <= wanted
    && (forall j | index <= j < |segs| :: now[j] == Shifted(segs[j], moved))
    && var skip := if index < |segs| then start + |done| - now[index].start else 0;
       var rest := Through(segs[index..], articles, skip, wanted - |done|, moved);
       Through(segs, articles, start - FirstStart(segs), wanted, 0) == WindowRead(done + rest.bytes, now[..index] + rest.segs)
  }

  lemma NothingThrough(segs: seq<Segment>, articles: Articles, skip: int, wanted: nat)
    requires segs == [] || wanted == 0
    ensures Through(segs, articles, skip, wanted, 0) == WindowRead([], segs)
  {
    assert AllShifted(segs, 0) == segs;
  }

  /** One step past a segment that ends before the window. */
  lemma ThroughSkips(segs: seq<Segment>, articles: Articles, skip: int, wanted: nat, moved: int)
    requires segs != [] && wanted > 0 && skip >= segs[0].Length()
    ensures Through(segs, articles, skip, wanted, moved)
         == Behind([], Shifted(segs[0], moved), Through(segs[1..], articles, skip - segs[0].Length(), wanted, moved))
  {
  }

  /** One step through a segment. */
  lemma ThroughTakes(segs: seq<Segment>, articles: Articles, skip: int, wanted: nat, moved: int)
    requires segs != [] && wanted > 0 && skip < segs[0].Length()
    ensures var s, body := segs[0], articles(segs[0].articleId);
      var chunk, missing := Taken(s, body, skip, wanted), Missing(s, |body|);
      Through(segs, articles, skip, wanted, moved)
      == Behind(chunk, Shortened(Shifted(s, moved), |body|),
                Through(segs[1..], articles, skip + |chunk| - s.Length() + missing, wanted - |chunk|, moved + missing))
  {
  }

  /** Dropping the first segment of a gapless run. */
  lemma GaplessTail(segs: seq<Segment>)
    requires Gapless(segs) && segs != []
    ensures Gapless(segs[1..]) && (|segs| > 1 ==> segs[1].start == segs[0].start + segs[0].Length())
  {
    ContiguousTail(segs, segs[0].start, segs[|segs| - 1].end + 1);
  }

  /** The tail's split is the sequence's split. */
  lemma SplitOfTail<T>(s: seq<T>, first: nat, rest: seq<T>)
    requires 0 < first < |s|
    ensures s[1..][first - 1..] == s[first..]
    ensures [s[0]] + (s[1..][..first - 1] + rest) == s[..first] + rest
  {
    assert s[..first] == [s[0]] + s[1..][..first - 1];
    Reassociate([s[0]], s[1..][..first - 1], rest);
  }

  /** Segments that end before the window are passed. */
  lemma {:induction false} PassedThrough(segs: seq<Segment>, articles: Articles, start: int, wanted: nat, first: nat)
    requires Gapless(segs) && first < |segs| && wanted > 0
    requires forall j | 0 <= j < first :: segs[j].end < start
    ensures var rest := Through(segs[first..], articles, start - segs[first].start, wanted, 0);
      Through(segs, articles, start - segs[0].start, wanted, 0) == WindowRead(rest.bytes, segs[..first] + rest.segs)
  {
    hide Through, Gapless;
    if first == 0 {
      assert segs[0..] == segs && segs[..0] == [];
    } else {
      var rest := Through(segs[first..], articles, start - segs[first].start, wanted, 0);
      GaplessTail(segs);
      ThroughSkips(segs, articles, start - segs[0].start, wanted, 0);
      PassedThrough(segs[1..], articles, start, wanted, first - 1);
      SplitOfTail(segs, first, rest.segs);
      assert Shifted(segs[0], 0) == segs[0];
    }
  }

  lemma ReadingStarts(segs: seq<Segment>, articles: Articles, start: nat, wanted: nat, first: nat)
    requires wanted > 0 && (segs == [] ==> first == 0) && (segs != [] ==> first < |segs|)
    requires Ordered(segs) ==> forall j | 0 <= j < |segs| && j < first :: segs[j].end < start
    ensures Gapless(segs) ==> Reading(segs, segs, articles, start, wanted, first, [], 0)
    ensures SameRefs(segs, segs) && Concat([]) == []
  {
    hide Through, Contiguous;
    if Gapless(segs) {
      assert forall j | 0 <= j < |segs| :: Shifted(segs[j], 0) == segs[j];
      if segs != [] {
        ContiguousBounds(segs, segs[0].start, segs[|segs| - 1].end + 1);
        PassedThrough(segs, articles, start, wanted, first);
      }
      ThroughAtEnd(segs, articles, start - FirstStart(segs), if segs == [] then 0 else start - FirstStart(segs), wanted, 0);
    }
  }

  lemma NextStart(segs: seq<Segment>, index: nat)
    requires Gapless(segs) && index < |segs|
    ensures index + 1 < |segs| ==> segs[index + 1].start == segs[index].end + 1
  {
  }

  lemma ReadingSkips(
    segs: seq<Segment>, now: seq<Segment>, articles: Articles, start: nat, wanted: nat,
    index: nat, done: Buffer, moved: int)
    requires Reading(segs, now, articles, start, wanted, index, done, moved)
    requires index < |segs| && |done| < wanted && now[index].end < start + |done|
    ensures Reading(segs, now, articles, start, wanted, index + 1, done, moved)
  {
    hide Through, Gapless;
    NextStart(segs, index);
    assert segs[index..][1..] == segs[index + 1..];
    var skip := start + |done| - now[index].start;
    ThroughSkips(segs[index..], articles, skip, wanted - |done|, moved);
    var rest := if index + 1 < |segs| then start + |done| - now[index + 1].start else 0;
    ThroughAtEnd(segs[index + 1..], articles, skip - segs[index].Length(), rest, wanted - |done|, moved);
    assert now[..index + 1] == now[..index] + [now[index]];
    Reassociate(
      now[..index], [now[index]], Through(segs[index + 1..], articles, skip - segs[index].Length(), wanted - |done|, moved).segs);
  }

  /** Behind the last segment it does not matter where the window stands. */
  lemma ThroughAtEnd(segs: seq<Segment>, articles: Articles, skip: int, skip': int, wanted: nat, moved: int)
    requires segs == [] || skip == skip'
    ensures Through(segs, articles, skip, wanted, moved) == Through(segs, articles, skip', wanted, moved)
  {
  }

  /** The manifest after segment `index` has been read. */
  function AfterRead(now: seq<Segment>, index: nat, actual: nat): (r: seq<Segment>)
    requires index < |now|
    ensures |r| == |now|
  {
    if actual < now[index].bytes then Shrunk(now, index, actual) else now
  }

  /** Earlier segments stay, this one is shortened and later ones come forward. */
  lemma AfterReadIs(segs: seq<Segment>, now: seq<Segment>, index: nat, moved: int, actual: nat)
    requires index < |segs| == |now| && forall j | index <= j < |segs| :: now[j] == Shifted(segs[j], moved)
    ensures var after := AfterRead(now, index, actual);
      && after[..index + 1] == now[..index] + [Shortened(Shifted(segs[index], moved), actual)]
      && forall j | index < j < |segs| :: after[j] == Shifted(segs[j], moved + Missing(segs[index], actual))
  {
    var after := AfterRead(now, index, actual);
    assert now[index] == Shifted(segs[index], moved);
    assert after[..index] == now[..index] && after[..index + 1] == after[..index] + [after[index]];
    forall j | index < j < |segs|
      ensures after[j] == Shifted(segs[j], moved + Missing(segs[index], actual))
    {
      assert now[j] == Shifted(segs[j], moved);
    }
  }

  lemma ReadingTakes(
    segs: seq<Segment>, now: seq<Segment>, articles: Articles, start: nat, wanted: nat,
    index: nat, done: Buffer, moved: int)
    returns (moved': int)
    requires Reading(segs, now, articles, start, wanted, index, done, moved)
    requires index < |segs| && |done| < wanted && start + |done| <= now[index].end
    ensures var s, cursor, body := now[index], start + |done|, articles(segs[index].articleId);
      var from, take := s.sourceOffset + Max(0, cursor - s.start), Min(wanted - |done|, s.end - cursor + 1);
      Reading(segs, AfterRead(now, index, |body|), articles, start, wanted, index + 1,
              done + Subarray(body, from, from + take), moved')
  {
    hide Through, Gapless, Subarray, AfterRead, Shortened;
    var s, body, room := segs[index], articles(segs[index].articleId), wanted - |done|;
    moved' := moved + Missing(s, |body|);
    NextStart(segs, index);
    assert segs[index..][1..] == segs[index + 1..];
    var after, skip := AfterRead(now, index, |body|), start + |done| - now[index].start;
    var chunk := Taken(s, body, skip, room);
    AfterReadIs(segs, now, index, moved, |body|);
    ThroughTakes(segs[index..], articles, skip, room, moved);
    var next := skip + |chunk| - s.Length() + Missing(s, |body|);
    var rest := if index + 1 < |segs| then start + |done + chunk| - after[index + 1].start else 0;
    ThroughAtEnd(segs[index + 1..], articles, next, rest, room - |chunk|, moved');
    var left := Through(segs[index + 1..], articles, next, room - |chunk|, moved');
    Reassociate(now[..index], [Shortened(Shifted(s, moved), |body|)], left.segs);
    Reassociate(done, chunk, left.bytes);
  }

  lemma ReadingEnds(
    segs: seq<Segment>, now: seq<Segment>, articles: Articles, start: nat, wanted: nat,
    index: nat, out: Buffer, moved: int)
    requires Reading(segs, now, articles, start, wanted, index, out, moved) && (|out| >= wanted || index >= |segs|)
    ensures Through(segs, articles, start - FirstStart(segs), wanted, 0) == WindowRead(out, now)
  {
    assert AllShifted(segs[index..], moved) == now[index..];
    assert now[..index] + now[index..] == now;
  }

  // ---------------------------------------------------------------------------
  // What a window reads

  /** A tiling manifest is left alone, and the window is exact. */
  lemma {:induction false} ThroughTiling(
    segs: seq<Segment>, articles: Articles, content: Buffer, from: int, cursor: nat, wanted: nat)
    requires Contiguous(segs, from, |content|) && AllHold(segs, articles, content) && from <= cursor
    ensures Through(segs, articles, cursor - from, wanted, 0) == WindowRead(Slice(content, cursor, wanted), segs)
  {
    hide Slice, Contiguous, Through, Subarray;
    ContiguousHead(segs, from, |content|);
    if segs == [] || wanted == 0 {
      NothingThrough(segs, articles, cursor - from, wanted);
      NothingThere(content, cursor, wanted);
    } else {
      var s, rest := segs[0], segs[1..];
      assert Shifted(s, 0) == s && segs == [s] + rest;
      assert AllHold(rest, articles, content) && Holds(s, articles, content);
      if cursor > s.end {
        ThroughSkips(segs, articles, cursor - from, wanted, 0);
        ThroughTiling(rest, articles, content, s.end + 1, cursor, wanted);
      } else {
        var take := Min(wanted, s.end - cursor + 1);
        ChunkIsContent(s, articles, content, cursor, take);
        ThroughTakes(segs, articles, cursor - from, wanted, 0);
        SliceJoin(content, cursor, take, wanted - take);
        if take < wanted {
          ThroughTiling(rest, articles, content, s.end + 1, cursor + take, wanted - take);
        } else {
          NothingThrough(rest, articles, cursor - from + take - s.Length(), 0);
          NothingThere(content, cursor + take, 0);
        }
      }
    }
  }

  lemma NothingThere(content: Buffer, cursor: nat, wanted: nat)
    requires wanted == 0 || |content| <= cursor
    ensures Slice(content, cursor, wanted) == []
  {
  }

  /** Every segment is all of its article, as announced. */
  predicate WholeArticles(segs: seq<Segment>) {
    forall i | 0 <= i < |segs| :: segs[i].sourceOffset == 0 && segs[i].Length() == segs[i].bytes >= 0
  }

  /** No article is empty and the window stands at a beginning, or none is longer than announced. */
  predicate LevelAt(segs: seq<Segment>, articles: Articles, skip: int) {
    || (skip == 0 && forall i | 0 <= i < |segs| :: articles(segs[i].articleId) != [])
    || (forall i | 0 <= i < |segs| :: |articles(segs[i].articleId)| <= segs[i].bytes)
  }

  /** No article is empty, or none is longer than announced. */
  predicate Level(segs: seq<Segment>, articles: Articles) {
    LevelAt(segs, articles, 0)
  }

  /** The articles one after the other, none beyond its announced length. */
  function Announced(segs: seq<Segment>, articles: Articles): Buffer {
    if segs == [] then []
    else Subarray(articles(segs[0].articleId), 0, segs[0].bytes) + Announced(segs[1..], articles)
  }

  /** Segment `i` covers `start`, and its article is long enough to have that byte. */
  ghost predicate StartsInside(segs: seq<Segment>, articles: Articles, start: int, i: int) {
    IsEstimate(segs, start, i) && start - segs[i].start < |articles(segs[i].articleId)|
  }

  /** What is taken from an article entered at its beginning or behind empty ones. */
  lemma TakenFromStart(s: Segment, body: Buffer, skip: int, wanted: nat)
    requires s.sourceOffset == 0 && s.Length() == s.bytes && skip <= 0 && skip < s.Length()
    requires (skip == 0 && body != []) || |body| <= s.bytes
    ensures var chunk := Taken(s, body, skip, wanted);
      var next := skip + |chunk| - s.Length() + Missing(s, |body|);
      && chunk == Slice(Subarray(body, 0, s.bytes), 0, wanted)
      && (|chunk| < wanted ==> next <= 0 && (skip == 0 && body != [] ==> next == 0))
  {
  }

  lemma TakenFromInside(s: Segment, body: Buffer, skip: nat, wanted: nat)
    requires s.sourceOffset == 0 && s.Length() == s.bytes && skip < s.Length() && skip < |body|
    ensures var chunk := Taken(s, body, skip, wanted);
      && chunk == Slice(Subarray(body, 0, s.bytes), skip, wanted)
      && (|chunk| < wanted ==>
            |Subarray(body, 0, s.bytes)| >= skip && skip + |chunk| - s.Length() + Missing(s, |body|) == 0)
  {
  }

  lemma WholeTail(segs: seq<Segment>, articles: Articles, skip: int)
    requires WholeArticles(segs) && LevelAt(segs, articles, skip) && segs != []
    ensures segs[0].sourceOffset == 0 && segs[0].Length() == segs[0].bytes >= 0 && WholeArticles(segs[1..])
    ensures (skip == 0 && articles(segs[0].articleId) != []) || |articles(segs[0].articleId)| <= segs[0].bytes
    ensures forall next: int | skip == 0 && articles(segs[0].articleId) != [] ==> next == 0 ::
      LevelAt(segs[1..], articles, next)
  {
  }

  /** From the beginning of an article on, even behind empty ones. */
  lemma {:induction false} ThroughFromStart(segs: seq<Segment>, articles: Articles, skip: int, wanted: nat, moved: int)
    requires WholeArticles(segs) && LevelAt(segs, articles, skip) && skip <= 0
    ensures Through(segs, articles, skip, wanted, moved).bytes == Slice(Announced(segs, articles), 0, wanted)
  {
    hide Through, Slice, Subarray, Taken, Missing, LevelAt;
    if segs == [] || wanted == 0 {
      EmptyThrough(segs, articles, skip, wanted, moved);
      NothingThere(Announced(segs, articles), 0, wanted);
      return;
    }
    var s, rest, body := segs[0], segs[1..], articles(segs[0].articleId);
    var cut := Subarray(body, 0, s.bytes);
    WholeTail(segs, articles, skip);
    SliceAcross(cut, Announced(rest, articles), 0, wanted);
    if skip >= s.Length() {
      ThroughSkips(segs, articles, skip, wanted, moved);
      NothingThere(cut, 0, wanted);
      ThroughFromStart(rest, articles, 0, wanted, moved);
    } else {
      TakenFromStart(s, body, skip, wanted);
      ThroughTakes(segs, articles, skip, wanted, moved);
      var chunk, missing := Taken(s, body, skip, wanted), Missing(s, |body|);
      var next := skip + |chunk| - s.Length() + missing;
      if |chunk| < wanted {
        ThroughFromStart(rest, articles, next, wanted - |chunk|, moved + missing);
      } else {
        EmptyThrough(rest, articles, next, 0, moved + missing);
        NothingThere(Announced(rest, articles), Max(0, 0 - |cut|), 0);
      }
    }
  }

  lemma EmptyThrough(segs: seq<Segment>, articles: Articles, skip: int, wanted: nat, moved: int)
    requires segs == [] || wanted == 0
    ensures Through(segs, articles, skip, wanted, moved).bytes == []
  {
  }

  /** From inside an article on. */
  lemma ThroughFromInside(segs: seq<Segment>, articles: Articles, skip: nat, wanted: nat, moved: int)
    requires WholeArticles(segs) && Level(segs, articles) && wanted > 0
    requires segs != [] && skip < segs[0].bytes && skip < |articles(segs[0].articleId)|
    ensures Through(segs, articles, skip, wanted, moved).bytes == Slice(Announced(segs, articles), skip, wanted)
  {
    hide Through, Slice, Subarray, Taken, Missing;
    var s, rest, body := segs[0], segs[1..], articles(segs[0].articleId);
    var cut := Subarray(body, 0, s.bytes);
    WholeTail(segs, articles, 0);
    SliceAcross(cut, Announced(rest, articles), skip, wanted);
    TakenFromInside(s, body, skip, wanted);
    ThroughTakes(segs, articles, skip, wanted, moved);
    var chunk, missing := Taken(s, body, skip, wanted), Missing(s, |body|);
    var next := skip + |chunk| - s.Length() + missing;
    if |chunk| < wanted {
      ThroughFromStart(rest, articles, 0, wanted - |chunk|, moved + missing);
    } else {
      EmptyThrough(rest, articles, next, 0, moved + missing);
      NothingThere(Announced(rest, articles), Max(0, skip - |cut|), 0);
    }
  }

  lemma ThroughWhole(segs: seq<Segment>, articles: Articles, start: int, wanted: nat, i: int)
    requires Gapless(segs) && WholeArticles(segs) && Level(segs, articles) && StartsInside(segs, articles, start, i)
    ensures Through(segs, articles, start - FirstStart(segs), wanted, 0).bytes
         == Slice(Announced(segs[i..], articles), start - segs[i].start, wanted)
  {
    hide Through, Slice, Announced;
    if wanted == 0 {
      NothingThrough(segs, articles, start - FirstStart(segs), 0);
      NothingThere(Announced(segs[i..], articles), start - segs[i].start, 0);
    } else {
      ContiguousBounds(segs, segs[0].start, segs[|segs| - 1].end + 1);
      PassedThrough(segs, articles, start, wanted, i);
      assert WholeArticles(segs[i..]) && Level(segs[i..], articles);
      ThroughFromInside(segs[i..], articles, start - segs[i].start, wanted, 0);
    }
  }

  /** What the reading of a window comes to, over a tiling manifest and over whole articles. */
  lemma WindowMeans(segs: seq<Segment>, articles: Articles, content: Buffer, size: int, start: nat, length: int)
    ensures var read := Through(segs, articles, start - FirstStart(segs), Wanted(size, start, length), 0);
      && (Tiles(segs, articles, content) ==> Gapless(segs) && read == WindowRead(WindowOf(content, size, start, length), segs))
      && (Gapless(segs) && WholeArticles(segs) && Level(segs, articles) ==>
            forall i | StartsInside(segs, articles, start, i) ::
              segs[i].start <= start
              && read.bytes == Slice(Announced(segs[i..], articles), start - segs[i].start, Wanted(size, start, length)))
  {
    hide Through, Slice, Announced, WholeArticles, Level, AllHold;
    var wanted := Wanted(size, start, length);
    if Tiles(segs, articles, content) {
      ThroughTiling(segs, articles, content, 0, start, wanted);
      NothingThere(content, start, 0);
      if segs == [] {
        ThroughAtEnd(segs, articles, start, start - FirstStart(segs), wanted, 0);
      }
    }
    if Gapless(segs) && WholeArticles(segs) && Level(segs, articles) {
      forall i | StartsInside(segs, articles, start, i)
        ensures segs[i].start <= start
        ensures Through(segs, articles, start - FirstStart(segs), wanted, 0).bytes
             == Slice(Announced(segs[i..], articles), start - segs[i].start, wanted)
      {
        ThroughWhole(segs, articles, start, wanted, i);
      }
    }
  }

  /** The piece of a segment's article that starts at file position `cursor`. */
  lemma {:induction false} ChunkIsContent(s: Segment, articles: Articles, content: Buffer, cursor: nat, take: nat)
    requires Holds(s, articles, content) && s.start <= cursor && cursor + take <= s.end + 1
    ensures var from := s.sourceOffset + (cursor - s.start);
      Subarray(articles(s.articleId), from, from + take) == Slice(content, cursor, take)
      && |Slice(content, cursor, take)| == take
  {
    HeldPiece(s, articles, content, cursor - s.start, take);
  }

  // ---------------------------------------------------------------------------
  // findDirectMountedSegmentByOffsetExact

  datatype Bounds = Bounds(start: int, end: int)

  datatype Located = NotLocated | Located(index: nat, bounds: Bounds)

  /** A segment's bounds: its part header's when there is one, else the manifest's. */
  function EffectiveBounds(s: Segment, info: Option<PartInfo>): Bounds {
    match info
    case Some(part) =>
      var bytes := if part.partSize > 0 then part.partSize else s.Length();
      Bounds(part.partOffset, part.partOffset + bytes - 1)
    case None =>
      Bounds(s.start, s.end)
  }

  /** A header moves the segment to its part, and stretches it unless it names no size. */
  lemma EffectiveIsPart(s: Segment, part: PartInfo)
    ensures var bounds := EffectiveBounds(s, Some(part));
      && (part.partSize > 0 ==> forall p: int :: part.HasPosition(p) <==> bounds.start < p <= bounds.end + 1)
      && (part.partSize <= 0 ==>
            bounds == Bounds(Shifted(s, s.start - part.partOffset).start, Shifted(s, s.start - part.partOffset).end))
  {
  }

  /** The manifest's own guess for an offset. */
  ghost predicate IsEstimate(segs: seq<Segment>, offset: int, e: int) {
    0 <= e < |segs| && segs[e].Covers(offset)
  }

  method FindDirectSegmentByOffset(segs: seq<Segment>, offset: int) returns (found: Located)
    ensures found.Located? ==>
      IsEstimate(segs, offset, found.index) && found.bounds == Bounds(segs[found.index].start, segs[found.index].end)
    ensures Ordered(segs) ==> forall e | IsEstimate(segs, offset, e) :: found.Located? && found.index == e
  {
    if segs == [] {
      return NotLocated;
    }
    var index := FindSegmentIndex(segs, offset);
    var segment := segs[index];
    if offset < segment.start || offset > segment.end {
      return NotLocated;
    }
    return Located(index, Bounds(segment.start, segment.end));
  }

  /** `starts[i]` is where article i really starts, and the effective bounds agree. */
  ghost predicate TrueStarts(starts: seq<int>, segs: seq<Segment>, infos: seq<Option<PartInfo>>)
    requires |infos| == |segs|
  {
    && |starts| == |segs| + 1
    && (forall i, j | 0 <= i < j < |starts| :: starts[i] < starts[j])
    && forall i | 0 <= i < |segs| :: EffectiveBounds(segs[i], infos[i]) == Bounds(starts[i], starts[i + 1] - 1)
  }

  /** Article k is the one that holds the byte at `offset`. */
  ghost predicate TrulyAt(starts: seq<int>, offset: int, k: int) {
    0 <= k < |starts| - 1 && starts[k] <= offset < starts[k + 1]
  }

  const WALK_LIMIT := 64

  /** The manifest's own answer: the segment that covers the offset, if there is one. */
  ghost function Estimate(segs: seq<Segment>, offset: int): Located {
    if exists e :: IsEstimate(segs, offset, e) then
      var e :| IsEstimate(segs, offset, e);
      Located(e, Bounds(segs[e].start, segs[e].end))
    else
      NotLocated
  }

  /** The correction walk from `index` on, or None when it gives up. */
  function Walk(
    segs: seq<Segment>, infos: seq<Option<PartInfo>>, offset: int, visited: set<int>, index: int, attempts: nat)
    : (r: Option<Located>)
    requires |infos| == |segs|
    ensures r.Some? ==>
      && r.value.Located? && r.value.index < |segs|
      && r.value.bounds == EffectiveBounds(segs[r.value.index], infos[r.value.index])
      && r.value.bounds.start <= offset <= r.value.bounds.end
    decreases WALK_LIMIT - attempts
  {
    if attempts >= WALK_LIMIT || index < 0 || index >= |segs| || index in visited then None
    else
      var effective := EffectiveBounds(segs[index], infos[index]);
      if effective.start <= offset <= effective.end then Some(Located(index, effective))
      else Walk(segs, infos, offset, visited + {index}, index + (if offset < effective.start then -1 else 1), attempts + 1)
  }

  /** The guess, corrected by the walk unless that gives up. */
  ghost function Locate(segs: seq<Segment>, infos: seq<Option<PartInfo>>, offset: int): (r: Located)
    requires |infos| == |segs|
    ensures r.Located? ==> r.index < |segs| && r.bounds.start <= offset <= r.bounds.end
  {
    match Estimate(segs, offset)
    case NotLocated => NotLocated
    case Located(e, bounds) =>
      match Walk(segs, infos, offset, {}, e, 0)
      case Some(found) => found
      case None => Located(e, bounds)
  }

  /** What the walk answers, given the guess `e` and the true index `k`. */
  ghost function WalkAnswer(starts: seq<int>, segs: seq<Segment>, e: int, k: int): Located
    requires 0 <= e < |segs| && 0 <= k < |starts| - 1
  {
    if -64 < k - e < 64
    then Located(k, Bounds(starts[k], starts[k + 1] - 1))
    else Located(e, Bounds(segs[e].start, segs[e].end))
  }

  /** The walk goes straight for the true article, as far as its attempts last. */
  lemma {:induction false} WalkGoesStraight(
    starts: seq<int>, segs: seq<Segment>, infos: seq<Option<PartInfo>>, offset: int, k: int,
    visited: set<int>, index: int, attempts: nat)
    requires |infos| == |segs| && TrueStarts(starts, segs, infos) && TrulyAt(starts, offset, k)
    requires 0 <= index < |segs| && attempts <= WALK_LIMIT
    requires (index <= k && forall v <- visited :: v < index) || (k <= index && forall v <- visited :: index < v)
    ensures Walk(segs, infos, offset, visited, index, attempts)
         == if Max(k - index, index - k) < WALK_LIMIT - attempts
            then Some(Located(k, Bounds(starts[k], starts[k + 1] - 1))) else None
    decreases WALK_LIMIT - attempts
  {
    assert EffectiveBounds(segs[index], infos[index]) == Bounds(starts[index], starts[index + 1] - 1);
    if attempts < WALK_LIMIT && index != k {
      assert index < k ==> starts[index + 1] <= starts[k];
      assert k < index ==> starts[k + 1] <= starts[index];
      WalkGoesStraight(starts, segs, infos, offset, k, visited + {index}, if index < k then index + 1 else index - 1, attempts + 1);
    }
  }

  /** What is located at an offset the manifest covers, in terms of where the articles really are. */
  lemma LocateAnswers(starts: seq<int>, segs: seq<Segment>, infos: seq<Option<PartInfo>>, offset: int, e: int, k: int)
    requires |infos| == |segs| && TrueStarts(starts, segs, infos) && Ordered(segs)
    requires IsEstimate(segs, offset, e) && TrulyAt(starts, offset, k)
    ensures Locate(segs, infos, offset) == WalkAnswer(starts, segs, e, k)
  {
    hide TrueStarts, Walk;
    OneEstimate(segs, offset, e);
    WalkGoesStraight(starts, segs, infos, offset, k, {}, e, 0);
  }

  lemma OneEstimate(segs: seq<Segment>, offset: int, e: int)
    requires Ordered(segs) && IsEstimate(segs, offset, e)
    ensures Estimate(segs, offset) == Located(e, Bounds(segs[e].start, segs[e].end))
  {
    forall d | IsEstimate(segs, offset, d)
      ensures d == e
    {
      assert segs[d].Covers(offset) && segs[e].Covers(offset);
    }
  }

  /**
   The correction walk always ends, and what it returns covers `offset`. When
   the effective bounds are the true, contiguous ones it never turns around: it
   returns the true segment exactly when that lies within 63 positions of the
   guess, and the guess otherwise.
   */
  method FindDirectSegmentByOffsetExact(
    segs: seq<Segment>, infos: seq<Option<PartInfo>>, offset: int, ghost starts: seq<int>)
    returns (found: Located)
    requires |infos| == |segs|
    ensures found.Located? ==> found.index < |segs| && found.bounds.start <= offset <= found.bounds.end
    ensures Ordered(segs) ==> found == Locate(segs, infos, offset)
    ensures Ordered(segs) ==> (found.Located? <==> exists e :: IsEstimate(segs, offset, e))
    ensures TrueStarts(starts, segs, infos) && Ordered(segs) ==>
      forall e, k | IsEstimate(segs, offset, e) && TrulyAt(starts, offset, k) :: found == WalkAnswer(starts, segs, e, k)
  {
    hide TrueStarts, Ordered, Walk, EffectiveBounds, WalkAnswer, TrulyAt;
    var estimated := FindDirectSegmentByOffset(segs, offset);
    if estimated.NotLocated? {
      return NotLocated;
    }
    ghost var walk := Walk(segs, infos, offset, {}, estimated.index, 0);
    if Ordered(segs) {
      OneEstimate(segs, offset, estimated.index);
      WalkAnswers(starts, segs, infos, offset);
    }
    var visited: set<int> := {};
    var index: int := estimated.index;
    var direction := 0;
    var attempts := 0;
    while attempts < WALK_LIMIT
      invariant attempts <= WALK_LIMIT && 0 <= index < |segs|
      invariant walk == Walk(segs, infos, offset, visited, index, attempts)
    {
      WalkUnfolds(segs, infos, offset, visited, index, attempts);
      if index < 0 || index >= |segs| || index in visited {
        break;
      }
      visited := visited + {index};
      var effective := EffectiveBounds(segs[index], infos[index]);
      if effective.start <= offset <= effective.end {
        return Located(index, effective);
      }
      direction := if offset < effective.start then -1 else 1;
      if index + direction < 0 || index + direction >= |segs| {
        WalkUnfolds(segs, infos, offset, visited, index + direction, attempts + 1);
        break;
      }
      index := index + direction;
      attempts := attempts + 1;
    }
    WalkUnfolds(segs, infos, offset, visited, index, attempts);
    return estimated;
  }

  lemma WalkUnfolds(segs: seq<Segment>, infos: seq<Option<PartInfo>>, offset: int, visited: set<int>, index: int, attempts: nat)
    requires |infos| == |segs|
    ensures Walk(segs, infos, offset, visited, index, attempts) ==
      if attempts >= WALK_LIMIT || index < 0 || index >= |segs| || index in visited then None
      else
        var effective := EffectiveBounds(segs[index], infos[index]);
        if effective.start <= offset <= effective.end then Some(Located(index, effective))
        else Walk(segs, infos, offset, visited + {index}, index + (if offset < effective.start then -1 else 1), attempts + 1)
  {
  }

  lemma WalkAnswers(starts: seq<int>, segs: seq<Segment>, infos: seq<Option<PartInfo>>, offset: int)
    requires |infos| == |segs| && Ordered(segs)
    ensures TrueStarts(starts, segs, infos) ==>
      forall e, k | IsEstimate(segs, offset, e) && TrulyAt(starts, offset, k) ::
        Locate(segs, infos, offset) == WalkAnswer(starts, segs, e, k)
  {
    if TrueStarts(starts, segs, infos) {
      forall e, k | IsEstimate(segs, offset, e) && TrulyAt(starts, offset, k)
        ensures Locate(segs, infos, offset) == WalkAnswer(starts, segs, e, k)
      {
        LocateAnswers(starts, segs, infos, offset, e, k);
      }
    }
  }

  // ---------------------------------------------------------------------------
  // Reading article chunks

  /** The bodies of the articles of `segs`, one after the other. */
  function Bodies(segs: seq<Segment>, articles: Articles): Buffer {
    if segs == [] then [] else articles(segs[0].articleId) + Bodies(segs[1..], articles)
  }

  /** The collecting loops' state after the bytes `seen` have come in. */
  ghost predicate Collected(out: Buffer, discard: int, seen: Buffer, skip: nat, target: nat) {
    && out == Slice(seen, skip, target)
    && discard == Max(0, skip - |seen|)
  }

  /** A slice across the seam of two buffers. */
  lemma SliceAcross(seen: Buffer, chunk: Buffer, skip: nat, target: nat)
    ensures |Slice(seen, skip, target)| <= target
    ensures Slice(seen + chunk, skip, target)
         == Slice(seen, skip, target) + Slice(chunk, Max(0, skip - |seen|), target - |Slice(seen, skip, target)|)
  {
    var all, left := Slice(seen + chunk, skip, target), Slice(seen, skip, target);
    var right := Slice(chunk, Max(0, skip - |seen|), target - |left|);
    assert |all| == |left| + |right|;
    forall k | 0 <= k < |all|
      ensures all[k] == (left + right)[k]
    {
      assert all[k] == (seen + chunk)[skip + k];
      if k < |left| {
        assert left[k] == seen[skip + k];
      } else {
        assert right[k - |left|] == chunk[Max(0, skip - |seen|) + (k - |left|)];
      }
    }
  }

  /** The part of an arriving chunk that is kept. */
  function Kept(chunk: Buffer, discard: nat, room: nat): (r: Buffer)
    requires discard <= |chunk|
    ensures r == Slice(chunk, discard, room)
  {
    var kept := if discard > 0 then chunk[discard..] else chunk;
    if |kept| > room then kept[..room] else kept
  }

  /** An arriving chunk that is dropped whole. */
  lemma DropChunk(out: Buffer, discard: int, seen: Buffer, skip: nat, target: nat, chunk: Buffer)
    requires Collected(out, discard, seen, skip, target) && |chunk| <= discard
    ensures Collected(out, discard - |chunk|, seen + chunk, skip, target)
  {
    SliceAcross(seen, chunk, skip, target);
    assert Slice(chunk, discard, target - |out|) == [];
  }

  lemma KeepChunk(out: Buffer, discard: int, seen: Buffer, skip: nat, target: nat, chunk: Buffer)
    requires Collected(out, discard, seen, skip, target) && discard <= |chunk|
    ensures |out| <= target
    ensures var kept := Kept(chunk, discard, target - |out|);
      Collected(out + kept, 0, seen + chunk, skip, target)
      && (|kept| == 0 ==> Collected(out, 0, seen + chunk, skip, target))
  {
    hide Slice;
    SliceAcross(seen, chunk, skip, target);
    var kept := Kept(chunk, discard, target - |out|);
    assert |kept| == 0 ==> out + kept == out;
  }

  /** Once the target is reached, further bytes change nothing. */
  lemma CollectedEnough(out: Buffer, discard: int, seen: Buffer, skip: nat, target: nat, all: Buffer)
    requires Collected(out, discard, seen, skip, target) && seen <= all
    requires |out| >= target || seen == all
    ensures out == Slice(all, skip, target)
  {
    assert seen == all[..|seen|];
  }

  lemma {:induction false} BodiesSnoc(segs: seq<Segment>, from: nat, index: nat, articles: Articles)
    requires from <= index < |segs|
    ensures Bodies(segs[from..index + 1], articles) == Bodies(segs[from..index], articles) + articles(segs[index].articleId)
    decreases index - from
  {
    if from == index {
      assert segs[from..index + 1] == [segs[index]];
    } else {
      assert segs[from..index + 1][1..] == segs[from + 1..index + 1];
      assert segs[from..index][1..] == segs[from + 1..index];
      BodiesSnoc(segs, from + 1, index, articles);
    }
  }

  lemma {:induction false} BodiesPrefix(segs: seq<Segment>, from: nat, index: nat, articles: Articles)
    requires from <= index <= |segs|
    ensures Bodies(segs[from..index], articles) <= Bodies(segs[from..], articles)
    decreases |segs| - index
  {
    if index == |segs| {
      assert segs[from..index] == segs[from..];
    } else {
      BodiesSnoc(segs, from, index, articles);
      BodiesPrefix(segs, from, index + 1, articles);
    }
  }

  lemma {:induction false} ConcatPrefix(chunks: seq<Buffer>, k: nat)
    requires k <= |chunks|
    ensures Concat(chunks[..k]) <= Concat(chunks)
  {
    ConcatAppend(chunks[..k], chunks[k..]);
    assert chunks == chunks[..k] + chunks[k..];
  }

  /** What the nested loop of `readDirectMountedRange` keeps true while chunks come in. */
  ghost predicate Collecting(buffers: seq<Buffer>, total: int, discard: int, seen: Buffer, skip: nat, target: nat) {
    total == |Concat(buffers)| <= target && 0 <= discard && Collected(Concat(buffers), discard, seen, skip, target)
  }

  lemma CollectDrops(buffers: seq<Buffer>, total: int, discard: int, seen: Buffer, skip: nat, target: nat, chunk: Buffer)
    requires Collecting(buffers, total, discard, seen, skip, target) && |chunk| <= discard
    ensures Collecting(buffers, total, discard - |chunk|, seen + chunk, skip, target)
  {
    hide Collected, Concat;
    DropChunk(Concat(buffers), discard, seen, skip, target, chunk);
  }

  lemma CollectKeeps(buffers: seq<Buffer>, total: int, discard: int, seen: Buffer, skip: nat, target: nat, chunk: Buffer)
    requires Collecting(buffers, total, discard, seen, skip, target) && 0 <= discard <= |chunk| && total <= target
    ensures var kept := Kept(chunk, discard, target - total);
      if |kept| == 0 then Collecting(buffers, total, 0, seen + chunk, skip, target)
      else Collecting(buffers + [kept], total + |kept|, 0, seen + chunk, skip, target)
  {
    hide Collected, Concat, Kept;
    KeepChunk(Concat(buffers), discard, seen, skip, target, chunk);
    ConcatSnoc(buffers, Kept(chunk, discard, target - total));
  }

  lemma CollectCounts(buffers: seq<Buffer>, total: int, discard: int, seen: Buffer, skip: nat, target: nat)
    requires Collecting(buffers, total, discard, seen, skip, target)
    ensures total <= target && 0 <= discard
  {
  }

  /** Its inner loop: the chunks of one article. */
  method CollectChunks(
    chunks: seq<Buffer>, before: seq<Buffer>, totalBefore: int, discardBefore: int, target: nat, ghost seen: Buffer, ghost skip: nat)
    returns (buffers: seq<Buffer>, total: int, discard: int, stopped: bool, ghost at: nat)
    requires Collecting(before, totalBefore, discardBefore, seen, skip, target) && totalBefore < target
    ensures at <= |chunks| && (total < target ==> at == |chunks|)
    ensures stopped <==> total >= target
    ensures Collecting(buffers, total, discard, seen + Concat(chunks[..at]), skip, target)
  {
    hide Collecting, Concat;
    buffers, total, discard, stopped := before, totalBefore, discardBefore, false;
    at := 0;
    ghost var got := seen;
    var next := 0;
    NothingArrived(seen, chunks);
    while next < |chunks|
      invariant next <= |chunks| && at == next && got == seen + Concat(chunks[..next])
      invariant Collecting(buffers, total, discard, got, skip, target) && total < target && !stopped
    {
      var buffer := chunks[next];
      CollectCounts(buffers, total, discard, got, skip, target);
      if |buffer| <= discard {
        CollectDrops(buffers, total, discard, got, skip, target, buffer);
      }
      if discard <= |buffer| {
        CollectKeeps(buffers, total, discard, got, skip, target, buffer);
      }
      ArrivedSnoc(seen, chunks, next);
      got := got + buffer;
      next := next + 1;
      at := next;
      if discard > 0 {
        if |buffer| <= discard {
          discard := discard - |buffer|;
          continue;
        }
        buffer := buffer[discard..];
        discard := 0;
      }
      if |buffer| > target - total {
        buffer := buffer[..target - total];
      }
      if |buffer| == 0 {
        continue;
      }
      buffers := buffers + [buffer];
      total := total + |buffer|;
      if total >= target {
        stopped := true;
        break;
      }
    }
  }

  lemma NothingArrived(seen: Buffer, chunks: seq<Buffer>)
    ensures seen + Concat(chunks[..0]) == seen
  {
  }

  lemma ArrivedSnoc(seen: Buffer, chunks: seq<Buffer>, at: nat)
    requires at < |chunks|
    ensures seen + Concat(chunks[..at + 1]) == (seen + Concat(chunks[..at])) + chunks[at]
  {
    assert chunks[..at + 1] == chunks[..at] + [chunks[at]];
    ConcatSnoc(chunks[..at], chunks[at]);
  }

  /** `supply` are bodies the cache may answer for the segments from `first` on, in order. */
  ghost predicate Supplied(refs: set<ArticleRef>, articles: Articles, segs: seq<Segment>, first: nat, supply: seq<Buffer>) {
    && first + |supply| <= |segs|
    && forall j | 0 <= j < |supply| :: Serves(refs, articles, RefOf(segs[first + j]).Key(), supply[j])
  }

  /** They give what is wanted, or there are no more. */
  ghost predicate Suffices(segs: seq<Segment>, first: nat, supply: seq<Buffer>, skip: nat, target: nat) {
    first + |supply| >= |segs| || |Concat(supply)| >= skip + target
  }

  lemma {:induction false} SupplySnoc(
    refs: set<ArticleRef>, articles: Articles, segs: seq<Segment>, first: nat, supply: seq<Buffer>, body: Buffer)
    requires Supplied(refs, articles, segs, first, supply) && first + |supply| < |segs|
    requires Serves(refs, articles, RefOf(segs[first + |supply|]).Key(), body)
    ensures Supplied(refs, articles, segs, first, supply + [body])
    ensures Concat(supply + [body]) == Concat(supply) + body
  {
    hide Serves;
    ConcatSnoc(supply, body);
  }

  /** Where nobody shares keys, the supply is the segments' own articles. */
  lemma {:induction false} SoleSupply(
    refs: set<ArticleRef>, articles: Articles, segs: seq<Segment>, first: nat, supply: seq<Buffer>, n: nat)
    requires Supplied(refs, articles, segs, first, supply) && SoleUsers(refs, segs) && n <= |supply|
    ensures Concat(supply[..n]) == Bodies(segs[first..first + n], articles)
  {
    hide Serves, SoleUser;
    if n == 0 {
      assert segs[first..first + n] == [];
    } else {
      SoleSupply(refs, articles, segs, first, supply, n - 1);
      SoleUserIsServed(refs, articles, RefOf(segs[first + (n - 1)]), supply[n - 1]);
      assert supply[..n] == supply[..n - 1] + [supply[n - 1]];
      ConcatSnoc(supply[..n - 1], supply[n - 1]);
      BodiesSnoc(segs, first, first + (n - 1), articles);
    }
  }

  lemma SoleSupplyReads(
    refs: set<ArticleRef>, articles: Articles, segs: seq<Segment>, first: nat, supply: seq<Buffer>, skip: nat, target: nat)
    requires Supplied(refs, articles, segs, first, supply) && SoleUsers(refs, segs)
    requires Suffices(segs, first, supply, skip, target)
    ensures Slice(Concat(supply), skip, target) == Slice(Bodies(segs[first..], articles), skip, target)
  {
    hide Serves, SoleUsers, Supplied, Bodies, Concat;
    SupplyFits(refs, articles, segs, first, supply);
    SoleSupply(refs, articles, segs, first, supply, |supply|);
    assert supply[..|supply|] == supply;
    BodiesPrefix(segs, first, first + |supply|, articles);
    assert first + |supply| == |segs| ==> segs[first..first + |supply|] == segs[first..];
    var seen, all := Concat(supply), Bodies(segs[first..], articles);
    assert seen == all[..|seen|];
  }

  lemma SupplyFits(refs: set<ArticleRef>, articles: Articles, segs: seq<Segment>, first: nat, supply: seq<Buffer>)
    requires Supplied(refs, articles, segs, first, supply)
    ensures first + |supply| <= |segs|
  {
  }

  /**
   The nested loop of `readDirectMountedRange`: starting at article `first`, drop
   `skip` bytes, keep the next `target`, and stop. However the articles are cut
   into chunks, the outcome is that slice of what the cache supplies, laid end to end.
   It stops asking in the middle of an article's stream, and so abandons a fetch it leads
   there, exactly when it gets all it wants.
   */
  method CollectRange(segs: seq<Segment>, cache: ArticleCache, first: nat, skip: nat, target: nat)
    returns (out: Buffer, stopped: bool, ghost supply: seq<Buffer>)
    requires cache.Valid() && AllAsked(cache.refs, segs) && first < |segs| && target > 0
    modifies cache
    ensures cache.Valid()
    ensures Supplied(cache.refs, cache.articles, segs, first, supply) && Suffices(segs, first, supply, skip, target)
    ensures out == Slice(Concat(supply), skip, target)
    ensures stopped <==> |out| == target
  {
    hide Slice, Collected, Concat, Supplied, Serves, SoleUser, ArticleCache.Valid;
    var buffers: seq<Buffer> := [];
    var total := 0;
    var discard := skip;
    stopped := false;
    ghost var seen: Buffer := [];
    supply := [];
    CollectNothing(cache.refs, cache.articles, segs, first, skip, target);
    var index := first;
    while index < |segs| && total < target
      invariant stopped <==> total >= target
      invariant first <= index <= |segs| && index == first + |supply| && cache.Valid()
      invariant Collecting(buffers, total, discard, seen, skip, target)
      invariant Supplied(cache.refs, cache.articles, segs, first, supply)
      invariant seen <= Concat(supply)
      invariant total < target ==> seen == Concat(supply)
    {
      var chunks := cache.StreamSegment(RefOf(segs[index]));
      ghost var at: nat;
      buffers, total, discard, stopped, at := CollectChunks(chunks, buffers, total, discard, target, seen, skip);
      assert at == |chunks| ==> chunks[..at] == chunks;
      ConcatPrefix(chunks, at);
      SupplySnoc(cache.refs, cache.articles, segs, first, supply, Concat(chunks));
      PrefixOfConcat(seen, Concat(chunks[..at]), Concat(chunks));
      supply := supply + [Concat(chunks)];
      seen := seen + Concat(chunks[..at]);
      index := index + 1;
    }
    out := Concat(buffers);
    CollectedEnds(buffers, total, discard, seen, skip, target, Concat(supply));
  }

  lemma PrefixOfConcat(before: Buffer, part: Buffer, body: Buffer)
    requires part <= body
    ensures before + part <= before + body
  {
    assert before + part == (before + body)[..|before| + |part|];
  }

  lemma CollectNothing(refs: set<ArticleRef>, articles: Articles, segs: seq<Segment>, first: nat, skip: nat, target: nat)
    requires first <= |segs|
    ensures Collected([], skip, [], skip, target) && Concat([]) == []
    ensures Supplied(refs, articles, segs, first, [])
  {
  }

  lemma CollectedEnds(
    buffers: seq<Buffer>, total: int, discard: int, seen: Buffer, skip: nat, target: nat, all: Buffer)
    requires Collecting(buffers, total, discard, seen, skip, target) && seen <= all
    requires target > 0 && (total >= target || seen == all)
    ensures Concat(buffers) == Slice(all, skip, target) && |Concat(buffers)| == total <= target
    ensures total >= target ==> |all| >= skip + target
  {
    hide Concat;
    CollectedEnough(Concat(buffers), discard, seen, skip, target, all);
  }

  // ---------------------------------------------------------------------------
  // readDirectMountedRange and streamDirectMountedRanges

  datatype ReadResult = Ok(bytes: Buffer) | UnableToLocate

  /** `content` is the articles laid end to end, article i starting at `starts[i]`. */
  ghost predicate Faithful(starts: seq<int>, segs: seq<Segment>, articles: Articles, content: Buffer) {
    && |starts| == |segs| + 1 && starts[0] == 0 && starts[|segs|] == |content|
    && forall i | 0 <= i < |segs| :: BodyBetween(starts[i], starts[i + 1], articles(segs[i].articleId), content)
  }

  ghost predicate BodyBetween(from: int, to: int, body: Buffer, content: Buffer) {
    0 <= from <= to <= |content| && body == content[from..to]
  }

  /**
   The walk from the manifest's guess reaches the article that holds `offset`, or
   the guess is an article whose start the manifest has right.
   */
  ghost predicate FindsStart(starts: seq<int>, segs: seq<Segment>, offset: int)
    requires |starts| == |segs| + 1
  {
    exists e, k | IsEstimate(segs, offset, e) && TrulyAt(starts, offset, k) ::
      -64 < k - e < 64 || segs[e].start == starts[e]
  }

  /** Everything the direct readers rely on at one offset. */
  ghost predicate Locatable(
    starts: seq<int>, segs: seq<Segment>, infos: seq<Option<PartInfo>>, articles: Articles, content: Buffer, offset: int)
    requires |infos| == |segs|
  {
    && Ordered(segs)
    && TrueStarts(starts, segs, infos)
    && Faithful(starts, segs, articles, content)
    && FindsStart(starts, segs, offset)
  }

  lemma {:induction false} BodiesAreContent(starts: seq<int>, segs: seq<Segment>, articles: Articles, content: Buffer, k: nat)
    requires Faithful(starts, segs, articles, content) && k <= |segs|
    ensures 0 <= starts[k] <= |content| && Bodies(segs[k..], articles) == content[starts[k]..]
    decreases |segs| - k
  {
    if k < |segs| {
      BodiesAreContent(starts, segs, articles, content, k + 1);
      assert segs[k..][0] == segs[k] && segs[k..][1..] == segs[k + 1..];
      assert content[starts[k]..starts[k + 1]] + content[starts[k + 1]..] == content[starts[k]..];
    }
  }

  /** What a direct read answers: the articles from the located one on, without the bytes before `start`. */
  ghost function DirectRead(
    segs: seq<Segment>, infos: seq<Option<PartInfo>>, size: int, start: nat, length: int, articles: Articles): ReadResult
    requires |infos| == |segs|
  {
    if length <= 0 || start >= size then Ok([])
    else
      match Locate(segs, infos, start)
      case NotLocated => UnableToLocate
      case Located(index, bounds) =>
        Ok(Slice(Bodies(segs[index..], articles), start - bounds.start, Min(length, size - start)))
  }

  lemma BodiesSlice(
    starts: seq<int>, segs: seq<Segment>, articles: Articles, content: Buffer, k: nat, skip: nat, target: nat)
    requires Faithful(starts, segs, articles, content) && k <= |segs|
    ensures 0 <= starts[k] && Slice(Bodies(segs[k..], articles), skip, target) == Slice(content, starts[k] + skip, target)
  {
    BodiesAreContent(starts, segs, articles, content, k);
    SliceOfTail(content, starts[k], skip, target);
  }

  lemma SliceOfTail(content: Buffer, from: nat, offset: nat, target: nat)
    requires from <= |content|
    ensures Slice(content[from..], offset, target) == Slice(content, from + offset, target)
  {
  }

  /** Where reading goes on when the first byte is asked for at `start`, by the guess `e` and the true article `k`. */
  ghost function ReadsFrom(starts: seq<int>, segs: seq<Segment>, start: int, e: int, k: int): int
    requires |starts| == |segs| + 1 && 0 <= e < |segs|
  {
    if -64 < k - e < 64 then start else starts[e] + (start - segs[e].start)
  }

  /**
   What a direct read returns when the part headers are true. Within the walk's reach
   it is the file from `start` on. Beyond it, without any error, it is the file from
   wherever the guessed article puts it: as far past that article's true start as
   `start` is past its announced one.
   */
  lemma DirectReadAnswers(
    starts: seq<int>, segs: seq<Segment>, infos: seq<Option<PartInfo>>, articles: Articles, content: Buffer,
    size: int, start: nat, length: int, e: int, k: int)
    requires |infos| == |segs| && Ordered(segs) && TrueStarts(starts, segs, infos) && Faithful(starts, segs, articles, content)
    requires IsEstimate(segs, start, e) && TrulyAt(starts, start, k) && length > 0 && start < size
    ensures ReadsFrom(starts, segs, start, e, k) >= 0
    ensures DirectRead(segs, infos, size, start, length, articles)
         == Ok(Slice(content, ReadsFrom(starts, segs, start, e, k), Min(length, size - start)))
  {
    hide TrueStarts, Ordered, Faithful, Slice, Bodies, Locate;
    LocateAnswers(starts, segs, infos, start, e, k);
    var located := if -64 < k - e < 64 then k else e;
    var skip := if located == k then start - starts[k] else start - segs[e].start;
    BodiesSlice(starts, segs, articles, content, located, skip, Min(length, size - start));
  }

  /** Reading from the located article on is reading the file. */
  lemma DirectReadIsContent(
    starts: seq<int>, segs: seq<Segment>, infos: seq<Option<PartInfo>>, articles: Articles, content: Buffer,
    size: int, start: nat, length: int)
    requires |infos| == |segs| && Locatable(starts, segs, infos, articles, content, start)
    ensures DirectRead(segs, infos, size, start, length, articles) == Ok(WindowOf(content, size, start, length))
  {
    assert |starts| == |segs| + 1;
    hide TrueStarts, Ordered, Faithful, Slice;
    if length > 0 && start < size {
      var e, k :| IsEstimate(segs, start, e) && TrulyAt(starts, start, k)
               && (-64 < k - e < 64 || segs[e].start == starts[e]);
      DirectReadAnswers(starts, segs, infos, articles, content, size, start, length, e, k);
    }
  }

  /** The same with whatever the cache supplies for the segments from the located one on. */
  ghost function DirectReadFrom(
    segs: seq<Segment>, infos: seq<Option<PartInfo>>, size: int, start: nat, length: int, supply: seq<Buffer>): ReadResult
    requires |infos| == |segs|
  {
    if length <= 0 || start >= size then Ok([])
    else
      match Locate(segs, infos, start)
      case NotLocated => UnableToLocate
      case Located(_, bounds) => Ok(Slice(Concat(supply), start - bounds.start, Min(length, size - start)))
  }

  /** The cache may supply this, and it is enough for the read. */
  ghost predicate SuppliesRead(
    refs: set<ArticleRef>, articles: Articles, segs: seq<Segment>, infos: seq<Option<PartInfo>>,
    size: int, start: nat, length: int, supply: seq<Buffer>)
    requires |infos| == |segs|
  {
    length > 0 && start < size ==>
      match Locate(segs, infos, start)
      case NotLocated => true
      case Located(index, bounds) =>
        && Supplied(refs, articles, segs, index, supply)
        && Suffices(segs, index, supply, start - bounds.start, Min(length, size - start))
  }

  /** Where nobody shares keys, that is the direct read of the articles. */
  lemma SoleReadIsDirect(
    refs: set<ArticleRef>, articles: Articles, segs: seq<Segment>, infos: seq<Option<PartInfo>>,
    size: int, start: nat, length: int, supply: seq<Buffer>)
    requires |infos| == |segs| && SoleUsers(refs, segs)
    requires SuppliesRead(refs, articles, segs, infos, size, start, length, supply)
    ensures DirectReadFrom(segs, infos, size, start, length, supply) == DirectRead(segs, infos, size, start, length, articles)
  {
    hide Supplied, Suffices, SoleUsers, Slice, Locate, Bodies, Concat;
    if length > 0 && start < size {
      match Locate(segs, infos, start)
      case NotLocated =>
      case Located(index, bounds) =>
        SoleSupplyReads(refs, articles, segs, index, supply, start - bounds.start, Min(length, size - start));
    }
  }

  /**
   Reads a window straight from the articles, however they arrive and wherever the cache
   has them from. It fails only when the manifest knows no segment for the first byte.
   Where segments do not share their keys it is the direct read of their articles, and
   once the first byte's article is located the window is exact.
   */
  method ReadDirectMountedRange(
    segs: seq<Segment>, infos: seq<Option<PartInfo>>, size: int, start: nat, length: int,
    cache: ArticleCache, ghost starts: seq<int>, ghost content: Buffer)
    returns (r: ReadResult, ghost supply: seq<Buffer>)
    requires |infos| == |segs| && cache.Valid() && AllAsked(cache.refs, segs)
    modifies cache
    ensures cache.Valid()
    ensures length <= 0 || start >= size ==> r == Ok([])
    ensures Ordered(segs) ==>
      && SuppliesRead(cache.refs, cache.articles, segs, infos, size, start, length, supply)
      && r == DirectReadFrom(segs, infos, size, start, length, supply)
    ensures length > 0 && start < size && Ordered(segs) ==>
      (r.UnableToLocate? <==> forall e :: !IsEstimate(segs, start, e))
    ensures Ordered(segs) && SoleUsers(cache.refs, segs) ==>
      r == DirectRead(segs, infos, size, start, length, cache.articles)
    ensures SoleUsers(cache.refs, segs) && Locatable(starts, segs, infos, cache.articles, content, start) ==>
      r == Ok(WindowOf(content, size, start, length))
  {
    hide Locatable, Slice, Bodies, TrueStarts, Ordered, Locate, Supplied, Suffices, SoleUsers, AllAsked, Concat;
    hide ArticleCache.Valid, DirectRead;
    supply := [];
    if length <= 0 || start >= size {
      NoRead(segs, infos, size, start, length, cache.articles);
      return Ok([]), [];
    }
    if Locatable(starts, segs, infos, cache.articles, content, start) {
      LocatableParts(starts, segs, infos, cache.articles, content, start);
      DirectReadIsContent(starts, segs, infos, cache.articles, content, size, start, length);
    }
    var targetLength := Min(length, size - start);
    var found := FindDirectSegmentByOffsetExact(segs, infos, start, starts);
    if found.NotLocated? {
      r := UnableToLocate;
    } else {
      var out, stopped;
      out, stopped, supply := CollectRange(segs, cache, found.index, start - found.bounds.start, targetLength);
      r := Ok(out);
    }
    if Ordered(segs) && SoleUsers(cache.refs, segs) {
      SoleReadIsDirect(cache.refs, cache.articles, segs, infos, size, start, length, supply);
    }
  }

  lemma NoRead(segs: seq<Segment>, infos: seq<Option<PartInfo>>, size: int, start: nat, length: int, articles: Articles)
    requires |infos| == |segs| && (length <= 0 || start >= size)
    ensures DirectRead(segs, infos, size, start, length, articles) == Ok([])
  {
  }

  lemma LocatableParts(
    starts: seq<int>, segs: seq<Segment>, infos: seq<Option<PartInfo>>, articles: Articles, content: Buffer, offset: int)
    requires |infos| == |segs| && Locatable(starts, segs, infos, articles, content, offset)
    ensures Ordered(segs) && TrueStarts(starts, segs, infos)
  {
  }

  /** The offsets a stream reports after each chunk it hands out. */
  ghost predicate Progress(offsets: seq<int>, yielded: seq<Buffer>, start: int) {
    |offsets| == |yielded| && forall i | 0 <= i < |offsets| :: offsets[i] == start + |Concat(yielded[..i + 1])|
  }

  /** Everything a stream keeps true while chunks come in. */
  ghost predicate Streaming(
    yielded: seq<Buffer>, offsets: seq<int>, bytesSent: int, remaining: int, discard: int,
    seen: Buffer, start: int, skip: nat, target: nat)
  {
    && bytesSent == |Concat(yielded)| && bytesSent + remaining == target && 0 <= remaining && 0 <= discard
    && (forall i | 0 <= i < |yielded| :: yielded[i] != [])
    && Progress(offsets, yielded, start)
    && Collected(Concat(yielded), discard, seen, skip, target)
  }

  lemma StreamStarts(start: int, skip: nat, target: nat)
    ensures Streaming([], [], 0, target, skip, [], start, skip, target)
  {
    ProgressAtStart(start);
  }

  /** A chunk that is discarded whole. */
  lemma StreamDrops(
    yielded: seq<Buffer>, offsets: seq<int>, bytesSent: int, remaining: int, discard: int,
    seen: Buffer, start: int, skip: nat, target: nat, chunk: Buffer)
    requires Streaming(yielded, offsets, bytesSent, remaining, discard, seen, start, skip, target) && |chunk| <= discard
    ensures Streaming(yielded, offsets, bytesSent, remaining, discard - |chunk|, seen + chunk, start, skip, target)
  {
    hide Collected, Progress, Concat;
    DropChunk(Concat(yielded), discard, seen, skip, target, chunk);
  }

  /** A chunk whose rest is handed out, or is empty. */
  lemma StreamKeeps(
    yielded: seq<Buffer>, offsets: seq<int>, bytesSent: int, remaining: int, discard: int,
    seen: Buffer, start: int, skip: nat, target: nat, chunk: Buffer)
    requires Streaming(yielded, offsets, bytesSent, remaining, discard, seen, start, skip, target) && 0 <= discard <= |chunk|
    requires 0 <= remaining
    ensures var kept := Kept(chunk, discard, remaining);
      if |kept| == 0 then Streaming(yielded, offsets, bytesSent, remaining, 0, seen + chunk, start, skip, target)
      else
        var sent := bytesSent + |kept|;
        Streaming(yielded + [kept], offsets + [start + sent], sent, remaining - |kept|, 0, seen + chunk, start, skip, target)
  {
    hide Collected, Progress, Concat, Kept;
    KeepChunk(Concat(yielded), discard, seen, skip, target, chunk);
    var kept := Kept(chunk, discard, remaining);
    ConcatSnoc(yielded, kept);
    ProgressSnoc(offsets, yielded, start, kept);
  }

  /** The inner loop of the stream: the chunks of one article. */
  method StreamChunks(
    chunks: seq<Buffer>, start: int, before: seq<Buffer>, offsetsBefore: seq<int>, sentBefore: int, remainingBefore: int,
    discardBefore: int, ghost seen: Buffer, ghost skip: nat, ghost target: nat)
    returns (yielded: seq<Buffer>, currentOffsets: seq<int>, bytesSent: int, remaining: int, discard: int, ghost at: nat)
    requires Streaming(before, offsetsBefore, sentBefore, remainingBefore, discardBefore, seen, start, skip, target)
    ensures at <= |chunks| && (remaining > 0 ==> at == |chunks|)
    ensures Streaming(yielded, currentOffsets, bytesSent, remaining, discard, seen + Concat(chunks[..at]), start, skip, target)
  {
    hide Collected, Progress, Concat, Streaming;
    yielded, currentOffsets, bytesSent, remaining, discard := before, offsetsBefore, sentBefore, remainingBefore, discardBefore;
    at := 0;
    ghost var got := seen;
    var next := 0;
    NothingArrived(seen, chunks);
    while next < |chunks|
      invariant next <= |chunks| && at == next && got == seen + Concat(chunks[..next])
      invariant Streaming(yielded, currentOffsets, bytesSent, remaining, discard, got, start, skip, target)
    {
      var buffer := chunks[next];
      StreamCounts(yielded, currentOffsets, bytesSent, remaining, discard, got, start, skip, target);
      if |buffer| <= discard {
        StreamDrops(yielded, currentOffsets, bytesSent, remaining, discard, got, start, skip, target, buffer);
      }
      if discard <= |buffer| {
        StreamKeeps(yielded, currentOffsets, bytesSent, remaining, discard, got, start, skip, target, buffer);
      }
      ArrivedSnoc(seen, chunks, next);
      got := got + buffer;
      next := next + 1;
      at := next;
      if discard > 0 {
        if |buffer| <= discard {
          discard := discard - |buffer|;
          continue;
        }
        buffer := buffer[discard..];
        discard := 0;
      }
      if |buffer| > remaining {
        buffer := buffer[..remaining];
      }
      if |buffer| == 0 {
        continue;
      }
      bytesSent := bytesSent + |buffer|;
      remaining := remaining - |buffer|;
      yielded := yielded + [buffer];
      currentOffsets := currentOffsets + [start + bytesSent];
      if remaining <= 0 {
        break;
      }
    }
  }

  lemma StreamCounts(
    yielded: seq<Buffer>, offsets: seq<int>, bytesSent: int, remaining: int, discard: int,
    seen: Buffer, start: int, skip: nat, target: nat)
    requires Streaming(yielded, offsets, bytesSent, remaining, discard, seen, start, skip, target)
    ensures 0 <= remaining && 0 <= discard
  {
  }

  /**
   The streaming twin: it hands out the same bytes as non-empty chunks, reports the
   position behind each one, and what it sent plus what remains is always
   the requested length.
   */
  method StreamDirectMountedRanges(
    segs: seq<Segment>, infos: seq<Option<PartInfo>>, start: nat, end: int,
    cache: ArticleCache, ghost starts: seq<int>, ghost content: Buffer)
    returns (located: bool, yielded: seq<Buffer>, currentOffsets: seq<int>, bytesSent: int, remaining: int, ghost supply: seq<Buffer>)
    requires |infos| == |segs| && cache.Valid() && AllAsked(cache.refs, segs)
    requires start <= end
    modifies cache
    ensures cache.Valid()
    ensures bytesSent + remaining == end - start + 1 && bytesSent == |Concat(yielded)|
    ensures forall i | 0 <= i < |yielded| :: yielded[i] != []
    ensures Progress(currentOffsets, yielded, start)
    ensures Ordered(segs) ==>
      && SuppliesRead(cache.refs, cache.articles, segs, infos, end + 1, start, end - start + 1, supply)
      && DirectReadFrom(segs, infos, end + 1, start, end - start + 1, supply)
         == if located then Ok(Concat(yielded)) else UnableToLocate
    ensures Ordered(segs) ==> (located <==> exists e :: IsEstimate(segs, start, e))
    ensures Ordered(segs) && SoleUsers(cache.refs, segs) ==>
      DirectRead(segs, infos, end + 1, start, end - start + 1, cache.articles)
      == if located then Ok(Concat(yielded)) else UnableToLocate
    ensures SoleUsers(cache.refs, segs) && Locatable(starts, segs, infos, cache.articles, content, start) ==>
      located && Concat(yielded) == Slice(content, start, end - start + 1)
  {
    hide Locatable, Slice, Bodies, TrueStarts, Ordered, Concat, Locate, Progress, Streaming, Collected;
    hide Supplied, Suffices, SoleUsers, AllAsked, ArticleCache.Valid, DirectRead;
    ghost var refs, articles, size, length := cache.refs, cache.articles, end + 1, end - start + 1;
    if Locatable(starts, segs, infos, articles, content, start) {
      LocatableParts(starts, segs, infos, articles, content, start);
      DirectReadIsContent(starts, segs, infos, articles, content, size, start, length);
    }
    var found := FindDirectSegmentByOffsetExact(segs, infos, start, starts);
    located := found.Located?;
    supply := [];
    if located {
      yielded, currentOffsets, bytesSent, remaining, supply :=
        StreamFrom(segs, cache, found.index, start - found.bounds.start, start, end - start + 1);
    } else {
      yielded, currentOffsets, bytesSent, remaining := [], [], 0, end - start + 1;
      ProgressAtStart(start);
    }
    if Ordered(segs) && SoleUsers(refs, segs) {
      SoleReadIsDirect(refs, articles, segs, infos, size, start, length, supply);
    }
  }

  /** The stream's nested loop. */
  method StreamFrom(segs: seq<Segment>, cache: ArticleCache, first: nat, skip: nat, start: int, target: nat)
    returns (yielded: seq<Buffer>, currentOffsets: seq<int>, bytesSent: int, remaining: int, ghost supply: seq<Buffer>)
    requires cache.Valid() && AllAsked(cache.refs, segs) && first < |segs| && target > 0
    modifies cache
    ensures cache.Valid()
    ensures bytesSent + remaining == target && bytesSent == |Concat(yielded)|
    ensures forall i | 0 <= i < |yielded| :: yielded[i] != []
    ensures Progress(currentOffsets, yielded, start)
    ensures Supplied(cache.refs, cache.articles, segs, first, supply) && Suffices(segs, first, supply, skip, target)
    ensures Concat(yielded) == Slice(Concat(supply), skip, target)
  {
    hide Slice, Collected, Concat, Supplied, Serves, SoleUser, Progress, Streaming, ArticleCache.Valid;
    StreamStarts(start, skip, target);
    yielded, currentOffsets, bytesSent, remaining := [], [], 0, target;
    ghost var seen: Buffer := [];
    supply := [];
    CollectNothing(cache.refs, cache.articles, segs, first, skip, target);
    var discard := skip;
    var index := first;
    while index < |segs| && remaining > 0
      invariant first <= index <= |segs| && index == first + |supply| && cache.Valid()
      invariant Streaming(yielded, currentOffsets, bytesSent, remaining, discard, seen, start, skip, target)
      invariant Supplied(cache.refs, cache.articles, segs, first, supply)
      invariant seen <= Concat(supply)
      invariant remaining > 0 ==> seen == Concat(supply)
    {
      var chunks := cache.StreamSegment(RefOf(segs[index]));
      ghost var at: nat;
      yielded, currentOffsets, bytesSent, remaining, discard, at :=
        StreamChunks(chunks, start, yielded, currentOffsets, bytesSent, remaining, discard, seen, skip, target);
      assert at == |chunks| ==> chunks[..at] == chunks;
      ConcatPrefix(chunks, at);
      SupplySnoc(cache.refs, cache.articles, segs, first, supply, Concat(chunks));
      PrefixOfConcat(seen, Concat(chunks[..at]), Concat(chunks));
      supply := supply + [Concat(chunks)];
      seen := seen + Concat(chunks[..at]);
      index := index + 1;
    }
    StreamCounts(yielded, currentOffsets, bytesSent, remaining, discard, seen, start, skip, target);
    StreamEnds(yielded, currentOffsets, bytesSent, remaining, discard, seen, start, skip, target, Concat(supply));
  }

  lemma StreamEnds(
    yielded: seq<Buffer>, offsets: seq<int>, bytesSent: int, remaining: int, discard: int,
    seen: Buffer, start: int, skip: nat, target: nat, all: Buffer)
    requires Streaming(yielded, offsets, bytesSent, remaining, discard, seen, start, skip, target) && seen <= all
    requires target > 0 && (remaining == 0 || seen == all)
    ensures bytesSent + remaining == target && bytesSent == |Concat(yielded)| && remaining >= 0
    ensures forall i | 0 <= i < |yielded| :: yielded[i] != []
    ensures Progress(offsets, yielded, start)
    ensures Concat(yielded) == Slice(all, skip, target)
    ensures remaining == 0 ==> |all| >= skip + target
  {
    hide Progress, Concat;
    CollectedEnough(Concat(yielded), discard, seen, skip, target, all);
  }

  lemma ProgressAtStart(start: int)
    ensures Progress([], [], start) && Concat([]) == []
  {
  }

  lemma ProgressSnoc(offsets: seq<int>, yielded: seq<Buffer>, start: int, buffer: Buffer)
    requires Progress(offsets, yielded, start)
    ensures Progress(offsets + [start + |Concat(yielded)| + |buffer|], yielded + [buffer], start)
  {
    ConcatSnoc(yielded, buffer);
    var all := yielded + [buffer];
    var reported := offsets + [start + |Concat(yielded)| + |buffer|];
    forall i | 0 <= i < |all|
      ensures reported[i] == start + |Concat(all[..i + 1])|
    {
      assert i < |yielded| ==> all[..i + 1] == yielded[..i + 1];
      assert i == |yielded| ==> all[..i + 1] == all;
    }
  }
}
