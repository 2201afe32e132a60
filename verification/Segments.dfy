/**
 The sorted segment manifest of a virtual file: which article, and which part
 of that article, holds which bytes. `FindSegmentIndex` is the binary search of
 src/services/streaming/streamHelpers.ts; `ShrinkManifestSegment` is the in-place
 correction of src/services/mountedStream.service.ts.
 */
module Segments {
  import opened Bytes

  /** Inclusive bounds [start, end]; `end == start - 1` is an empty segment. */
  datatype Segment = Segment(
    fileId: string,
    articleId: string,
    number: int,
    bytes: int,
    start: int,
    end: int,
    sourceOffset: nat)
  {
    function Length(): int {
      end - start + 1
    }

    predicate Covers(offset: int) {
      start <= offset <= end
    }
  }

  const BY_START := (s: Segment) => s.start

  // ---------------------------------------------------------------------------
  // Tilings

  /** No segment reaches into a later one. */
  ghost predicate Ordered(segs: seq<Segment>) {
    && (forall i | 0 <= i < |segs| :: segs[i].start <= segs[i].end + 1)
    && (forall i, j | 0 <= i < j < |segs| :: segs[i].end < segs[j].start)
  }

  /** The segments follow each other without gap or overlap from `from` up to `to`. */
  ghost predicate Contiguous(segs: seq<Segment>, from: int, to: int) {
    && (segs == [] ==> from == to)
    && (segs != [] ==> segs[0].start == from && segs[|segs| - 1].end + 1 == to)
    && (forall i | 0 <= i < |segs| :: segs[i].start <= segs[i].end + 1)
    && (forall i, j | 0 <= i < j < |segs| && j == i + 1 :: segs[j].start == segs[i].end + 1)
  }

  /** The segment's part of its article is the file's content between its bounds. */
  ghost predicate Holds(s: Segment, articles: Articles, content: Buffer) {
    && 0 <= s.start <= s.end + 1 <= |content|
    && s.bytes == |articles(s.articleId)|
    && s.sourceOffset + s.Length() <= s.bytes
    && articles(s.articleId)[s.sourceOffset..s.sourceOffset + s.Length()] == content[s.start..s.end + 1]
  }

  ghost predicate AllHold(segs: seq<Segment>, articles: Articles, content: Buffer) {
    forall i | 0 <= i < |segs| :: Holds(segs[i], articles, content)
  }

  /** Any piece of a segment, in the article and in the file. */
  lemma HeldPiece(s: Segment, articles: Articles, content: Buffer, from: nat, length: nat)
    requires Holds(s, articles, content) && from + length <= s.Length()
    ensures var at := s.sourceOffset + from;
      && at + length <= |articles(s.articleId)|
      && s.start + from + length <= |content|
      && articles(s.articleId)[at..at + length] == content[s.start + from..s.start + from + length]
  {
    PartOfPart(articles(s.articleId), s.sourceOffset, s.sourceOffset + s.Length(), from, from + length);
    PartOfPart(content, s.start, s.end + 1, from, from + length);
  }

  /** The manifest describes exactly this file. */
  ghost predicate Tiles(segs: seq<Segment>, articles: Articles, content: Buffer) {
    Contiguous(segs, 0, |content|) && AllHold(segs, articles, content)
  }

  /** The step along a contiguous run. */
  lemma ContiguousTail(segs: seq<Segment>, from: int, to: int)
    requires Contiguous(segs, from, to) && segs != []
    ensures Contiguous(segs[1..], segs[0].end + 1, to)
  {
    var rest := segs[1..];
    assert forall i | 0 <= i < |rest| :: rest[i] == segs[i + 1];
    assert rest != [] ==> segs[1].start == segs[0].end + 1;
  }

  lemma {:induction false} ContiguousBounds(segs: seq<Segment>, from: int, to: int)
    requires Contiguous(segs, from, to)
    ensures from <= to
    ensures forall i | 0 <= i < |segs| :: from <= segs[i].start <= segs[i].end + 1 <= to
    ensures Ordered(segs)
  {
    if segs != [] {
      var rest := segs[1..];
      ContiguousTail(segs, from, to);
      ContiguousBounds(rest, segs[0].end + 1, to);
      assert forall i | 1 <= i < |segs| :: segs[i] == rest[i - 1];
    }
  }

  /** What one step along a contiguous run needs. */
  lemma ContiguousHead(segs: seq<Segment>, from: int, to: int)
    requires Contiguous(segs, from, to)
    ensures from <= to && (segs == [] ==> from == to)
    ensures segs != [] ==> from == segs[0].start <= segs[0].end + 1 <= to
    ensures segs != [] ==> Contiguous(segs[1..], segs[0].end + 1, to)
  {
    ContiguousBounds(segs, from, to);
    if segs != [] {
      ContiguousTail(segs, from, to);
    }
  }

  lemma ContiguousAppend(a: seq<Segment>, b: seq<Segment>, from: int, mid: int, to: int)
    requires Contiguous(a, from, mid) && Contiguous(b, mid, to)
    ensures Contiguous(a + b, from, to)
  {
  }

  /** In a contiguous run every offset in range lies in exactly one segment. */
  lemma {:induction false} SomeSegmentCovers(segs: seq<Segment>, from: int, to: int, offset: int) returns (k: nat)
    requires Contiguous(segs, from, to) && from <= offset < to
    ensures k < |segs| && segs[k].Covers(offset)
    ensures forall j | 0 <= j < |segs| && j != k :: !segs[j].Covers(offset)
  {
    ContiguousHead(segs, from, to);
    ContiguousBounds(segs, from, to);
    if segs[0].Covers(offset) {
      k := 0;
    } else {
      var k' := SomeSegmentCovers(segs[1..], segs[0].end + 1, to, offset);
      k := k' + 1;
    }
  }

  // ---------------------------------------------------------------------------
  // Binary search

  /**
   The index returned separates the manifest: everything before it ends before
   `offset`, everything after it starts after `offset`. So if any segment
   covers `offset`, this is the one.
   */
  method FindSegmentIndex(segs: seq<Segment>, offset: int) returns (index: nat)
    ensures segs == [] ==> index == 0
    ensures segs != [] ==> index < |segs|
    ensures Ordered(segs) ==> forall j | 0 <= j < |segs| && j < index :: segs[j].end < offset
    ensures Ordered(segs) ==> forall j | index < j < |segs| :: offset < segs[j].start
  {
    var low, high := 0, |segs| - 1;
    while low <= high
      invariant 0 <= low <= high + 1 <= |segs|
      invariant Ordered(segs) ==> forall j | 0 <= j < low :: segs[j].end < offset
      invariant Ordered(segs) ==> forall j | high < j < |segs| :: offset < segs[j].start
      decreases high - low + 1
    {
      var mid := (low + high) / 2;
      if offset < segs[mid].start {
        high := mid - 1;
      } else if offset > segs[mid].end {
        low := mid + 1;
      } else {
        return mid;
      }
    }
    index := Max(0, Min(low, |segs| - 1));
  }

  // ---------------------------------------------------------------------------
  // Shrinking a segment whose article turned out shorter than announced

  /** A segment moved towards the front by `delta`. */
  function Shifted(s: Segment, delta: int): Segment {
    s.(start := s.start - delta, end := s.end - delta)
  }

  /** The guard under which the source changes anything. */
  predicate Shrinks(s: Segment, actual: int) {
    0 < actual < s.bytes
  }

  function Shrunk(segs: seq<Segment>, index: nat, actual: int): (r: seq<Segment>)
    requires index < |segs|
    ensures |r| == |segs|
  {
    var s := segs[index];
    if Shrinks(s, actual) then
      seq(|segs|, i requires 0 <= i < |segs| =>
        if i < index then segs[i]
        else if i == index then s.(bytes := actual, end := s.start + actual - 1)
        else Shifted(segs[i], s.bytes - actual))
    else
      segs
  }

  method ShrinkManifestSegment(segments: array<Segment>, index: nat, actualBytes: int)
    modifies segments
    ensures segments[..] == if index < segments.Length then Shrunk(old(segments[..]), index, actualBytes) else old(segments[..])
  {
    if index >= segments.Length {
      return;
    }
    var segment := segments[index];
    var safeActualBytes := Max(0, actualBytes);
    if safeActualBytes <= 0 || safeActualBytes >= segment.bytes {
      return;
    }
    var delta := segment.bytes - safeActualBytes;
    segments[index] := segment.(bytes := safeActualBytes, end := segment.start + safeActualBytes - 1);
    var cursor := index + 1;
    while cursor < segments.Length
      invariant index < cursor <= segments.Length
      invariant forall i | 0 <= i < index :: segments[i] == old(segments[i])
      invariant segments[index] == segment.(bytes := safeActualBytes, end := segment.start + safeActualBytes - 1)
      invariant forall i | index < i < cursor :: segments[i] == Shifted(old(segments[i]), delta)
      invariant forall i | cursor <= i < segments.Length :: segments[i] == old(segments[i])
    {
      segments[cursor] := Shifted(segments[cursor], delta);
      cursor := cursor + 1;
    }
  }

  /** A manifest changes exactly for an article that is shorter than announced but not empty. */
  lemma ShrinksIff(segs: seq<Segment>, index: nat, actual: int)
    requires index < |segs|
    ensures Shrunk(segs, index, actual) != segs <==> 0 < actual && actual < segs[index].bytes
  {
    if 0 < actual && actual < segs[index].bytes {
      assert Shrunk(segs, index, actual)[index].bytes == actual;
    }
  }

  /** The element behind a shrunk one keeps touching it exactly when that one spans its article. */
  lemma ShrunkJoint(segs: seq<Segment>, from: int, to: int, index: nat, actual: int)
    requires Contiguous(segs, from, to) && index + 1 < |segs| && Shrinks(segs[index], actual)
    ensures var out := Shrunk(segs, index, actual);
      out[index + 1].start == out[index].end + 1 <==> segs[index].Length() == segs[index].bytes
  {
    assert segs[index + 1].start == segs[index].end + 1;
  }

  /**
   Shrinking a manifest that runs from `from` to `to` leaves it contiguous, and
   shorter by the missing bytes, exactly when the shrunk segment spans its whole
   article. A segment that starts inside its article (an archive entry's first
   one) breaks the chain.
   */
  lemma ShrinkKeepsContiguity(segs: seq<Segment>, from: int, to: int, index: nat, actual: int)
    requires Contiguous(segs, from, to) && index < |segs| && Shrinks(segs[index], actual)
    ensures Contiguous(Shrunk(segs, index, actual), from, to - (segs[index].bytes - actual))
       <==> segs[index].Length() == segs[index].bytes
  {
    var out := Shrunk(segs, index, actual);
    if index + 1 < |segs| {
      ShrunkJoint(segs, from, to, index, actual);
    }
    forall i, j | 0 <= i < j < |out| && j == i + 1 && i != index
      ensures out[j].start == out[i].end + 1
    {
      assert segs[j].start == segs[i].end + 1;
    }
  }
}
