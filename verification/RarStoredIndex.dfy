/**
 Stored RAR sets as virtual files: `buildVirtualSegments`, the regrouping of parts
 in `listStoredArchiveEntries` and `readDecodedRange` of
 src/services/archive/rarStoredIndex.ts. A volume is given by its decoded manifest
 and the packed region its header names.
 */
module RarStoredIndex {
  import opened Bytes
  import opened Segments
  import opened Sorting
  import opened RangeHeader
  import opened RangePlanner
  import opened MountedReaders
  import opened SegmentCache
  import RarHeaders

  /** One volume's contribution to an entry. */
  datatype Volume = Volume(number: int, fileId: string, segs: seq<Segment>, dataStart: nat, packedSize: nat)

  datatype Part = Part(number: int, packedSize: nat, segments: seq<Segment>)

  datatype EntryResult = Entry(size: int, segments: seq<Segment>) | Dropped | DuplicateVolumes | MissingVolumes

  // ---------------------------------------------------------------------------
  // buildVirtualSegments

  /** The part of a volume segment in [dataStart, sourceEnd], moved to its place in the entry. */
  function VirtualSegment(fileId: string, s: Segment, dataStart: nat, sourceEnd: int, entryStart: int): Segment {
    var overlapStart := Max(s.start, dataStart);
    var overlapEnd := Min(s.end, sourceEnd);
    var relativeStart := entryStart + (overlapStart - dataStart);
    Segment(fileId, s.articleId, s.number, s.bytes, relativeStart, relativeStart + (overlapEnd - overlapStart),
            Max(0, overlapStart - s.start))
  }

  function VirtualSegments(fileId: string, segs: seq<Segment>, dataStart: nat, sourceEnd: int, entryStart: int): seq<Segment> {
    if segs == [] then []
    else
      (if Misses(segs[0], dataStart, sourceEnd) then [] else [VirtualSegment(fileId, segs[0], dataStart, sourceEnd, entryStart)])
      + VirtualSegments(fileId, segs[1..], dataStart, sourceEnd, entryStart)
  }

  lemma {:induction false} VirtualAppend(
    fileId: string, a: seq<Segment>, b: seq<Segment>, dataStart: nat, sourceEnd: int, entryStart: int)
    ensures VirtualSegments(fileId, a + b, dataStart, sourceEnd, entryStart)
         == VirtualSegments(fileId, a, dataStart, sourceEnd, entryStart)
            + VirtualSegments(fileId, b, dataStart, sourceEnd, entryStart)
  {
    if a == [] {
      assert a + b == b;
    } else {
      assert (a + b)[1..] == a[1..] + b;
      VirtualAppend(fileId, a[1..], b, dataStart, sourceEnd, entryStart);
    }
  }

  lemma {:induction false} VirtualOfMissed(fileId: string, segs: seq<Segment>, dataStart: nat, sourceEnd: int, entryStart: int)
    requires forall i | 0 <= i < |segs| :: Misses(segs[i], dataStart, sourceEnd)
    ensures VirtualSegments(fileId, segs, dataStart, sourceEnd, entryStart) == []
  {
    if segs != [] {
      VirtualOfMissed(fileId, segs[1..], dataStart, sourceEnd, entryStart);
    }
  }

  lemma VirtualStep(fileId: string, segs: seq<Segment>, index: nat, dataStart: nat, sourceEnd: int, entryStart: int)
    requires index < |segs|
    ensures VirtualSegments(fileId, segs[..index + 1], dataStart, sourceEnd, entryStart)
         == VirtualSegments(fileId, segs[..index], dataStart, sourceEnd, entryStart)
            + if Misses(segs[index], dataStart, sourceEnd) then []
              else [VirtualSegment(fileId, segs[index], dataStart, sourceEnd, entryStart)]
  {
    assert segs[..index + 1] == segs[..index] + [segs[index]];
    VirtualAppend(fileId, segs[..index], [segs[index]], dataStart, sourceEnd, entryStart);
  }

  lemma VirtualRest(fileId: string, segs: seq<Segment>, index: nat, dataStart: nat, sourceEnd: int, entryStart: int)
    requires Ordered(segs) && index <= |segs| && dataStart <= sourceEnd + 1
    requires index < |segs| ==> index > 0 && segs[index - 1].start > sourceEnd
    ensures VirtualSegments(fileId, segs, dataStart, sourceEnd, entryStart)
         == VirtualSegments(fileId, segs[..index], dataStart, sourceEnd, entryStart)
  {
    VirtualOfMissed(fileId, segs[index..], dataStart, sourceEnd, entryStart);
    VirtualAppend(fileId, segs[..index], segs[index..], dataStart, sourceEnd, entryStart);
    assert segs == segs[..index] + segs[index..];
  }

  /** The overlaps of a volume's segments with the packed region, placed at `entryStart`. */
  method BuildVirtualSegments(fileId: string, segs: seq<Segment>, dataStart: nat, byteCount: nat, entryStart: int)
    returns (out: seq<Segment>)
    ensures Ordered(segs) ==> out == VirtualSegments(fileId, segs, dataStart, dataStart + byteCount - 1, entryStart)
  {
    hide VirtualSegments, VirtualSegment, Ordered;
    var sourceEnd := dataStart + byteCount - 1;
    out := [];
    var index := 0;
    VirtualOfMissed(fileId, segs[..0], dataStart, sourceEnd, entryStart);
    while index < |segs|
      invariant index <= |segs|
      invariant out == VirtualSegments(fileId, segs[..index], dataStart, sourceEnd, entryStart)
    {
      var item := segs[index];
      VirtualStep(fileId, segs, index, dataStart, sourceEnd, entryStart);
      index := index + 1;
      if item.end < dataStart {
        continue;
      }
      if item.start > sourceEnd {
        break;
      }
      out := out + [VirtualSegment(fileId, item, dataStart, sourceEnd, entryStart)];
    }
    if Ordered(segs) {
      VirtualRest(fileId, segs, index, dataStart, sourceEnd, entryStart);
    }
  }

  // ---------------------------------------------------------------------------
  // Virtual segments tile the packed region

  /** A decoded manifest starts every article at its first byte. */
  ghost predicate FromArticleStart(segs: seq<Segment>) {
    forall i | 0 <= i < |segs| :: segs[i].sourceOffset == 0
  }

  lemma ContiguousCons(s: Segment, rest: seq<Segment>, to: int)
    requires s.start <= s.end + 1 && Contiguous(rest, s.end + 1, to)
    ensures Contiguous([s] + rest, s.start, to)
  {
  }

  /** From the position `from` on, the virtual segments follow each other up to the region's end. */
  lemma {:induction false} VirtualFrom(
    fileId: string, segs: seq<Segment>, from: int, to: int, dataStart: nat, sourceEnd: int, entryStart: int)
    requires Contiguous(segs, from, to) && dataStart <= sourceEnd + 1 <= to
    ensures Contiguous(
      VirtualSegments(fileId, segs, dataStart, sourceEnd, entryStart),
      entryStart + Min(Max(from, dataStart), sourceEnd + 1) - dataStart,
      entryStart + (sourceEnd + 1 - dataStart))
  {
    hide Contiguous, VirtualSegment;
    ContiguousHead(segs, from, to);
    if segs == [] || sourceEnd < from {
      VirtualBehind(fileId, segs, from, to, dataStart, sourceEnd, entryStart);
    } else {
      var s, rest := segs[0], segs[1..];
      var virtual := VirtualSegments(fileId, rest, dataStart, sourceEnd, entryStart);
      VirtualFrom(fileId, rest, s.end + 1, to, dataStart, sourceEnd, entryStart);
      if s.end < dataStart {
        assert VirtualSegments(fileId, segs, dataStart, sourceEnd, entryStart) == virtual;
      } else {
        VirtualCons(fileId, s, virtual, dataStart, sourceEnd, entryStart, entryStart + (sourceEnd + 1 - dataStart));
      }
    }
  }

  lemma VirtualCons(
    fileId: string, s: Segment, virtual: seq<Segment>, dataStart: nat, sourceEnd: int, entryStart: int, to: int)
    requires s.start <= s.end + 1 && !Misses(s, dataStart, sourceEnd) && dataStart <= sourceEnd + 1
    requires Contiguous(virtual, entryStart + Min(s.end + 1, sourceEnd + 1) - dataStart, to)
    ensures Contiguous([VirtualSegment(fileId, s, dataStart, sourceEnd, entryStart)] + virtual,
                       entryStart + Max(s.start, dataStart) - dataStart, to)
  {
    hide Contiguous;
    ContiguousCons(VirtualSegment(fileId, s, dataStart, sourceEnd, entryStart), virtual, to);
  }

  lemma VirtualBehind(
    fileId: string, segs: seq<Segment>, from: int, to: int, dataStart: nat, sourceEnd: int, entryStart: int)
    requires Contiguous(segs, from, to) && (segs == [] || sourceEnd < from)
    ensures VirtualSegments(fileId, segs, dataStart, sourceEnd, entryStart) == []
    ensures forall at :: Contiguous([], at, at)
  {
    ContiguousBounds(segs, from, to);
    VirtualOfMissed(fileId, segs, dataStart, sourceEnd, entryStart);
  }

  /** The entry shows the volume's packed region from `entryStart` on. */
  ghost predicate Shows(entry: Buffer, entryStart: nat, volume: Buffer, dataStart: nat, packedSize: nat) {
    && dataStart + packedSize <= |volume| && entryStart + packedSize <= |entry|
    && entry[entryStart..entryStart + packedSize] == volume[dataStart..dataStart + packedSize]
  }

  lemma VirtualSegmentHolds(
    fileId: string, s: Segment, dataStart: nat, packedSize: nat, entryStart: nat,
    articles: Articles, volume: Buffer, entry: Buffer)
    requires Holds(s, articles, volume) && s.sourceOffset == 0
    requires Shows(entry, entryStart, volume, dataStart, packedSize)
    requires !Misses(s, dataStart, dataStart + packedSize - 1)
    ensures Holds(VirtualSegment(fileId, s, dataStart, dataStart + packedSize - 1, entryStart), articles, entry)
  {
    hide Holds, VirtualSegment;
    var v := VirtualSegment(fileId, s, dataStart, dataStart + packedSize - 1, entryStart);
    VirtualBounds(fileId, s, articles, volume, dataStart, dataStart + packedSize - 1, entryStart);
    var length, within := v.Length(), v.start - entryStart;
    HeldPiece(s, articles, volume, v.sourceOffset, length);
    PartOfPart(volume, dataStart, dataStart + packedSize, within, within + length);
    PartOfPart(entry, entryStart, entryStart + packedSize, within, within + length);
    HoldsIf(v, articles, entry);
  }

  /** Where a virtual segment lies, in its article, the packed region and the entry. */
  lemma VirtualBounds(
    fileId: string, s: Segment, articles: Articles, volume: Buffer, dataStart: nat, sourceEnd: int, entryStart: nat)
    requires Holds(s, articles, volume) && s.sourceOffset == 0
    requires !Misses(s, dataStart, sourceEnd) && dataStart <= sourceEnd + 1
    ensures var v := VirtualSegment(fileId, s, dataStart, sourceEnd, entryStart);
      && v.articleId == s.articleId && v.bytes == |articles(s.articleId)|
      && 0 <= v.Length() && v.sourceOffset + v.Length() <= s.Length() <= v.bytes
      && v.start - entryStart == s.start + v.sourceOffset - dataStart >= 0
      && v.end + 1 - entryStart <= sourceEnd + 1 - dataStart
  {
  }

  lemma HoldsIf(v: Segment, articles: Articles, entry: Buffer)
    requires 0 <= v.start <= v.end + 1 <= |entry| && v.bytes == |articles(v.articleId)|
    requires v.sourceOffset + v.Length() <= v.bytes
    requires articles(v.articleId)[v.sourceOffset..v.sourceOffset + v.Length()] == entry[v.start..v.end + 1]
    ensures Holds(v, articles, entry)
  {
  }

  lemma {:induction false} VirtualHold(
    fileId: string, segs: seq<Segment>, dataStart: nat, packedSize: nat, entryStart: nat,
    articles: Articles, volume: Buffer, entry: Buffer)
    requires AllHold(segs, articles, volume) && FromArticleStart(segs)
    requires Shows(entry, entryStart, volume, dataStart, packedSize)
    ensures AllHold(VirtualSegments(fileId, segs, dataStart, dataStart + packedSize - 1, entryStart), articles, entry)
  {
    if segs != [] {
      VirtualHold(fileId, segs[1..], dataStart, packedSize, entryStart, articles, volume, entry);
      if !Misses(segs[0], dataStart, dataStart + packedSize - 1) {
        VirtualSegmentHolds(fileId, segs[0], dataStart, packedSize, entryStart, articles, volume, entry);
      }
    }
  }

  // ---------------------------------------------------------------------------
  // Collecting and regrouping the parts

  /** The part a volume gives when `entryStart` bytes have been collected before it. */
  function PartOf(v: Volume, entryStart: int): Part {
    Part(v.number, v.packedSize, VirtualSegments(v.fileId, v.segs, v.dataStart, v.dataStart + v.packedSize - 1, entryStart))
  }

  /** The parts in scan order, each placed behind those scanned before it. */
  function Collect(volumes: seq<Volume>, entryStart: int): (r: seq<Part>)
    ensures |r| == |volumes|
  {
    if volumes == [] then []
    else [PartOf(volumes[0], entryStart)] + Collect(volumes[1..], entryStart + volumes[0].packedSize)
  }

  function ShiftAll(segs: seq<Segment>, delta: int): (r: seq<Segment>)
    ensures |r| == |segs| && forall i | 0 <= i < |r| :: r[i] == Shifted(segs[i], delta)
  {
    seq(|segs|, i requires 0 <= i < |segs| => Shifted(segs[i], delta))
  }

  /** A part's segments, moved so that the first starts at `cursor`. */
  function Rebased(segs: seq<Segment>, cursor: int): seq<Segment> {
    if segs == [] then [] else ShiftAll(segs, segs[0].start - cursor)
  }

  /** The flatMap with its running cursor. */
  function ShiftParts(parts: seq<Part>, cursor: int): seq<Segment> {
    if parts == [] then []
    else Rebased(parts[0].segments, cursor) + ShiftParts(parts[1..], cursor + parts[0].packedSize)
  }

  function TotalPacked(parts: seq<Part>): nat {
    if parts == [] then 0 else parts[0].packedSize + TotalPacked(parts[1..])
  }

  const BY_PART := (p: Part) => p.number
  const BY_VOLUME := (v: Volume) => v.number

  const MAX_MISSING := 16

  /** The known size is missed by more than the tolerance. */
  predicate Incomplete(expectedSize: nat, total: nat) {
    expectedSize > 0 && (total - expectedSize > MAX_MISSING || expectedSize - total > MAX_MISSING)
  }

  /** `expectedSize` is 0 when no header names an unpacked size. */
  function Regroup(parts: seq<Part>, expectedSize: nat): EntryResult {
    if exists i, j :: 0 <= i < j < |parts| && parts[i].number == parts[j].number then DuplicateVolumes
    else
      var sorted := SortBy(parts, BY_PART);
      var total := TotalPacked(sorted);
      if Incomplete(expectedSize, total) then MissingVolumes
      else
        Listed(if expectedSize != 0 then expectedSize else total, SortBy(ShiftParts(sorted, 0), BY_START))
  }

  /** Entries without a size or without segments are not listed. */
  function Listed(size: int, segments: seq<Segment>): EntryResult {
    if size > 0 && |segments| > 0 then Entry(size, segments) else Dropped
  }

  /** The entry an archive set becomes when its volumes are scanned in this order. */
  function EntryOf(volumes: seq<Volume>, expectedSize: nat): EntryResult {
    Regroup(Collect(volumes, 0), expectedSize)
  }

  // ---------------------------------------------------------------------------
  // The scan order does not matter

  /** A part made from the volume, at whatever position it was scanned. */
  ghost predicate IsPartOf(p: Part, v: Volume) {
    exists entryStart :: p == PartOf(v, entryStart)
  }

  /** Equal length, and part i made from volume i. */
  ghost predicate PartsOf(parts: seq<Part>, volumes: seq<Volume>) {
    |parts| == |volumes| && forall i | 0 <= i < |parts| :: IsPartOf(parts[i], volumes[i])
  }

  lemma {:induction false} CollectGivesParts(volumes: seq<Volume>, entryStart: int)
    ensures PartsOf(Collect(volumes, entryStart), volumes)
  {
    if volumes != [] {
      CollectGivesParts(volumes[1..], entryStart + volumes[0].packedSize);
      assert IsPartOf(PartOf(volumes[0], entryStart), volumes[0]);
    }
  }

  lemma {:induction false} InsertGivesParts(p: Part, v: Volume, parts: seq<Part>, volumes: seq<Volume>)
    requires IsPartOf(p, v) && PartsOf(parts, volumes)
    ensures PartsOf(InsertBy(p, parts, BY_PART), InsertBy(v, volumes, BY_VOLUME))
  {
    if parts != [] {
      assert IsPartOf(parts[0], volumes[0]);
      InsertGivesParts(p, v, parts[1..], volumes[1..]);
    }
  }

  /** Sorting parts by number and sorting their volumes is the same. */
  lemma {:induction false} SortGivesParts(parts: seq<Part>, volumes: seq<Volume>)
    requires PartsOf(parts, volumes)
    ensures PartsOf(SortBy(parts, BY_PART), SortBy(volumes, BY_VOLUME))
  {
    if parts != [] {
      SortGivesParts(parts[1..], volumes[1..]);
      InsertGivesParts(parts[0], volumes[0], SortBy(parts[1..], BY_PART), SortBy(volumes[1..], BY_VOLUME));
    }
  }

  lemma OneShift(fileId: string, s: Segment, dataStart: nat, sourceEnd: int, a: int, b: int)
    ensures VirtualSegment(fileId, s, dataStart, sourceEnd, b) == Shifted(VirtualSegment(fileId, s, dataStart, sourceEnd, a), a - b)
  {
  }

  lemma ShiftCons(s: Segment, rest: seq<Segment>, delta: int)
    ensures ShiftAll([s] + rest, delta) == [Shifted(s, delta)] + ShiftAll(rest, delta)
  {
  }

  lemma VirtualUnfolds(fileId: string, segs: seq<Segment>, dataStart: nat, sourceEnd: int, entryStart: int)
    requires segs != []
    ensures var rest := VirtualSegments(fileId, segs[1..], dataStart, sourceEnd, entryStart);
      VirtualSegments(fileId, segs, dataStart, sourceEnd, entryStart)
      == if Misses(segs[0], dataStart, sourceEnd) then rest
         else [VirtualSegment(fileId, segs[0], dataStart, sourceEnd, entryStart)] + rest
  {
  }

  lemma {:induction false} VirtualShift(
    fileId: string, segs: seq<Segment>, dataStart: nat, sourceEnd: int, a: int, b: int)
    ensures VirtualSegments(fileId, segs, dataStart, sourceEnd, b)
         == ShiftAll(VirtualSegments(fileId, segs, dataStart, sourceEnd, a), a - b)
  {
    if segs != [] {
      VirtualShift(fileId, segs[1..], dataStart, sourceEnd, a, b);
      hide VirtualSegments, VirtualSegment, Shifted, ShiftAll;
      VirtualUnfolds(fileId, segs, dataStart, sourceEnd, a);
      VirtualUnfolds(fileId, segs, dataStart, sourceEnd, b);
      OneShift(fileId, segs[0], dataStart, sourceEnd, a, b);
      ShiftCons(VirtualSegment(fileId, segs[0], dataStart, sourceEnd, a),
                VirtualSegments(fileId, segs[1..], dataStart, sourceEnd, a), a - b);
    }
  }

  /** The position a part was scanned at cancels out when it is rebased. */
  lemma EntryStartCancels(v: Volume, a: int, b: int, cursor: int)
    ensures Rebased(PartOf(v, a).segments, cursor) == Rebased(PartOf(v, b).segments, cursor)
  {
    VirtualShift(v.fileId, v.segs, v.dataStart, v.dataStart + v.packedSize - 1, a, b);
    var x, y := PartOf(v, a).segments, PartOf(v, b).segments;
    if x != [] {
      assert forall i | 0 <= i < |x| :: Shifted(y[i], y[0].start - cursor) == Shifted(x[i], x[0].start - cursor);
    }
  }

  /** The parts rebased one behind the other, straight from the volumes. */
  function ShiftVolumes(volumes: seq<Volume>, cursor: int): seq<Segment> {
    if volumes == [] then []
    else Rebased(PartOf(volumes[0], 0).segments, cursor) + ShiftVolumes(volumes[1..], cursor + volumes[0].packedSize)
  }

  function TotalSize(volumes: seq<Volume>): nat {
    if volumes == [] then 0 else volumes[0].packedSize + TotalSize(volumes[1..])
  }

  lemma RebasedPart(p: Part, v: Volume, cursor: int)
    requires IsPartOf(p, v)
    ensures Rebased(p.segments, cursor) == Rebased(PartOf(v, 0).segments, cursor) && p.packedSize == v.packedSize
  {
    var entryStart :| p == PartOf(v, entryStart);
    EntryStartCancels(v, entryStart, 0, cursor);
  }

  lemma {:induction false} ShiftPartsIsShiftVolumes(parts: seq<Part>, volumes: seq<Volume>, cursor: int)
    requires PartsOf(parts, volumes)
    ensures ShiftParts(parts, cursor) == ShiftVolumes(volumes, cursor) && TotalPacked(parts) == TotalSize(volumes)
  {
    hide Rebased, PartOf, IsPartOf;
    if parts != [] {
      RebasedPart(parts[0], volumes[0], cursor);
      ShiftPartsIsShiftVolumes(parts[1..], volumes[1..], cursor + volumes[0].packedSize);
    }
  }

  predicate DistinctNumbers(volumes: seq<Volume>) {
    forall i, j | 0 <= i < j < |volumes| :: volumes[i].number != volumes[j].number
  }

  /**
   What an archive set becomes, without scan positions: refused for duplicate numbers
   or a size off by more than 16 bytes, else its volumes in number order.
   */
  lemma EntryFromVolumes(volumes: seq<Volume>, expectedSize: nat)
    ensures var sorted := SortBy(volumes, BY_VOLUME);
      EntryOf(volumes, expectedSize) ==
        if !DistinctNumbers(volumes) then DuplicateVolumes
        else if Incomplete(expectedSize, TotalSize(sorted)) then MissingVolumes
        else Listed(if expectedSize != 0 then expectedSize else TotalSize(sorted), SortBy(ShiftVolumes(sorted, 0), BY_START))
  {
    var parts := Collect(volumes, 0);
    CollectGivesParts(volumes, 0);
    SameNumbers(parts, volumes);
    SortGivesParts(parts, volumes);
    ShiftPartsIsShiftVolumes(SortBy(parts, BY_PART), SortBy(volumes, BY_VOLUME), 0);
  }

  lemma SameNumbers(parts: seq<Part>, volumes: seq<Volume>)
    requires PartsOf(parts, volumes)
    ensures DistinctNumbers(volumes) <==> !exists i, j :: 0 <= i < j < |parts| && parts[i].number == parts[j].number
  {
    forall i | 0 <= i < |parts|
      ensures parts[i].number == volumes[i].number
    {
      assert IsPartOf(parts[i], volumes[i]);
    }
  }

  /** Any two scan orders of the same volumes give the same entry. */
  lemma ScanOrderIrrelevant(volumes: seq<Volume>, others: seq<Volume>, expectedSize: nat)
    requires multiset(volumes) == multiset(others) && DistinctNumbers(volumes)
    ensures EntryOf(volumes, expectedSize) == EntryOf(others, expectedSize)
  {
    EntryFromVolumes(volumes, expectedSize);
    EntryFromVolumes(others, expectedSize);
    assert DistinctKeys(volumes, BY_VOLUME);
    SortOrderIrrelevant(volumes, others, BY_VOLUME);
    StaysDistinct(volumes, others);
  }

  lemma StaysDistinct(volumes: seq<Volume>, others: seq<Volume>)
    requires multiset(volumes) == multiset(others) && DistinctNumbers(volumes)
    ensures DistinctNumbers(others)
  {
    var apart := (v: Volume, w: Volume) => v.number != w.number;
    assert Pairwise(volumes, apart);
    SortKeepsPairwise(volumes, BY_VOLUME, apart);
    SortOrderIrrelevant(volumes, others, BY_VOLUME);
    SortingFindsDuplicates(others);
  }

  /** Numbers are distinct when they are so in sorted order. */
  lemma SortingFindsDuplicates(volumes: seq<Volume>)
    requires DistinctNumbers(SortBy(volumes, BY_VOLUME))
    ensures DistinctNumbers(volumes)
  {
    var sorted := SortBy(volumes, BY_VOLUME);
    SortKeepsElements(volumes, BY_VOLUME);
    forall i, j | 0 <= i < j < |volumes|
      ensures volumes[i].number != volumes[j].number
    {
      if volumes[i].number == volumes[j].number {
        TwoOfANumber(volumes, sorted, i, j);
      }
    }
  }

  lemma TwoOfANumber(volumes: seq<Volume>, sorted: seq<Volume>, i: nat, j: nat)
    requires multiset(volumes) == multiset(sorted) && DistinctNumbers(sorted) && i < j < |volumes|
    ensures volumes[i].number != volumes[j].number
  {
    var v, w := volumes[i], volumes[j];
    assert v in multiset(sorted) && w in multiset(sorted);
    var a :| 0 <= a < |sorted| && sorted[a] == v;
    var b :| 0 <= b < |sorted| && sorted[b] == w;
    if v == w {
      OneOccurrence(sorted, a);
      TwoOccurrences(volumes, i, j);
    }
  }

  lemma OneOccurrence(volumes: seq<Volume>, a: nat)
    requires DistinctNumbers(volumes) && a < |volumes|
    ensures multiset(volumes)[volumes[a]] == 1
  {
    assert volumes == volumes[..a] + [volumes[a]] + volumes[a + 1..];
  }

  lemma TwoOccurrences(volumes: seq<Volume>, i: nat, j: nat)
    requires i < j < |volumes| && volumes[i] == volumes[j]
    ensures multiset(volumes)[volumes[i]] >= 2
  {
    var v := volumes[i];
    assert volumes == volumes[..j] + [v] + volumes[j + 1..];
    assert v in volumes[..j];
  }

  // ---------------------------------------------------------------------------
  // Reading through a stored archive

  /** The decoded content of each volume. */
  type Contents = Volume -> Buffer

  /** The volume's manifest describes it, and its packed region lies inside it. */
  ghost predicate Readable(v: Volume, articles: Articles, contents: Contents) {
    && Tiles(v.segs, articles, contents(v)) && FromArticleStart(v.segs)
    && v.dataStart + v.packedSize <= |contents(v)|
  }

  ghost predicate AllReadable(volumes: seq<Volume>, articles: Articles, contents: Contents) {
    forall v | v in volumes :: Readable(v, articles, contents)
  }

  /** The packed regions one behind the other: what the stored file is. */
  ghost function PackedData(volumes: seq<Volume>, contents: Contents): Buffer {
    if volumes == [] then []
    else Slice(contents(volumes[0]), volumes[0].dataStart, volumes[0].packedSize) + PackedData(volumes[1..], contents)
  }

  /** One rebased part covers its piece of the entry. */
  lemma PartCovers(v: Volume, articles: Articles, contents: Contents, entry: Buffer, cursor: nat)
    requires Readable(v, articles, contents) && Shows(entry, cursor, contents(v), v.dataStart, v.packedSize)
    ensures var segs := Rebased(PartOf(v, 0).segments, cursor);
      Contiguous(segs, cursor, cursor + v.packedSize) && AllHold(segs, articles, entry)
  {
    hide AllHold, VirtualSegments, Rebased;
    var sourceEnd := v.dataStart + v.packedSize - 1;
    VirtualFrom(v.fileId, v.segs, 0, |contents(v)|, v.dataStart, sourceEnd, cursor);
    VirtualHold(v.fileId, v.segs, v.dataStart, v.packedSize, cursor, articles, contents(v), entry);
    EntryStartCancels(v, 0, cursor, cursor);
    RebasedInPlace(PartOf(v, cursor).segments, cursor, cursor + v.packedSize);
  }

  lemma RebasedInPlace(segs: seq<Segment>, cursor: int, to: int)
    requires Contiguous(segs, cursor, to)
    ensures Rebased(segs, cursor) == segs
  {
  }

  lemma AllHoldAppend(a: seq<Segment>, b: seq<Segment>, articles: Articles, content: Buffer)
    requires AllHold(a, articles, content) && AllHold(b, articles, content)
    ensures AllHold(a + b, articles, content)
  {
  }

  /** The volumes from `cursor` on cover the rest of the entry. */
  lemma {:induction false} VolumesCover(
    volumes: seq<Volume>, articles: Articles, contents: Contents, entry: Buffer, cursor: nat)
    requires AllReadable(volumes, articles, contents)
    requires cursor <= |entry| && entry[cursor..] == PackedData(volumes, contents)
    ensures Contiguous(ShiftVolumes(volumes, cursor), cursor, |entry|)
    ensures AllHold(ShiftVolumes(volumes, cursor), articles, entry)
    ensures cursor + TotalSize(volumes) == |entry|
    decreases |volumes|
  {
    hide Contiguous, AllHold, Rebased, PartOf, Shows, Readable, Slice;
    if volumes == [] {
      NothingCovered(entry, articles);
    } else {
      var v, rest := volumes[0], volumes[1..];
      assert Readable(v, articles, contents);
      HeadOfEntry(v, PackedData(rest, contents), articles, contents, entry, cursor);
      PartCovers(v, articles, contents, entry, cursor);
      VolumesCover(rest, articles, contents, entry, cursor + v.packedSize);
      var first := Rebased(PartOf(v, 0).segments, cursor);
      var others := ShiftVolumes(rest, cursor + v.packedSize);
      ContiguousAppend(first, others, cursor, cursor + v.packedSize, |entry|);
      AllHoldAppend(first, others, articles, entry);
    }
  }

  lemma NothingCovered(entry: Buffer, articles: Articles)
    ensures Contiguous([], |entry|, |entry|) && AllHold([], articles, entry)
  {
  }

  lemma HeadOfEntry(v: Volume, rest: Buffer, articles: Articles, contents: Contents, entry: Buffer, cursor: nat)
    requires Readable(v, articles, contents) && cursor <= |entry|
    requires entry[cursor..] == Slice(contents(v), v.dataStart, v.packedSize) + rest
    ensures Shows(entry, cursor, contents(v), v.dataStart, v.packedSize)
    ensures cursor + v.packedSize <= |entry| && entry[cursor + v.packedSize..] == rest
  {
    var head, tail := Slice(contents(v), v.dataStart, v.packedSize), entry[cursor..];
    assert |head| == v.packedSize;
    assert tail[..v.packedSize] == head && tail[v.packedSize..] == rest;
    assert entry[cursor..cursor + v.packedSize] == tail[..v.packedSize];
    assert entry[cursor + v.packedSize..] == tail[v.packedSize..];
  }

  /** Sorting a contiguous run by start changes nothing. */
  lemma ContiguousIsSorted(segs: seq<Segment>, from: int, to: int)
    requires Contiguous(segs, from, to)
    ensures SortBy(segs, BY_START) == segs
  {
    ContiguousBounds(segs, from, to);
    forall i, j | 0 <= i < j < |segs|
      ensures BY_START(segs[i]) <= BY_START(segs[j])
    {
    }
    SortOfSorted(segs, BY_START);
  }

  /**
   An accepted entry tiles the packed data of its volumes in number order, whatever
   order they were scanned in; a known size differs from it by at most 16 bytes.
   */
  lemma EntryTilesPackedData(volumes: seq<Volume>, expectedSize: nat, articles: Articles, contents: Contents)
    requires AllReadable(volumes, articles, contents) && EntryOf(volumes, expectedSize).Entry?
    ensures var entry, data := EntryOf(volumes, expectedSize), PackedData(SortBy(volumes, BY_VOLUME), contents);
      && Tiles(entry.segments, articles, data)
      && |data| - 16 <= entry.size <= |data| + 16
      && (if expectedSize == 0 then entry.size == |data| else entry.size == expectedSize)
  {
    hide Tiles, Contiguous, AllHold, Readable;
    var sorted := SortBy(volumes, BY_VOLUME);
    var data := PackedData(sorted, contents);
    EntryFromVolumes(volumes, expectedSize);
    SortKeepsElements(volumes, BY_VOLUME);
    assert data[0..] == data;
    VolumesCover(sorted, articles, contents, data, 0);
    ContiguousIsSorted(ShiftVolumes(sorted, 0), 0, |data|);
    TilesFrom(ShiftVolumes(sorted, 0), articles, data);
  }

  /** The order in which `PackedData` takes the volumes: all of them, by rising numbers. */
  lemma VolumesInOrder(volumes: seq<Volume>, expectedSize: nat)
    requires EntryOf(volumes, expectedSize).Entry?
    ensures var sorted := SortBy(volumes, BY_VOLUME);
      && multiset(sorted) == multiset(volumes)
      && forall i, j | 0 <= i < j < |sorted| :: sorted[i].number < sorted[j].number
  {
    hide PartOf, Rebased, Incomplete;
    var sorted := SortBy(volumes, BY_VOLUME);
    EntryFromVolumes(volumes, expectedSize);
    SortKeepsElements(volumes, BY_VOLUME);
    SortSorts(volumes, BY_VOLUME);
    SortKeepsPairwise(volumes, BY_VOLUME, (v: Volume, w: Volume) => v.number != w.number);
    forall i, j | 0 <= i < j < |sorted|
      ensures sorted[i].number < sorted[j].number
    {
      assert BY_VOLUME(sorted[i]) <= BY_VOLUME(sorted[j]);
    }
  }

  /**
   An archive set is accepted exactly if no number occurs twice, a known size is met within
   16 bytes, and there is anything to list.
   */
  lemma AcceptedIff(volumes: seq<Volume>, expectedSize: nat, articles: Articles, contents: Contents)
    requires AllReadable(volumes, articles, contents)
    ensures var data := PackedData(SortBy(volumes, BY_VOLUME), contents);
      && (EntryOf(volumes, expectedSize).DuplicateVolumes? <==>
            exists i, j :: 0 <= i < j < |volumes| && volumes[i].number == volumes[j].number)
      && (EntryOf(volumes, expectedSize).MissingVolumes? ==>
            expectedSize > 0 && !(|data| - 16 <= expectedSize <= |data| + 16))
      && (EntryOf(volumes, expectedSize).Entry? ==>
            expectedSize == 0 || |data| - 16 <= expectedSize <= |data| + 16)
      && (EntryOf(volumes, expectedSize).Dropped? ==> data == [])
  {
    hide Tiles, Contiguous, AllHold, Readable;
    var sorted := SortBy(volumes, BY_VOLUME);
    var data := PackedData(sorted, contents);
    EntryFromVolumes(volumes, expectedSize);
    SortKeepsElements(volumes, BY_VOLUME);
    assert data[0..] == data;
    VolumesCover(sorted, articles, contents, data, 0);
    ContiguousIsSorted(ShiftVolumes(sorted, 0), 0, |data|);
    NothingToList(ShiftVolumes(sorted, 0), |data|);
  }

  lemma NothingToList(segs: seq<Segment>, size: int)
    requires Contiguous(segs, 0, size)
    ensures segs == [] ==> size == 0
  {
  }

  lemma TilesFrom(segs: seq<Segment>, articles: Articles, content: Buffer)
    requires Contiguous(segs, 0, |content|) && AllHold(segs, articles, content)
    ensures Tiles(segs, articles, content)
  {
  }

  /**
   Reading any range of an accepted entry by its plan gives exactly that range of the
   stored file, as far as there is packed data.
   */
  lemma StoredRarReadThrough(
    volumes: seq<Volume>, expectedSize: nat, articles: Articles, contents: Contents, start: nat, end: int)
    requires AllReadable(volumes, articles, contents) && EntryOf(volumes, expectedSize).Entry?
    requires start <= end && start < |PackedData(SortBy(volumes, BY_VOLUME), contents)|
    ensures var data := PackedData(SortBy(volumes, BY_VOLUME), contents);
      var plan := Plan(EntryOf(volumes, expectedSize).segments, start, end);
      && Chains(plan, articles, start, Min(end + 1, |data|))
      && Execute(plan, articles) == Slice(data, start, end - start + 1)
  {
    hide *;
    EntryTilesPackedData(volumes, expectedSize, articles, contents);
    PlanReadsContent(
      EntryOf(volumes, expectedSize).segments, articles, PackedData(SortBy(volumes, BY_VOLUME), contents), start, end);
  }

  /**
   What a Range request for an accepted entry returns. The bounds go by the entry's
   size, the bytes by the packed data: what lies behind its end, at most 16 bytes and
   always at the tail of the request, is missing from the answer.
   */
  lemma StoredRarRange(volumes: seq<Volume>, expectedSize: nat, articles: Articles, contents: Contents, range: string)
    requires AllReadable(volumes, articles, contents) && EntryOf(volumes, expectedSize).Entry?
    requires NormalizeRange(range, EntryOf(volumes, expectedSize).size).Ok?
    ensures var entry, data := EntryOf(volumes, expectedSize), PackedData(SortBy(volumes, BY_VOLUME), contents);
      var Ok(start, end) := NormalizeRange(range, entry.size);
      var answer := Execute(Plan(entry.segments, start, end), articles);
      && 0 <= start <= end
      && answer == Slice(data, start, end - start + 1)
      && |answer| + Max(0, end + 1 - Max(start, |data|)) == end - start + 1
      && end + 1 - |data| <= 16
  {
    hide NormalizeRange, EntryOf, PackedData, AllReadable, Plan, Execute, AllHold, Tiles, Contiguous, Slice, SortBy, Chains;
    var entry, data := EntryOf(volumes, expectedSize), PackedData(SortBy(volumes, BY_VOLUME), contents);
    EntryTilesPackedData(volumes, expectedSize, articles, contents);
    NormalizedBounds(range, entry.size);
    var Ok(start, end) := NormalizeRange(range, entry.size);
    if start < |data| {
      PlanReadsContent(entry.segments, articles, data, start, end);
    } else {
      PlanBehindEnd(entry.segments, articles, data, start, end);
    }
  }

  lemma NormalizedBounds(range: string, size: int)
    requires NormalizeRange(range, size).Ok?
    ensures var Ok(start, end) := NormalizeRange(range, size); 0 <= start <= end <= Max(0, size - 1)
  {
  }

  lemma PlanBehindEnd(segs: seq<Segment>, articles: Articles, content: Buffer, start: nat, end: int)
    requires Tiles(segs, articles, content) && |content| <= start <= end
    ensures Execute(Plan(segs, start, end), articles) == []
  {
    ContiguousBounds(segs, 0, |content|);
    PlanOfMissed(segs, start, end);
  }

  // ---------------------------------------------------------------------------
  // What reading an entry asks the cache for

  /** The request for one of the volume's own articles. */
  function RefIn(v: Volume, s: Segment): ArticleRef {
    ArticleRef(v.fileId, s.number, s.articleId)
  }

  ghost predicate AsksFor(s: Segment, v: Volume) {
    exists i :: 0 <= i < |v.segs| && RefOf(s) == RefIn(v, v.segs[i])
  }

  ghost predicate AsksForSome(s: Segment, volumes: seq<Volume>) {
    exists v :: v in volumes && AsksFor(s, v)
  }

  lemma {:induction false} VirtualAsks(v: Volume, n: nat, dataStart: nat, sourceEnd: int, entryStart: int)
    requires n <= |v.segs|
    ensures forall s | s in VirtualSegments(v.fileId, v.segs[n..], dataStart, sourceEnd, entryStart) :: AsksFor(s, v)
    decreases |v.segs| - n
  {
    if n < |v.segs| {
      VirtualAsks(v, n + 1, dataStart, sourceEnd, entryStart);
      assert v.segs[n..][0] == v.segs[n] && v.segs[n..][1..] == v.segs[n + 1..];
      assert RefOf(VirtualSegment(v.fileId, v.segs[n], dataStart, sourceEnd, entryStart)) == RefIn(v, v.segs[n]);
    }
  }

  lemma RebasedAsks(v: Volume, cursor: int)
    ensures forall s | s in Rebased(PartOf(v, 0).segments, cursor) :: AsksFor(s, v)
  {
    VirtualAsks(v, 0, v.dataStart, v.dataStart + v.packedSize - 1, 0);
    assert v.segs[0..] == v.segs;
    var segs := PartOf(v, 0).segments;
    forall s | s in Rebased(segs, cursor)
      ensures AsksFor(s, v)
    {
      var i :| 0 <= i < |segs| && s == Shifted(segs[i], segs[0].start - cursor);
      assert segs[i] in segs && RefOf(s) == RefOf(segs[i]);
      assert AsksFor(segs[i], v);
    }
  }

  lemma {:induction false} ShiftedAsk(volumes: seq<Volume>, cursor: int)
    ensures forall s | s in ShiftVolumes(volumes, cursor) :: AsksForSome(s, volumes)
  {
    hide Rebased, PartOf, AsksFor;
    if volumes != [] {
      var v := volumes[0];
      RebasedAsks(v, cursor);
      ShiftedAsk(volumes[1..], cursor + v.packedSize);
      forall s | s in ShiftVolumes(volumes, cursor)
        ensures AsksForSome(s, volumes)
      {
        if s in Rebased(PartOf(v, 0).segments, cursor) {
          assert v in volumes && AsksFor(s, v);
        } else {
          assert AsksForSome(s, volumes[1..]);
          var w :| w in volumes[1..] && AsksFor(s, w);
          assert w in volumes;
        }
      }
    }
  }

  /**
   Every segment of an accepted entry asks for an article of one of the volumes, under that
   volume's file and the number the article has there.
   */
  lemma EntryAsksVolumes(volumes: seq<Volume>, expectedSize: nat)
    requires EntryOf(volumes, expectedSize).Entry?
    ensures forall s | s in EntryOf(volumes, expectedSize).segments :: AsksForSome(s, volumes)
  {
    hide Rebased, PartOf, AsksFor, Incomplete;
    var sorted := SortBy(volumes, BY_VOLUME);
    EntryFromVolumes(volumes, expectedSize);
    SortKeepsElements(volumes, BY_VOLUME);
    SortKeepsElements(ShiftVolumes(sorted, 0), BY_START);
    ShiftedAsk(sorted, 0);
    forall s | s in EntryOf(volumes, expectedSize).segments
      ensures AsksForSome(s, volumes)
    {
      var v :| v in sorted && AsksFor(s, v);
      assert v in volumes;
    }
  }

  /** The volumes' own articles are among those asked for, and share their keys with no others. */
  ghost predicate VolumesSole(refs: set<ArticleRef>, volumes: seq<Volume>) {
    forall v, i | v in volumes && 0 <= i < |v.segs| :: SoleUser(refs, RefIn(v, v.segs[i]))
  }

  lemma {:induction false} PlanAsks(segs: seq<Segment>, start: int, end: int, volumes: seq<Volume>, refs: set<ArticleRef>)
    requires VolumesSole(refs, volumes) && forall s | s in segs :: AsksForSome(s, volumes)
    ensures RangesAsked(refs, Plan(segs, start, end)) && RangesSole(refs, Plan(segs, start, end))
  {
    hide SoleUser;
    if segs != [] {
      assert forall s | s in segs[1..] :: s in segs;
      PlanAsks(segs[1..], start, end, volumes, refs);
      SegmentSole(segs[0], volumes, refs);
      assert RefOfRange(RangeWithin(segs[0], start, end)) == RefOf(segs[0]);
    }
  }

  lemma SegmentSole(s: Segment, volumes: seq<Volume>, refs: set<ArticleRef>)
    requires VolumesSole(refs, volumes) && AsksForSome(s, volumes)
    ensures RefOf(s) in refs && SoleUser(refs, RefOf(s))
  {
    var v :| v in volumes && AsksFor(s, v);
    var i :| 0 <= i < |v.segs| && RefOf(s) == RefIn(v, v.segs[i]);
    assert SoleUser(refs, RefIn(v, v.segs[i]));
  }

  /**
   A Range request for a stored file, through the article cache: where the volumes' articles do
   not share their keys with others, it is answered with that part of the packed data, the
   volumes one behind the other by number.
   */
  method ReadStoredRange(
    volumes: seq<Volume>, expectedSize: nat, range: string, cache: ArticleCache, ghost contents: Contents)
    returns (bounds: RangeHeader.Result, out: Buffer)
    requires cache.Valid() && AllReadable(volumes, cache.articles, contents) && VolumesSole(cache.refs, volumes)
    requires EntryOf(volumes, expectedSize).Entry?
    modifies cache
    ensures cache.Valid()
    ensures bounds == NormalizeRange(range, EntryOf(volumes, expectedSize).size)
    ensures bounds.Ok? ==>
      && 0 <= bounds.start <= bounds.end
      && out == Slice(PackedData(SortBy(volumes, BY_VOLUME), contents), bounds.start, bounds.end - bounds.start + 1)
    ensures bounds.Err? ==> out == []
  {
    hide *;
    var entry := EntryOf(volumes, expectedSize);
    bounds := NormalizeRange(range, entry.size);
    if bounds.Err? {
      return bounds, [];
    }
    NormalizedBounds(range, entry.size);
    StoredRarRange(volumes, expectedSize, cache.articles, contents, range);
    EntryAsksVolumes(volumes, expectedSize);
    EntryIsOrdered(volumes, expectedSize, cache.articles, contents);
    PlanAsks(entry.segments, bounds.start, bounds.end, volumes, cache.refs);
    var ranges := PlanRanges(entry.segments, bounds.start, bounds.end);
    out := ReadPlannedRanges(ranges, cache);
  }

  lemma EntryIsOrdered(volumes: seq<Volume>, expectedSize: nat, articles: Articles, contents: Contents)
    requires AllReadable(volumes, articles, contents) && EntryOf(volumes, expectedSize).Entry?
    ensures Ordered(EntryOf(volumes, expectedSize).segments)
  {
    hide EntryOf, PackedData, AllReadable, AllHold, Contiguous, Ordered, SortBy;
    EntryTilesPackedData(volumes, expectedSize, articles, contents);
    ContiguousBounds(EntryOf(volumes, expectedSize).segments, 0, |PackedData(SortBy(volumes, BY_VOLUME), contents)|);
  }

  /**
   The in-place shrink does harm an entry: its first segment starts inside its article,
   so if that article comes out shorter than announced the rest no longer touches it
   or ends elsewhere than the bytes do.
   */
  lemma ShrunkEntryBreaks(
    fileId: string, s: Segment, segs: seq<Segment>, articles: Articles, volume: Buffer,
    dataStart: nat, sourceEnd: int, entryStart: nat, from: int, to: int, actual: int)
    requires Holds(s, articles, volume) && s.sourceOffset == 0
    requires s.start < dataStart <= sourceEnd + 1 && !Misses(s, dataStart, sourceEnd)
    requires segs != [] && segs[0] == VirtualSegment(fileId, s, dataStart, sourceEnd, entryStart)
    requires Contiguous(segs, from, to) && Shrinks(segs[0], actual)
    ensures !Contiguous(Shrunk(segs, 0, actual), from, to - (segs[0].bytes - actual))
  {
    hide Contiguous, Shrunk;
    VirtualBounds(fileId, s, articles, volume, dataStart, sourceEnd, entryStart);
    ShrinkKeepsContiguity(segs, from, to, 0, actual);
  }

  /**
   Where readable volumes come from: any header that the scan of a volume's first
   `n` bytes finds names a region inside the volume, and that region is the data of
   a file block of that name, provided no block of 4 GiB or more can lead the scan astray
   within these bytes.
   */
  lemma ScannedHeaderIsReadable(
    v: Volume, blocks: seq<RarHeaders.Block>, n: nat, h: RarHeaders.FileHeader, articles: Articles, contents: Contents)
    returns (block: RarHeaders.Block)
    requires RarHeaders.AllWellFormed(blocks) && RarHeaders.HeadReadable(blocks, 7, n)
    requires contents(v) == RarHeaders.SIGNATURE + RarHeaders.EncodeAll(blocks)
    requires h in RarHeaders.Scan(RarHeaders.FirstBytes(contents(v), n)) && v.dataStart == h.dataStart && v.packedSize == h.packedSize
    requires Tiles(v.segs, articles, contents(v)) && FromArticleStart(v.segs)
    ensures Readable(v, articles, contents)
    ensures block in blocks && block.File? && block.name == h.rawName
    ensures Slice(contents(v), v.dataStart, v.packedSize) == block.data
  {
    hide Tiles, RarHeaders.EncodeAll, RarHeaders.Scan, RarHeaders.HeadersOf, RarHeaders.HeadReadable, RarHeaders.FirstBytes;
    var b := contents(v);
    RarHeaders.RarHeadRoundTrip(blocks, n);
    assert b[7..] == RarHeaders.EncodeAll(blocks);
    block := RarHeaders.HeadersNameData(b, 7, blocks, h);
  }

  // ---------------------------------------------------------------------------
  // readDecodedRange

  /**
   Reading the head of a volume: the segments that overlap the range, in order, each
   article cut to the overlap.
   */
  method ReadDecodedRange(segs: seq<Segment>, start: nat, length: nat, articles: Articles, ghost content: Buffer)
    returns (out: Buffer)
    ensures Tiles(segs, articles, content) && FromArticleStart(segs) ==> out == Slice(content, start, length)
  {
    hide Slice, Subarray, Tiles, FromArticleStart;
    var chunks: seq<Buffer> := [];
    var total := 0;
    var index := 0;
    ghost var tiled := Tiles(segs, articles, content) && FromArticleStart(segs);
    if tiled {
      RangeStarts(segs, articles, content, start, length);
    }
    while index < |segs|
      invariant index <= |segs| && total == |Concat(chunks)| && (total < length || length == 0)
      invariant tiled ==> RangeSoFar(segs, content, start, length, index, Concat(chunks))
    {
      var item := segs[index];
      if item.end < start {
        if tiled {
          RangeSkips(segs, articles, content, start, length, index, Concat(chunks));
        }
        index := index + 1;
        continue;
      }
      if item.start >= start + length {
        break;
      }
      var sliceStart := Max(start, item.start);
      var take := Min(start + length - sliceStart, item.end - sliceStart + 1);
      if take <= 0 {
        if tiled {
          RangeSkips(segs, articles, content, start, length, index, Concat(chunks));
        }
        index := index + 1;
        continue;
      }
      var decoded := articles(item.articleId);
      var segmentOffset := sliceStart - item.start;
      var chunk := Subarray(decoded, segmentOffset, segmentOffset + take);
      if tiled {
        RangeTakes(segs, articles, content, start, length, index, Concat(chunks));
      }
      ConcatSnoc(chunks, chunk);
      chunks := chunks + [chunk];
      total := total + |chunk|;
      index := index + 1;
      if total >= length {
        break;
      }
    }
    out := Concat(chunks);
    if tiled {
      RangeEnds(segs, articles, content, start, length, index, out);
    }
  }

  /** What is read so far, and that the next segment continues it. */
  ghost predicate RangeSoFar(segs: seq<Segment>, content: Buffer, start: nat, length: nat, index: nat, done: Buffer) {
    && |done| <= length && done == Slice(content, start, |done|)
    && (|done| < length ==>
          if index < |segs| then Max(start, segs[index].start) == start + |done| else |content| <= start + |done|)
  }

  lemma RangeStarts(segs: seq<Segment>, articles: Articles, content: Buffer, start: nat, length: nat)
    requires Tiles(segs, articles, content)
    ensures RangeSoFar(segs, content, start, length, 0, []) && Concat([]) == []
  {
  }

  lemma NextStart(segs: seq<Segment>, articles: Articles, content: Buffer, index: nat)
    requires Tiles(segs, articles, content) && index < |segs|
    ensures segs[index].start <= segs[index].end + 1
    ensures if index + 1 < |segs| then segs[index + 1].start == segs[index].end + 1 else |content| == segs[index].end + 1
    ensures Holds(segs[index], articles, content)
  {
  }

  lemma RangeSkips(
    segs: seq<Segment>, articles: Articles, content: Buffer, start: nat, length: nat, index: nat, done: Buffer)
    requires Tiles(segs, articles, content) && RangeSoFar(segs, content, start, length, index, done) && index < |segs|
    requires |done| < length ==> segs[index].end < start + |done|
    ensures RangeSoFar(segs, content, start, length, index + 1, done)
  {
    hide Tiles, Slice;
    NextStart(segs, articles, content, index);
  }

  lemma RangeTakes(
    segs: seq<Segment>, articles: Articles, content: Buffer, start: nat, length: nat, index: nat, done: Buffer)
    requires Tiles(segs, articles, content) && FromArticleStart(segs) && index < |segs| && |done| < length
    requires RangeSoFar(segs, content, start, length, index, done) && start + |done| <= segs[index].end
    ensures var item := segs[index];
      var from := Max(start, item.start) - item.start;
      var take := Min(start + length - Max(start, item.start), item.end - Max(start, item.start) + 1);
      RangeSoFar(segs, content, start, length, index + 1,
                 done + Subarray(articles(item.articleId), from, from + take))
  {
    hide Tiles, Slice, Subarray;
    NextStart(segs, articles, content, index);
    var item, cursor := segs[index], start + |done|;
    var take := Min(length - |done|, item.end - cursor + 1);
    ChunkIsContent(item, articles, content, cursor, take);
    SliceJoin(content, start, |done|, take);
  }

  lemma RangeEnds(
    segs: seq<Segment>, articles: Articles, content: Buffer, start: nat, length: nat, index: nat, done: Buffer)
    requires RangeSoFar(segs, content, start, length, index, done)
    requires |done| < length ==> index >= |segs| || segs[index].start >= start + length
    ensures done == Slice(content, start, length)
  {
  }
}
