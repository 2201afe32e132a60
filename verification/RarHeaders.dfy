/**
 Scanning the block headers of a RAR 1.5-4.x volume: `parseStoredRarHeaders` of
 src/services/archive/rarStoredIndex.ts. A header keeps its raw name bytes; how
 they become a string is not part of this model.
 */
module RarHeaders {
  import opened Bytes

  datatype FileHeader = FileHeader(
    rawName: Buffer,
    unicode: bool,
    dataStart: nat,
    packedSize: nat,
    unpackedSize: nat,
    compression: Byte)

  const SIGNATURE: Buffer := [0x52, 0x61, 0x72, 0x21, 0x1a, 0x07, 0x00]
  const FILE_BLOCK := 0x74
  const HAS_DATA := 0x8000
  const LARGE := 0x0100
  const UNICODE := 0x0200
  const TWO32 := 0x1_0000_0000

  // ---------------------------------------------------------------------------
  // Little-endian numbers

  function U16(b: Buffer, at: nat): (r: nat)
    requires at + 2 <= |b|
    ensures r < 0x1_0000
  {
    (b[at] as int) + 0x100 * (b[at + 1] as int)
  }

  function U32(b: Buffer, at: nat): (r: nat)
    requires at + 4 <= |b|
    ensures r < TWO32
  {
    U16(b, at) + 0x1_0000 * U16(b, at + 2)
  }

  function Le16(n: nat): (r: Buffer)
    requires n < 0x1_0000
    ensures |r| == 2 && U16(r, 0) == n
  {
    [n % 0x100, n / 0x100]
  }

  function Le32(n: nat): (r: Buffer)
    requires n < TWO32
    ensures |r| == 4
  {
    Le16(n % 0x1_0000) + Le16(n / 0x1_0000)
  }

  lemma Le32RoundTrip(n: nat)
    requires n < TWO32
    ensures U32(Le32(n), 0) == n
  {
    assert U16(Le32(n), 0) == U16(Le16(n % 0x1_0000), 0);
    assert U16(Le32(n), 2) == U16(Le16(n / 0x1_0000), 0);
  }

  predicate HasFlag(flags: nat, flag: nat)
    requires flag > 0
  {
    flags / flag % 2 == 1
  }

  // ---------------------------------------------------------------------------
  // The scan

  /** The fixed part of a block header. */
  function BlockType(b: Buffer, at: nat): Byte
    requires at + 7 <= |b|
  {
    b[at + 2]
  }

  function BlockFlags(b: Buffer, at: nat): nat
    requires at + 7 <= |b|
  {
    U16(b, at + 3)
  }

  function HeadSize(b: Buffer, at: nat): nat
    requires at + 7 <= |b|
  {
    U16(b, at + 5)
  }

  /** A block header that is complete in the buffer. */
  predicate HasBlock(b: Buffer, at: nat) {
    at + 7 <= |b| && HeadSize(b, at) >= 7 && at + HeadSize(b, at) <= |b|
  }

  /** The size of the data behind the header, if the flags announce any. */
  function AddSize(b: Buffer, at: nat): nat
    requires HasBlock(b, at)
  {
    if HasFlag(BlockFlags(b, at), HAS_DATA) && at + 11 <= |b| then U32(b, at + 7) else 0
  }

  predicate IsFileBlock(b: Buffer, at: nat)
    requires HasBlock(b, at)
  {
    BlockType(b, at) == FILE_BLOCK && HeadSize(b, at) >= 32
  }

  function NameOffset(b: Buffer, at: nat): nat
    requires HasBlock(b, at)
  {
    at + 7 + (if HasFlag(BlockFlags(b, at), LARGE) then 33 else 25)
  }

  function NameEnd(b: Buffer, at: nat): nat
    requires HasBlock(b, at) && IsFileBlock(b, at)
  {
    NameOffset(b, at) + U16(b, at + 7 + 19)
  }

  /** A file block whose name does not run past its header. */
  predicate NameFits(b: Buffer, at: nat)
    requires HasBlock(b, at) && IsFileBlock(b, at)
  {
    NameEnd(b, at) <= at + HeadSize(b, at)
  }

  function HeaderAt(b: Buffer, at: nat): FileHeader
    requires HasBlock(b, at) && IsFileBlock(b, at) && NameFits(b, at)
  {
    var body := at + 7;
    var large := HasFlag(BlockFlags(b, at), LARGE);
    FileHeader(
      b[NameOffset(b, at)..NameEnd(b, at)],
      HasFlag(BlockFlags(b, at), UNICODE),
      at + HeadSize(b, at),
      (if large then U32(b, body + 25) else 0) * TWO32 + U32(b, body),
      (if large then U32(b, body + 29) else 0) * TWO32 + U32(b, body + 4),
      b[body + 18])
  }

  /** The headers from the block at `at` on. */
  function ScanFrom(b: Buffer, at: nat): seq<FileHeader>
    decreases |b| - at
  {
    if !HasBlock(b, at) then []
    else if IsFileBlock(b, at) && !NameFits(b, at) then []
    else
      (if IsFileBlock(b, at) then [HeaderAt(b, at)] else [])
      + NextScan(b, at)
  }

  function NextScan(b: Buffer, at: nat): seq<FileHeader>
    requires HasBlock(b, at)
    decreases |b| - at, 0
  {
    var next := at + HeadSize(b, at) + AddSize(b, at);
    if next <= |b| then ScanFrom(b, next) else []
  }

  predicate HasSignature(b: Buffer) {
    |b| >= 7 && b[..7] == SIGNATURE
  }

  function Scan(b: Buffer): seq<FileHeader> {
    if HasSignature(b) then ScanFrom(b, 7) else []
  }

  /** The fields of a file block, unless its name runs past its header. */
  method ReadFileBlock(buffer: Buffer, blockStart: nat, flags: nat, headSize: nat) returns (fits: bool, headers: seq<FileHeader>)
    requires HasBlock(buffer, blockStart) && IsFileBlock(buffer, blockStart)
    requires flags == BlockFlags(buffer, blockStart) && headSize == HeadSize(buffer, blockStart)
    ensures fits <==> NameFits(buffer, blockStart)
    ensures headers == if fits then [HeaderAt(buffer, blockStart)] else []
  {
    hide U16, U32, HasFlag;
    var body := blockStart + 7;
    var lowPackSize := U32(buffer, body);
    var lowUnpackedSize := U32(buffer, body + 4);
    var compression := buffer[body + 18];
    var nameSize := U16(buffer, body + 19);
    var large := HasFlag(flags, LARGE);
    var nameOffset := body + (if large then 33 else 25);
    var nameEnd := nameOffset + nameSize;
    if nameEnd > blockStart + headSize {
      return false, [];
    }
    var highPackSize := if large then U32(buffer, body + 25) else 0;
    var highUnpackedSize := if large then U32(buffer, body + 29) else 0;
    return true, [FileHeader(
      buffer[nameOffset..nameEnd],
      HasFlag(flags, UNICODE),
      blockStart + headSize,
      highPackSize * TWO32 + lowPackSize,
      highUnpackedSize * TWO32 + lowUnpackedSize,
      compression)];
  }

  /**
   The parser's loop. Every read is inside the buffer, and the offset grows with
   each block, so it always ends.
   */
  method ScanBlocks(buffer: Buffer) returns (headers: seq<FileHeader>)
    requires |buffer| >= 7
    ensures headers == ScanFrom(buffer, 7)
  {
    hide U16, U32, HasFlag, ScanFrom, NextScan, NameFits, HeaderAt;
    headers := [];
    var offset := 7;
    ghost var all := ScanFrom(buffer, 7);
    ghost var rest := all;
    while offset + 7 <= |buffer|
      invariant rest == if offset <= |buffer| then ScanFrom(buffer, offset) else []
      invariant headers + rest == all
      decreases |buffer| - offset
    {
      var blockStart := offset;
      ScanUnfolds(buffer, offset);
      var kind := buffer[offset + 2];
      var flags := U16(buffer, offset + 3);
      var headSize := U16(buffer, offset + 5);
      if headSize < 7 || blockStart + headSize > |buffer| {
        break;
      }
      var hasData := HasFlag(flags, HAS_DATA);
      var addSize := if hasData && blockStart + 11 <= |buffer| then U32(buffer, offset + 7) else 0;
      var next := blockStart + headSize + addSize;
      ghost var others := if next <= |buffer| then ScanFrom(buffer, next) else [];
      if kind == FILE_BLOCK && headSize >= 32 {
        var fits, found := ReadFileBlock(buffer, blockStart, flags, headSize);
        if !fits {
          break;
        }
        Reassociate(headers, found, others);
        headers := headers + found;
      }
      rest := others;
      if next <= offset {
        break;
      }
      offset := next;
    }
    if offset <= |buffer| {
      ScanUnfolds(buffer, offset);
    }
    assert rest == [];
    assert headers + [] == headers;
  }

  method ParseStoredRarHeaders(buffer: Buffer) returns (headers: seq<FileHeader>)
    ensures headers == Scan(buffer)
  {
    if |buffer| < 7 || buffer[..7] != SIGNATURE {
      return [];
    }
    headers := ScanBlocks(buffer);
  }

  lemma ScanUnfolds(b: Buffer, at: nat)
    ensures ScanFrom(b, at) ==
      if !HasBlock(b, at) || (IsFileBlock(b, at) && !NameFits(b, at)) then []
      else
        var next := at + HeadSize(b, at) + AddSize(b, at);
        var others := if next <= |b| then ScanFrom(b, next) else [];
        if IsFileBlock(b, at) then [HeaderAt(b, at)] + others else others
  {
  }

  // ---------------------------------------------------------------------------
  // The layout byte by byte

  /** What the bits of the second flags byte stand for. */
  lemma FlagBits(b: Buffer, at: nat)
    requires at + 7 <= |b|
    ensures HasFlag(BlockFlags(b, at), HAS_DATA) <==> b[at + 4] >= 0x80
    ensures HasFlag(BlockFlags(b, at), UNICODE) <==> b[at + 4] / 2 % 2 == 1
    ensures HasFlag(BlockFlags(b, at), LARGE) <==> b[at + 4] % 2 == 1
  {
    var low, high: int := b[at + 3], b[at + 4];
    assert (low + 0x100 * high) / 0x8000 == high / 0x80;
    assert (low + 0x100 * high) / 0x0200 == high / 2;
    assert (low + 0x100 * high) / 0x0100 == high;
  }

  /** Four bytes, the first the lowest. */
  function Number32(b: Buffer, at: nat): nat
    requires at + 4 <= |b|
  {
    b[at] as int + 256 * (b[at + 1] as int + 256 * (b[at + 2] as int + 256 * b[at + 3] as int))
  }

  /** A volume starts with "Rar!" and three fixed bytes, or nothing is found in it. */
  lemma SignatureBytes(b: Buffer)
    ensures HasSignature(b) <==>
      |b| >= 7 && b[0] == 'R' as int && b[1] == 'a' as int && b[2] == 'r' as int && b[3] == '!' as int
      && b[4] == 26 && b[5] == 7 && b[6] == 0
  {
    if |b| >= 7 {
      assert b[..7] == [b[0], b[1], b[2], b[3], b[4], b[5], b[6]];
    }
  }

  /** Where a header's fields are, and which flag bits move them. */
  lemma HeaderByBytes(b: Buffer, at: nat)
    requires HasBlock(b, at)
    ensures AddSize(b, at) == if b[at + 4] >= 0x80 && at + 11 <= |b| then Number32(b, at + 7) else 0
    ensures IsFileBlock(b, at) <==> b[at + 2] == 't' as int && HeadSize(b, at) >= 32
    ensures IsFileBlock(b, at) && NameFits(b, at) ==>
      var h, large, nameLength := HeaderAt(b, at), b[at + 4] % 2 == 1, b[at + 26] as int + 256 * b[at + 27] as int;
      var name := at + if large then 40 else 32;
      && name + nameLength <= |b|
      && h.rawName == b[name..name + nameLength] && h.unicode == (b[at + 4] / 2 % 2 == 1)
      && h.dataStart == at + b[at + 5] as int + 256 * b[at + 6] as int
      && h.compression == b[at + 25]
      && (large ==>
            && h.packedSize == Number32(b, at + 7) + 0x1_0000_0000 * Number32(b, at + 32)
            && h.unpackedSize == Number32(b, at + 11) + 0x1_0000_0000 * Number32(b, at + 36))
      && (!large ==> h.packedSize == Number32(b, at + 7) && h.unpackedSize == Number32(b, at + 11))
  {
    hide HasFlag;
    FlagBits(b, at);
  }

  // ---------------------------------------------------------------------------
  // Scanning a prefix

  /** A block header complete in a prefix reads the same there. */
  lemma PrefixReads(b: Buffer, n: nat, at: nat)
    requires n <= |b| && HasBlock(b[..n], at)
    ensures HasBlock(b, at) && HeadSize(b[..n], at) == HeadSize(b, at) && BlockFlags(b[..n], at) == BlockFlags(b, at)
    ensures IsFileBlock(b[..n], at) == IsFileBlock(b, at)
    ensures at + 11 <= n ==> AddSize(b[..n], at) == AddSize(b, at)
  {
  }

  lemma PrefixFileReads(b: Buffer, n: nat, at: nat)
    requires n <= |b| && HasBlock(b[..n], at) && IsFileBlock(b[..n], at) && HasBlock(b, at) && IsFileBlock(b, at)
    ensures NameFits(b[..n], at) == NameFits(b, at)
    ensures NameFits(b, at) ==> HeaderAt(b[..n], at) == HeaderAt(b, at)
  {
    hide HasFlag;
    var p := b[..n];
    assert HeadSize(p, at) == HeadSize(b, at) && BlockFlags(p, at) == BlockFlags(b, at);
    assert NameEnd(p, at) == NameEnd(b, at);
    if NameFits(p, at) {
      assert p[NameOffset(p, at)..NameEnd(p, at)] == b[NameOffset(b, at)..NameEnd(b, at)];
    }
  }

  lemma {:induction false} ScanOfPrefixFrom(b: Buffer, n: nat, at: nat)
    requires n <= |b|
    ensures ScanFrom(b[..n], at) <= ScanFrom(b, at)
    decreases |b| - at
  {
    hide HasBlock, IsFileBlock, NameFits, HeaderAt, AddSize, HeadSize, BlockFlags, ScanFrom, NextScan;
    var p := b[..n];
    ScanUnfolds(p, at);
    if HasBlock(p, at) {
      BlockMoves(p, at);
      PrefixReads(b, n, at);
      ScanUnfolds(b, at);
      if IsFileBlock(p, at) {
        PrefixFileReads(b, n, at);
      }
      // Without room for the data size there is no room for another block either.
      var next := at + HeadSize(p, at) + AddSize(p, at);
      if at + 11 <= n {
        if next <= n {
          ScanOfPrefixFrom(b, n, next);
        }
      } else if next <= n {
        NoRoomForBlock(p, next);
      }
    }
  }

  lemma BlockMoves(b: Buffer, at: nat)
    requires HasBlock(b, at)
    ensures at + 7 <= at + HeadSize(b, at) <= |b|
  {
  }

  lemma NoRoomForBlock(b: Buffer, at: nat)
    requires at + 7 > |b|
    ensures ScanFrom(b, at) == []
  {
  }

  /**
   Parsing the beginning of a volume gives the beginning of its header list: what
   is found in the first 384 KiB is found in the whole.
   */
  lemma ScanOfPrefix(b: Buffer, n: nat)
    requires n <= |b|
    ensures Scan(b[..n]) <= Scan(b)
  {
    if HasSignature(b[..n]) {
      assert b[..n][..7] == b[..7];
      ScanOfPrefixFrom(b, n, 7);
    }
  }

  // ---------------------------------------------------------------------------
  // The block layout

  datatype Block =
    | File(crc: Buffer, flags: nat, unpackedSize: nat, stamp: Buffer, compression: Byte, attributes: Buffer,
           name: Buffer, extra: Buffer, data: Buffer)
    | Other(crc: Buffer, kind: Byte, flags: nat, fields: Buffer, data: Buffer)
  {
    predicate Large() {
      HasFlag(flags, LARGE)
    }

    /** Sizes as the format allows them; a size above 32 bits needs the large flag. */
    predicate WellFormed() {
      && |crc| == 2 && flags < 0x1_0000 && HeadLength() < 0x1_0000
      && match this
         case File(_, _, _, stamp, _, attributes, _, _, data) =>
           && |stamp| == 10 && |attributes| == 4 && HasFlag(flags, HAS_DATA)
           && (if Large() then unpackedSize < TWO32 * TWO32 && |data| < TWO32 * TWO32
               else unpackedSize < TWO32 && |data| < TWO32)
         case Other(_, kind, _, fields, data) =>
           && kind != FILE_BLOCK
           && if HasFlag(flags, HAS_DATA) then |data| < TWO32 && |fields| >= 4 && fields[..4] == Le32(|data|)
              else data == []
    }

    function HeadLength(): nat {
      match this
      case File(_, _, _, _, _, _, name, extra, _) => 7 + (if Large() then 33 else 25) + |name| + |extra|
      case Other(_, _, _, fields, _) => 7 + |fields|
    }

    function Kind(): Byte {
      if File? then FILE_BLOCK else kind
    }

    /** The header behind its seven fixed bytes. */
    function Body(): Buffer
      requires WellFormed()
    {
      match this
      case File(_, _, _, _, _, _, _, _, _) => Sizes() + stamp + [compression] + Le16(|name|) + attributes + HighSizes() + name + extra
      case Other(_, _, _, fields, _) => fields
    }

    function Sizes(): (r: Buffer)
      requires WellFormed() && File?
      ensures |r| == 8
    {
      Le32(|data| % TWO32) + Le32(unpackedSize % TWO32)
    }

    function HighSizes(): (r: Buffer)
      requires WellFormed() && File?
      ensures |r| == if Large() then 8 else 0
    {
      if Large() then Le32(|data| / TWO32) + Le32(unpackedSize / TWO32) else []
    }

    function Head(): (r: Buffer)
      requires WellFormed()
      ensures |r| == HeadLength()
    {
      crc + [Kind()] + Le16(flags) + Le16(HeadLength()) + Body()
    }

    function Encode(): (r: Buffer)
      requires WellFormed()
      ensures |r| == HeadLength() + |data|
    {
      Head() + data
    }

    /** What a parser should say about the block when it stands at `at`. */
    function Header(at: nat): FileHeader
      requires File?
    {
      FileHeader(name, HasFlag(flags, UNICODE), at + HeadLength(), |data|, unpackedSize, compression)
    }
  }

  ghost predicate AllWellFormed(blocks: seq<Block>) {
    forall k | 0 <= k < |blocks| :: blocks[k].WellFormed()
  }

  function EncodeAll(blocks: seq<Block>): Buffer
    requires forall k | 0 <= k < |blocks| :: blocks[k].WellFormed()
  {
    if blocks == [] then [] else blocks[0].Encode() + EncodeAll(blocks[1..])
  }

  /** The file headers of a volume whose blocks start at `at`. */
  function HeadersOf(blocks: seq<Block>, at: nat): seq<FileHeader> {
    if blocks == [] then []
    else
      (if blocks[0].File? then [blocks[0].Header(at)] else [])
      + HeadersOf(blocks[1..], at + blocks[0].HeadLength() + |blocks[0].data|)
  }

  /** `part` stands in `b` at `at`. */
  predicate Stands(part: Buffer, b: Buffer, at: nat) {
    at + |part| <= |b| && b[at..at + |part|] == part
  }

  lemma StandsSplit(first: Buffer, second: Buffer, b: Buffer, at: nat)
    requires Stands(first + second, b, at)
    ensures Stands(first, b, at) && Stands(second, b, at + |first|)
  {
    var whole := b[at..at + |first + second|];
    assert whole[..|first|] == first && whole[|first|..] == second;
  }

  lemma StandsReads(part: Buffer, b: Buffer, at: nat)
    requires Stands(part, b, at)
    ensures forall k | 0 <= k < |part| :: b[at + k] == part[k]
    ensures |part| == 2 ==> U16(b, at) == U16(part, 0)
    ensures |part| == 4 ==> U32(b, at) == U32(part, 0)
  {
    forall k | 0 <= k < |part|
      ensures b[at + k] == part[k]
    {
      assert b[at..at + |part|][k] == b[at + k];
    }
  }

  /** The seven fixed bytes. */
  lemma FixedPart(block: Block, b: Buffer, at: nat)
    requires block.WellFormed() && Stands(block.Head(), b, at)
    ensures HasBlock(b, at) && BlockType(b, at) == block.Kind()
    ensures BlockFlags(b, at) == block.flags && HeadSize(b, at) == block.HeadLength()
    ensures Stands(block.Body(), b, at + 7)
  {
    hide U16, Le16, Block.Body, Block.HeadLength;
    var c, k, f, h := block.crc, [block.Kind()], Le16(block.flags), Le16(block.HeadLength());
    StandsSplit(c + k + f + h, block.Body(), b, at);
    StandsSplit(c + k + f, h, b, at);
    StandsSplit(c + k, f, b, at);
    StandsSplit(c, k, b, at);
    StandsReads(k, b, at + 2);
    StandsReads(f, b, at + 3);
    StandsReads(h, b, at + 5);
  }

  /** Where the fields of a file block's header stand. */
  lemma FileFieldsStand(block: Block, b: Buffer, at: nat)
    requires block.WellFormed() && block.File? && Stands(block.Body(), b, at)
    ensures Stands(block.Sizes(), b, at) && Stands([block.compression], b, at + 18)
    ensures Stands(Le16(|block.name|), b, at + 19) && Stands(block.HighSizes(), b, at + 25)
    ensures Stands(block.name, b, at + 25 + |block.HighSizes()|)
  {
    hide Stands, Le16, Block.Sizes, Block.HighSizes;
    var sizes, high := block.Sizes(), block.HighSizes();
    var stamp, comp, nameSize, attributes := block.stamp, [block.compression], Le16(|block.name|), block.attributes;
    StandsSplit(sizes + stamp + comp + nameSize + attributes + high + block.name, block.extra, b, at);
    StandsSplit(sizes + stamp + comp + nameSize + attributes + high, block.name, b, at);
    StandsSplit(sizes + stamp + comp + nameSize + attributes, high, b, at);
    StandsSplit(sizes + stamp + comp + nameSize, attributes, b, at);
    StandsSplit(sizes + stamp + comp, nameSize, b, at);
    StandsSplit(sizes + stamp, comp, b, at);
    StandsSplit(sizes, stamp, b, at);
  }

  /** A file block reads back as its header. */
  lemma FileBlockReads(block: Block, b: Buffer, at: nat)
    requires block.WellFormed() && block.File? && Stands(block.Head(), b, at)
    ensures HasBlock(b, at) && IsFileBlock(b, at) && NameFits(b, at)
    ensures HeaderAt(b, at) == block.Header(at)
    ensures AddSize(b, at) == |block.data| % TWO32
  {
    hide U16, U32, Le16, Le32, HasFlag, Block.Body, Block.Head;
    FixedPart(block, b, at);
    FileFieldsStand(block, b, at + 7);
    SizesRead(|block.data| % TWO32, block.unpackedSize % TWO32, b, at + 7);
    StandsReads([block.compression], b, at + 7 + 18);
    StandsReads(Le16(|block.name|), b, at + 7 + 19);
    if block.Large() {
      SizesRead(|block.data| / TWO32, block.unpackedSize / TWO32, b, at + 7 + 25);
    }
  }

  lemma SizesRead(first: nat, second: nat, b: Buffer, at: nat)
    requires first < TWO32 && second < TWO32 && Stands(Le32(first) + Le32(second), b, at)
    ensures at + 8 <= |b| && U32(b, at) == first && U32(b, at + 4) == second
  {
    StandsSplit(Le32(first), Le32(second), b, at);
    StandsReads(Le32(first), b, at);
    StandsReads(Le32(second), b, at + 4);
    Le32RoundTrip(first);
    Le32RoundTrip(second);
  }

  /** Any other block is skipped with its data. */
  lemma OtherBlockReads(block: Block, b: Buffer, at: nat)
    requires block.WellFormed() && block.Other? && Stands(block.Head(), b, at)
    ensures HasBlock(b, at) && !IsFileBlock(b, at) && AddSize(b, at) == |block.data|
  {
    FixedPart(block, b, at);
    if HasFlag(block.flags, HAS_DATA) {
      StandsSplit(block.fields[..4], block.fields[4..], b, at + 7);
      assert block.fields[..4] + block.fields[4..] == block.fields;
      StandsReads(Le32(|block.data|), b, at + 7);
      Le32RoundTrip(|block.data|);
    }
  }

  // ---------------------------------------------------------------------------
  // Round trip

  /** How far the scan goes past a block's header: only 32 bits of a file's packed size count. */
  function Skip(block: Block): nat {
    if block.File? then |block.data| % TWO32 else |block.data|
  }

  /** The scan goes on behind a block's header and as many data bytes as it takes to be there. */
  lemma ScanStep(block: Block, b: Buffer, at: nat)
    requires block.WellFormed() && Stands(block.Head(), b, at)
    ensures var next := at + block.HeadLength() + Skip(block);
      ScanFrom(b, at) == (if block.File? then [block.Header(at)] else []) + (if next <= |b| then ScanFrom(b, next) else [])
  {
    hide Stands, HeaderAt, NameFits, AddSize, Block.Head, Block.WellFormed, Block.Header;
    FixedPart(block, b, at);
    if block.File? {
      FileBlockReads(block, b, at);
    } else {
      OtherBlockReads(block, b, at);
    }
  }

  /** The scan steps from block to block as long as the packed sizes fit 32 bits, and goes on behind them. */
  lemma {:induction false} ScanPassesBlocks(b: Buffer, at: nat, blocks: seq<Block>, tail: Buffer)
    requires AllWellFormed(blocks) && at <= |b| && b[at..] == EncodeAll(blocks) + tail
    requires forall k | 0 <= k < |blocks| :: |blocks[k].data| < TWO32
    ensures |tail| <= |b| && ScanFrom(b, at) == HeadersOf(blocks, at) + ScanFrom(b, |b| - |tail|)
    decreases |blocks|
  {
    hide ScanFrom, EncodeAll, Skip, Stands, HeadersOf, HasFlag;
    hide Block.WellFormed, Block.Head, Block.Encode, Block.Header, Block.HeadLength;
    if blocks == [] {
      NoHeaders(at);
      assert b[at..] == tail;
    } else {
      var block, rest := blocks[0], blocks[1..];
      BlockStandsBefore(b, at, blocks, tail);
      HeadersStep(blocks, at);
      SkipsAll(block);
      ScanStep(block, b, at);
      ScanPassesBlocks(b, at + block.HeadLength() + |block.data|, rest, tail);
    }
  }

  lemma NoHeaders(at: nat)
    ensures EncodeAll([]) == [] && HeadersOf([], at) == []
  {
  }

  lemma ScanOfBlocks(b: Buffer, at: nat, blocks: seq<Block>)
    requires AllWellFormed(blocks) && at <= |b| && b[at..] == EncodeAll(blocks)
    requires forall k | 0 <= k < |blocks| :: |blocks[k].data| < TWO32
    ensures ScanFrom(b, at) == HeadersOf(blocks, at)
  {
    hide ScanFrom, EncodeAll, HeadersOf;
    assert EncodeAll(blocks) + [] == EncodeAll(blocks);
    ScanPassesBlocks(b, at, blocks, []);
    NoRoomForBlock(b, |b|);
  }

  /**
   Damage ends the scan where it stands: a header that is cut off, or a file name that runs
   past its header, hides everything behind it and nothing before it.
   */
  lemma DamageEndsScan(blocks: seq<Block>, tail: Buffer)
    requires AllWellFormed(blocks) && forall k | 0 <= k < |blocks| :: |blocks[k].data| < TWO32
    requires var b := SIGNATURE + EncodeAll(blocks) + tail;
      var at := |b| - |tail|;
      !HasBlock(b, at) || (IsFileBlock(b, at) && !NameFits(b, at))
    ensures Scan(SIGNATURE + EncodeAll(blocks) + tail) == HeadersOf(blocks, 7)
  {
    hide EncodeAll, HeadersOf, HasBlock, IsFileBlock, NameFits, ScanFrom;
    var b := SIGNATURE + EncodeAll(blocks) + tail;
    assert b[..7] == SIGNATURE && b[7..] == EncodeAll(blocks) + tail;
    ScanPassesBlocks(b, 7, blocks, tail);
    ScanUnfolds(b, |b| - |tail|);
  }

  lemma SkipsAll(block: Block)
    requires |block.data| < TWO32
    ensures Skip(block) == |block.data|
  {
  }

  /** Three pieces from `at` on. */
  lemma StandInTurn(b: Buffer, at: nat, first: Buffer, second: Buffer, rest: Buffer)
    requires at <= |b| && b[at..] == first + second + rest
    ensures Stands(first, b, at) && Stands(second, b, at + |first|)
    ensures at + |first| + |second| <= |b| && b[at + |first| + |second|..] == rest
  {
    var from := b[at..];
    assert from[..|first|] == first && from[|first|..|first| + |second|] == second && from[|first| + |second|..] == rest;
  }

  lemma BlockStandsBefore(b: Buffer, at: nat, blocks: seq<Block>, tail: Buffer)
    requires AllWellFormed(blocks) && blocks != [] && at <= |b| && b[at..] == EncodeAll(blocks) + tail
    ensures Stands(blocks[0].Head(), b, at)
    ensures var next := at + blocks[0].HeadLength() + |blocks[0].data|;
      next <= |b| && b[next..] == EncodeAll(blocks[1..]) + tail
  {
    hide Block.Head, Block.WellFormed, Block.HeadLength, Stands;
    var head, data, rest := blocks[0].Head(), blocks[0].data, EncodeAll(blocks[1..]);
    Reassociate(head + data, rest, tail);
    StandInTurn(b, at, head, data, rest + tail);
  }

  lemma BlockStands(b: Buffer, at: nat, blocks: seq<Block>)
    requires AllWellFormed(blocks) && blocks != [] && at <= |b| && b[at..] == EncodeAll(blocks)
    ensures Stands(blocks[0].Head(), b, at)
    ensures Stands(blocks[0].data, b, at + blocks[0].HeadLength())
    ensures var next := at + blocks[0].HeadLength() + |blocks[0].data|;
      next <= |b| && b[next..] == EncodeAll(blocks[1..])
  {
    hide Block.Head, Block.WellFormed, Block.HeadLength, Stands;
    StandInTurn(b, at, blocks[0].Head(), blocks[0].data, EncodeAll(blocks[1..]));
  }

  /**
   For any volume of well-formed blocks with packed sizes below 4 GiB the parser finds
   exactly its file headers, with name, sizes, method and data position.
   */
  lemma RarRoundTrip(blocks: seq<Block>)
    requires AllWellFormed(blocks) && forall k | 0 <= k < |blocks| :: |blocks[k].data| < TWO32
    ensures Scan(SIGNATURE + EncodeAll(blocks)) == HeadersOf(blocks, 7)
  {
    var b := SIGNATURE + EncodeAll(blocks);
    assert b[..7] == SIGNATURE && b[7..] == EncodeAll(blocks);
    ScanOfBlocks(b, 7, blocks);
  }

  /** Every header found names the data of a file block of the volume. */
  lemma {:induction false} HeadersNameData(b: Buffer, at: nat, blocks: seq<Block>, h: FileHeader) returns (block: Block)
    requires AllWellFormed(blocks) && at <= |b| && b[at..] == EncodeAll(blocks) && h in HeadersOf(blocks, at)
    ensures block in blocks && block.File? && block.name == h.rawName && block.compression == h.compression
    ensures h.packedSize == |block.data| && Stands(block.data, b, h.dataStart)
    decreases |blocks|
  {
    hide Block.WellFormed, Block.Head, Block.Encode, EncodeAll;
    BlockStands(b, at, blocks);
    if blocks[0].File? && h == blocks[0].Header(at) {
      block := blocks[0];
    } else {
      block := HeadersNameData(b, at + blocks[0].HeadLength() + |blocks[0].data|, blocks[1..], h);
    }
  }

  // ---------------------------------------------------------------------------
  // Exactly which volumes the scan understands

  /** The same block with other data of the same size. */
  predicate SameSize(a: Block, b: Block) {
    |a.data| == |b.data| && a.(data := b.data) == b
  }

  ghost predicate SameSizes(a: seq<Block>, b: seq<Block>) {
    |a| == |b| && forall k | 0 <= k < |a| :: SameSize(a[k], b[k])
  }

  /** The beginning of a volume, all of it if it is shorter. */
  function FirstBytes(b: Buffer, n: nat): (r: Buffer)
    ensures |r| == Min(n, |b|)
  {
    b[..Min(n, |b|)]
  }

  const MIN_FILE_HEAD := 32

  /**
   The first block of 4 GiB or more, if there is one, is so placed that the scan, which
   skips only the low 32 bits of its size, finds no room for a file header in the
   first `n` bytes of the volume. The blocks start at `at`.
   */
  predicate HeadReadable(blocks: seq<Block>, at: nat, n: nat) {
    if blocks == [] then true
    else if |blocks[0].data| < TWO32 then HeadReadable(blocks[1..], at + blocks[0].HeadLength() + |blocks[0].data|, n)
    else at + blocks[0].HeadLength() + |blocks[0].data| % TWO32 + MIN_FILE_HEAD > n
  }

  lemma StandsInPrefix(part: Buffer, b: Buffer, n: nat, at: nat)
    requires Stands(part, b, at) && at + |part| <= n
    ensures Stands(part, FirstBytes(b, n), at)
  {
    assert FirstBytes(b, n)[at..at + |part|] == b[at..at + |part|];
  }

  /** A header that is cut off is not seen. */
  lemma CutHead(block: Block, b: Buffer, n: nat, at: nat)
    requires block.WellFormed() && Stands(block.Head(), b, at) && at + block.HeadLength() > n
    ensures ScanFrom(FirstBytes(b, n), at) == []
  {
    hide Block.WellFormed, Block.Head, Block.Body, Stands, HeadSize, BlockFlags, AddSize, IsFileBlock, NextScan;
    var p := FirstBytes(b, n);
    FixedPart(block, b, at);
    if HasBlock(p, at) {
      PrefixReads(b, |p|, at);
      BlockMoves(p, at);
    }
  }

  /** Without room for a file header none is found. */
  lemma {:induction false} NoRoomForFile(b: Buffer, at: nat)
    requires at + MIN_FILE_HEAD > |b|
    ensures ScanFrom(b, at) == []
    decreases |b| - at
  {
    hide AddSize, HeadSize, NameFits, HeaderAt;
    ScanUnfolds(b, at);
    if HasBlock(b, at) {
      BlockMoves(b, at);
      var next := at + HeadSize(b, at) + AddSize(b, at);
      if next <= |b| {
        NoRoomForFile(b, next);
      }
    }
  }

  lemma PrefixOfAppend<T>(a: seq<T>, b: seq<T>, c: seq<T>)
    ensures a + b <= a + c <==> b <= c
  {
    if a + b <= a + c {
      assert b == (a + b)[|a|..] && c == (a + c)[|a|..];
    }
  }

  /** From a readable beginning the scan takes a prefix of the volume's headers. */
  lemma {:induction false} ScanOfHead(b: Buffer, n: nat, at: nat, blocks: seq<Block>)
    requires AllWellFormed(blocks) && at <= |b| && b[at..] == EncodeAll(blocks) && HeadReadable(blocks, at, n)
    ensures ScanFrom(FirstBytes(b, n), at) <= HeadersOf(blocks, at)
    decreases |blocks|
  {
    hide ScanFrom, EncodeAll, HeadersOf, Stands, Block.WellFormed, Block.Head, Block.Encode, Block.Header, Block.HeadLength;
    if blocks == [] {
      NoBytesLeft(b, at);
      NoRoomForBlock(FirstBytes(b, n), at);
    } else {
      var block, rest := blocks[0], blocks[1..];
      BlockStands(b, at, blocks);
      HeadersStep(blocks, at);
      if |block.data| < TWO32 {
        var next := at + block.HeadLength() + |block.data|;
        ScanOfHead(b, n, next, rest);
        ScanPastSmall(block, b, n, at, HeadersOf(rest, next));
      } else {
        ScanUpToLarge(block, b, n, at);
      }
    }
  }

  lemma ScanPastSmall(block: Block, b: Buffer, n: nat, at: nat, later: seq<FileHeader>)
    requires block.WellFormed() && Stands(block.Head(), b, at) && |block.data| < TWO32
    requires ScanFrom(FirstBytes(b, n), at + block.HeadLength() + |block.data|) <= later
    ensures ScanFrom(FirstBytes(b, n), at) <= (if block.File? then [block.Header(at)] else []) + later
  {
    hide ScanFrom, Stands, Block.WellFormed, Block.Head, Block.Header, Block.HeadLength;
    if at + block.HeadLength() > n {
      CutHead(block, b, n, at);
    } else {
      HeadLengthIs(block);
      StandsInPrefix(block.Head(), b, n, at);
      SkipsAll(block);
      ScanStep(block, FirstBytes(b, n), at);
      PrefixOfAppend(if block.File? then [block.Header(at)] else [],
                     ScanFrom(FirstBytes(b, n), at + block.HeadLength() + |block.data|), later);
    }
  }

  lemma ScanUpToLarge(block: Block, b: Buffer, n: nat, at: nat)
    requires block.WellFormed() && Stands(block.Head(), b, at) && |block.data| >= TWO32
    requires at + block.HeadLength() + |block.data| % TWO32 + MIN_FILE_HEAD > n
    ensures ScanFrom(FirstBytes(b, n), at) <= (if block.File? then [block.Header(at)] else [])
  {
    hide ScanFrom, Stands, Block.WellFormed, Block.Head, Block.Header, Block.HeadLength;
    if at + block.HeadLength() > n {
      CutHead(block, b, n, at);
    } else {
      HeadLengthIs(block);
      LargeIsFile(block);
      StandsInPrefix(block.Head(), b, n, at);
      ScanStep(block, FirstBytes(b, n), at);
      NoRoomForFile(FirstBytes(b, n), at + block.HeadLength() + Skip(block));
    }
  }

  lemma NoBytesLeft(b: Buffer, at: nat)
    requires at <= |b| && b[at..] == EncodeAll([])
    ensures at == |b|
  {
    assert |b[at..]| == 0;
  }

  lemma HeadLengthIs(block: Block)
    requires block.WellFormed()
    ensures |block.Head()| == block.HeadLength() >= 7
  {
  }

  /** Only a file block can have so much data. */
  lemma LargeIsFile(block: Block)
    requires block.WellFormed() && |block.data| >= TWO32
    ensures block.File? && Skip(block) == |block.data| % TWO32
  {
  }

  // ---------------------------------------------------------------------------
  // What goes wrong in the others

  /** The smallest header of a file block. */
  const SMALL_FILE := File([0, 0], HAS_DATA, 0, seq(10, _ => 0), 0x30, [0, 0, 0, 0], [], [], [])

  lemma SmallFileIsFile()
    ensures SMALL_FILE.WellFormed() && SMALL_FILE.HeadLength() == MIN_FILE_HEAD == |SMALL_FILE.Head()|
  {
    assert HasFlag(HAS_DATA, HAS_DATA) && !HasFlag(HAS_DATA, LARGE);
  }

  /** The block with such a header in its data, where the scan goes on. */
  lemma Planted(block: Block) returns (planted: Block)
    requires block.WellFormed() && block.File? && |block.data| >= TWO32
    ensures planted.WellFormed() && SameSize(block, planted) && planted.File?
    ensures planted.HeadLength() == block.HeadLength()
    ensures Stands(SMALL_FILE.Head(), planted.data, |block.data| % TWO32)
  {
    SmallFileIsFile();
    hide Block.Head;
    var skip, inner := |block.data| % TWO32, SMALL_FILE.Head();
    var before: Buffer := seq(skip, _ => 0);
    var after: Buffer := seq(|block.data| - skip - MIN_FILE_HEAD, _ => 0);
    var data := before + inner + after;
    planted := File(block.crc, block.flags, block.unpackedSize, block.stamp, block.compression, block.attributes,
                    block.name, block.extra, data);
    assert data[skip..skip + |inner|] == inner;
  }

  /** All headers of blocks from `at` on name data behind `at`. */
  lemma {:induction false} HeadersBehind(blocks: seq<Block>, at: nat)
    ensures forall h | h in HeadersOf(blocks, at) :: h.dataStart >= at
  {
    if blocks != [] {
      HeadersBehind(blocks[1..], at + blocks[0].HeadLength() + |blocks[0].data|);
    }
  }

  lemma {:induction false} UnreadableReaches(blocks: seq<Block>, at: nat, n: nat)
    requires !HeadReadable(blocks, at, n)
    ensures n >= at
  {
    if |blocks[0].data| < TWO32 {
      UnreadableReaches(blocks[1..], at + blocks[0].HeadLength() + |blocks[0].data|, n);
    }
  }

  /** Such a block at the start of `blocks`, with `pre` before it in the volume. */
  lemma MisleadHere(pre: Buffer, blocks: seq<Block>, planted: Block, n: nat)
    requires AllWellFormed(blocks) && blocks != [] && |blocks[0].data| >= TWO32 && !HeadReadable(blocks, |pre|, n)
    requires planted.WellFormed() && SameSize(blocks[0], planted) && planted.File?
    requires planted.HeadLength() == blocks[0].HeadLength()
    requires Stands(SMALL_FILE.Head(), planted.data, |planted.data| % TWO32)
    ensures var others := [planted] + blocks[1..];
      && AllWellFormed(others) && SameSizes(blocks, others)
      && !(ScanFrom(FirstBytes(pre + EncodeAll(others), n), |pre|) <= HeadersOf(others, |pre|))
  {
    hide ScanFrom, EncodeAll, HasFlag, Block.WellFormed, Block.Head, Block.Encode, Block.HeadLength, Block.Header, Stands;
    var at, others := |pre|, [planted] + blocks[1..];
    var b := pre + EncodeAll(others);
    assert b[at..] == EncodeAll(others);
    BlockStands(b, at, others);
    HeadLengthIs(planted);
    SmallFileIsFile();
    var data, far := at + planted.HeadLength(), at + planted.HeadLength() + |planted.data|;
    var near := data + |planted.data| % TWO32;
    StandsWithin(SMALL_FILE.Head(), planted.data, b, |planted.data| % TWO32, data);
    StandsInPrefix(planted.Head(), b, n, at);
    StandsInPrefix(SMALL_FILE.Head(), b, n, near);
    var p := FirstBytes(b, n);
    ScanStep(planted, p, at);
    ScanStep(SMALL_FILE, p, near);
    HeadersBehind(blocks[1..], far);
    HeadersStep(others, at);
    HeaderStart(SMALL_FILE, near);
    assert near + TWO32 <= far;
    NotAPrefix(planted.Header(at), SMALL_FILE.Header(near), ScanFrom(p, at), HeadersOf(others, at), HeadersOf(blocks[1..], far));
  }

  lemma HeadersStep(blocks: seq<Block>, at: nat)
    requires blocks != []
    ensures HeadersOf(blocks, at)
         == (if blocks[0].File? then [blocks[0].Header(at)] else [])
            + HeadersOf(blocks[1..], at + blocks[0].HeadLength() + |blocks[0].data|)
  {
  }

  lemma HeaderStart(block: Block, at: nat)
    requires block.File?
    ensures block.Header(at).dataStart == at + block.HeadLength()
  {
  }

  /** What stands in the data stands in the volume. */
  lemma StandsWithin(part: Buffer, data: Buffer, b: Buffer, within: nat, at: nat)
    requires Stands(part, data, within) && Stands(data, b, at)
    ensures Stands(part, b, at + within)
  {
    PartOfPart(b, at, at + |data|, within, within + |part|);
  }

  /** A header that names data before all later ones is none of them. */
  lemma NotAPrefix(first: FileHeader, wrong: FileHeader, found: seq<FileHeader>, headers: seq<FileHeader>, later: seq<FileHeader>)
    requires |found| >= 2 && found[1] == wrong && headers == [first] + later
    requires forall h | h in later :: h.dataStart > wrong.dataStart
    ensures !(found <= headers)
  {
    if later != [] {
      assert headers[1] == later[0] && later[0] in later;
    }
  }

  /** One block more in front, the same in both. */
  lemma SameSizesCons(block: Block, rest: seq<Block>, tail: seq<Block>)
    requires block.WellFormed() && AllWellFormed(tail) && SameSizes(rest, tail)
    ensures AllWellFormed([block] + tail) && SameSizes([block] + rest, [block] + tail)
    ensures ([block] + tail)[1..] == tail && EncodeAll([block] + tail) == block.Encode() + EncodeAll(tail)
  {
    hide Block.WellFormed, Block.Encode;
    assert ([block] + tail)[1..] == tail;
  }

  /** What is found wrongly behind a block that is passed correctly stays wrong. */
  lemma ScanStaysWrong(block: Block, b: Buffer, n: nat, at: nat, later: seq<FileHeader>)
    requires block.WellFormed() && Stands(block.Head(), b, at) && |block.data| < TWO32
    requires var next := at + block.HeadLength() + |block.data|;
      next <= n && next <= |b| && !(ScanFrom(FirstBytes(b, n), next) <= later)
    ensures !(ScanFrom(FirstBytes(b, n), at) <= (if block.File? then [block.Header(at)] else []) + later)
  {
    hide ScanFrom, Stands, Block.WellFormed, Block.Head, Block.Header, Block.HeadLength;
    HeadLengthIs(block);
    StandsInPrefix(block.Head(), b, n, at);
    SkipsAll(block);
    ScanStep(block, FirstBytes(b, n), at);
    PrefixOfAppend(if block.File? then [block.Header(at)] else [],
                   ScanFrom(FirstBytes(b, n), at + block.HeadLength() + |block.data|), later);
  }

  /** Such a block further on. */
  lemma MisleadLater(b: Buffer, at: nat, blocks: seq<Block>, n: nat)
    requires AllWellFormed(blocks) && blocks != [] && |blocks[0].data| < TWO32
    requires at <= |b| && b[at..] == EncodeAll(blocks)
    requires var next := at + blocks[0].HeadLength() + |blocks[0].data|;
      next <= n && !(ScanFrom(FirstBytes(b, n), next) <= HeadersOf(blocks[1..], next))
    ensures !(ScanFrom(FirstBytes(b, n), at) <= HeadersOf(blocks, at))
  {
    hide ScanFrom, EncodeAll, HeadersOf, FirstBytes, Stands, HasFlag;
    hide Block.WellFormed, Block.Head, Block.Encode, Block.HeadLength, Block.Header;
    BlockStands(b, at, blocks);
    HeadersStep(blocks, at);
    ScanStaysWrong(blocks[0], b, n, at, HeadersOf(blocks[1..], at + blocks[0].HeadLength() + |blocks[0].data|));
  }

  lemma Suffix(a: Buffer, b: Buffer)
    ensures (a + b)[|a|..] == b
  {
  }

  /** An unreadable beginning can be misread: some data of the sizes given makes the scan find what is not there. */
  lemma {:induction false} Mislead(pre: Buffer, blocks: seq<Block>, n: nat) returns (others: seq<Block>)
    requires AllWellFormed(blocks) && !HeadReadable(blocks, |pre|, n)
    ensures AllWellFormed(others) && SameSizes(blocks, others)
    ensures !(ScanFrom(FirstBytes(pre + EncodeAll(others), n), |pre|) <= HeadersOf(others, |pre|))
    decreases |blocks|
  {
    hide ScanFrom, EncodeAll, Stands, Block.Head, Block.Header, Block.HeadLength;
    var block, rest := blocks[0], blocks[1..];
    if |block.data| < TWO32 {
      var tail := Mislead(pre + block.Encode(), rest, n);
      others := [block] + tail;
      SameSizesCons(block, rest, tail);
      UnreadableReaches(rest, |pre + block.Encode()|, n);
      Reassociate(pre, block.Encode(), EncodeAll(tail));
      Suffix(pre, EncodeAll(others));
      MisleadLater(pre + EncodeAll(others), |pre|, others, n);
      assert blocks == [block] + rest;
    } else {
      LargeIsFile(block);
      var planted := Planted(block);
      others := [planted] + rest;
      MisleadHere(pre, blocks, planted, n);
    }
  }

  // ---------------------------------------------------------------------------
  // The two together

  /** What sizes alone decide is the same for all contents. */
  lemma {:induction false} SizesDecide(blocks: seq<Block>, others: seq<Block>, at: nat, n: nat)
    requires SameSizes(blocks, others)
    ensures HeadReadable(blocks, at, n) == HeadReadable(others, at, n)
  {
    if blocks != [] {
      assert SameSize(blocks[0], others[0]);
      SizesDecide(blocks[1..], others[1..], at + blocks[0].HeadLength() + |blocks[0].data|, n);
    }
  }

  /** Every content of these sizes, parsed from its first `n` bytes, gives a prefix of its headers. */
  ghost predicate HeadRoundTrips(blocks: seq<Block>, n: nat) {
    forall others | SameSizes(blocks, others) && AllWellFormed(others) ::
      Scan(FirstBytes(SIGNATURE + EncodeAll(others), n)) <= HeadersOf(others, 7)
  }

  /**
   Which volumes can be indexed from their first `n` bytes, as far as heads and sizes
   decide: those with a readable beginning, and no others.
   */
  lemma RarHeadRoundTripIff(blocks: seq<Block>, n: nat)
    requires AllWellFormed(blocks)
    ensures HeadRoundTrips(blocks, n) <==> HeadReadable(blocks, 7, n)
  {
    hide HeadReadable, ScanFrom, EncodeAll, HeadersOf, Block.WellFormed;
    if HeadReadable(blocks, 7, n) {
      forall others | SameSizes(blocks, others) && AllWellFormed(others)
        ensures Scan(FirstBytes(SIGNATURE + EncodeAll(others), n)) <= HeadersOf(others, 7)
      {
        SizesDecide(blocks, others, 7, n);
        RarHeadRoundTrip(others, n);
      }
    } else {
      var others := Mislead(SIGNATURE, blocks, n);
      UnreadableReaches(blocks, 7, n);
      var b := SIGNATURE + EncodeAll(others);
      assert FirstBytes(b, n)[..7] == SIGNATURE;
    }
  }

  /** From a readable beginning comes the beginning of the header list. */
  lemma RarHeadRoundTrip(blocks: seq<Block>, n: nat)
    requires AllWellFormed(blocks) && HeadReadable(blocks, 7, n)
    ensures Scan(FirstBytes(SIGNATURE + EncodeAll(blocks), n)) <= HeadersOf(blocks, 7)
  {
    hide ScanFrom, EncodeAll, HeadersOf, HeadReadable;
    var b := SIGNATURE + EncodeAll(blocks);
    assert b[7..] == EncodeAll(blocks);
    ScanOfHead(b, n, 7, blocks);
  }

  /** Every content of these sizes, parsed whole, gives back its headers. */
  ghost predicate RoundTrips(blocks: seq<Block>) {
    forall others | SameSizes(blocks, others) && AllWellFormed(others) ::
      Scan(SIGNATURE + EncodeAll(others)) == HeadersOf(others, 7)
  }

  /** Parsing whole volumes inverts their encoding for all contents exactly when every packed size is below 4 GiB. */
  lemma RarRoundTripIff(blocks: seq<Block>)
    requires AllWellFormed(blocks)
    ensures RoundTrips(blocks) <==> forall k | 0 <= k < |blocks| :: |blocks[k].data| < TWO32
  {
    hide Scan, EncodeAll, HeadersOf, HeadReadable;
    if forall k | 0 <= k < |blocks| :: |blocks[k].data| < TWO32 {
      forall others | SameSizes(blocks, others) && AllWellFormed(others)
        ensures Scan(SIGNATURE + EncodeAll(others)) == HeadersOf(others, 7)
      {
        assert forall k | 0 <= k < |others| :: SameSize(blocks[k], others[k]);
        RarRoundTrip(others);
      }
    } else {
      var n := 7 + TotalLength(blocks);
      LargeIsUnreadable(blocks, 7);
      RarHeadRoundTripIff(blocks, n);
      var others :| SameSizes(blocks, others) && AllWellFormed(others)
                 && !(Scan(FirstBytes(SIGNATURE + EncodeAll(others), n)) <= HeadersOf(others, 7));
      EncodedLength(others);
      SameTotal(blocks, others);
      var b := SIGNATURE + EncodeAll(others);
      assert FirstBytes(b, n) == b;
    }
  }

  function TotalLength(blocks: seq<Block>): nat {
    if blocks == [] then 0 else blocks[0].HeadLength() + |blocks[0].data| + TotalLength(blocks[1..])
  }

  lemma {:induction false} EncodedLength(blocks: seq<Block>)
    requires AllWellFormed(blocks)
    ensures |EncodeAll(blocks)| == TotalLength(blocks)
  {
    if blocks != [] {
      EncodedLength(blocks[1..]);
    }
  }

  lemma {:induction false} SameTotal(blocks: seq<Block>, others: seq<Block>)
    requires SameSizes(blocks, others)
    ensures TotalLength(blocks) == TotalLength(others)
  {
    if blocks != [] {
      assert SameSize(blocks[0], others[0]);
      SameTotal(blocks[1..], others[1..]);
    }
  }

  /** In a whole volume there is always room for the wrong header. */
  lemma {:induction false} LargeIsUnreadable(blocks: seq<Block>, at: nat)
    requires exists k :: 0 <= k < |blocks| && |blocks[k].data| >= TWO32
    ensures !HeadReadable(blocks, at, at + TotalLength(blocks))
  {
    if |blocks[0].data| < TWO32 {
      var k :| 0 <= k < |blocks| && |blocks[k].data| >= TWO32;
      assert blocks[1..][k - 1] == blocks[k];
      LargeIsUnreadable(blocks[1..], at + blocks[0].HeadLength() + |blocks[0].data|);
    }
  }
}
