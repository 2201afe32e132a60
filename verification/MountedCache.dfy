/**
 Cached reads of a mounted file: `readMountedFileRange` of
 src/services/mountedStream.service.ts with its session windows, path windows and
 the chunk cache on disk.

 Every `await` of the source is a call to `Await`, behind which other reads,
 writes and evictions may have changed everything except the fact `Valid` states.
 So each method is proved for every interleaving with the others.
 */
module MountedCache {
  import opened Bytes
  import opened Options
  import opened SegmentCache
  import opened Segments
  import opened YencParts
  import opened MountedReaders

  const CHUNK := 8 * 1024 * 1024
  const READ_AHEAD_MAX := 512 * 1024 * 1024
  const SEQUENTIAL_WINDOW := 512 * 1024 * 1024
  const RANDOM_ACCESS_WINDOW := 4 * 1024 * 1024
  const SEQUENTIAL_SLACK := 256 * 1024

  type ChunkKey = (string, nat)

  datatype DirectFile = DirectFile(fileId: string, size: int, segs: seq<Segment>, infos: seq<Option<PartInfo>>)

  datatype Window = Window(path: string, bufferStart: nat, buffer: Buffer, lastReadEnd: int)

  datatype IndexEntry = IndexEntry(start: nat, end: int, size: nat)

  function AlignDown(position: nat): (r: nat)
    ensures r <= position < r + CHUNK && r % CHUNK == 0
  {
    position / CHUNK * CHUNK
  }

  /** `readFromMountedWindow`: the window answers only what it covers whole. */
  function FromWindow(window: Option<Window>, path: string, start: nat, length: nat): Option<Buffer> {
    if window.Some?
      && window.value.path == path
      && start >= window.value.bufferStart
      && start + length <= window.value.bufferStart + |window.value.buffer|
    then
      var offset := start - window.value.bufferStart;
      Some(Subarray(window.value.buffer, offset, offset + length))
    else
      None
  }

  /** Everything about the mount that changes. */
  datatype State = State(
    sessions: map<string, Window>,
    pathWindows: map<string, Window>,
    chunkIndex: map<ChunkKey, IndexEntry>,
    disk: map<ChunkKey, Buffer>,
    pendingWrites: map<(string, nat, nat), Buffer>,
    streamCacheEnabled: bool,
    streamReadAheadBytes: nat)

  /** The buffer is the file's content from `at` on. */
  ghost predicate Shows(buffer: Buffer, at: nat, content: Buffer) {
    buffer == Slice(content, at, |buffer|)
  }

  /** A cached chunk: 8 MiB, aligned, inside the file, and equal to it there. */
  ghost predicate IsChunkOf(at: nat, chunk: Buffer, content: Buffer) {
    at % 0x80_0000 == 0 && at + 0x80_0000 <= |content| && chunk == content[at..at + 0x80_0000]
  }

  /** The positions whose 8 MiB a buffer at `start` fills completely. */
  predicate FillsChunk(at: nat, start: nat, length: nat) {
    at % 0x80_0000 == 0 && start <= at && at + 0x80_0000 <= start + length
  }

  lemma NothingFillsChunk(start: nat)
    ensures forall at: nat :: !FillsChunk(at, start, 0)
  {
  }

  lemma NoEarlierChunk(start: nat, length: nat, first: nat)
    requires first == AlignDown(start)
    ensures forall at: nat | FillsChunk(at, start, length) :: first <= at
  {
  }

  lemma NoLaterChunk(start: nat, length: nat, end: nat)
    requires start + length <= end
    ensures forall at: nat | FillsChunk(at, start, length) :: at < end
  {
  }

  /** The persisting loop's step: which chunk the positions below the next boundary add. */
  lemma OneMoreChunk(start: nat, length: nat, chunkStart: nat)
    requires chunkStart % CHUNK == 0 && AlignDown(start) <= chunkStart < start + length
    ensures FillsChunk(chunkStart, start, length)
       <==> Min(length, chunkStart + CHUNK - start) - Max(0, chunkStart - start) == CHUNK
    ensures forall at: nat | FillsChunk(at, start, length) && at < chunkStart + CHUNK :: at <= chunkStart
  {
  }

  /** Reading any byte of the file directly gives the file's content. */
  ghost predicate Served(file: DirectFile, starts: seq<int>, articles: Articles, content: Buffer) {
    && file.size == |content|
    && |file.infos| == |file.segs|
    && forall offset | 0 <= offset < |content| :: Locatable(starts, file.segs, file.infos, articles, content, offset)
  }

  lemma WindowAnswers(w: Window, content: Buffer, path: string, start: nat, length: nat)
    requires Shows(w.buffer, w.bufferStart, content) && FromWindow(Some(w), path, start, length).Some?
    ensures FromWindow(Some(w), path, start, length).value == Slice(content, start, length)
  {
    SliceOfSlice(content, w.bufferStart, |w.buffer|, start - w.bufferStart, length);
  }

  /** One more chunk of a cached range. */
  lemma CachedChunkJoins(content: Buffer, start: nat, total: nat, at: nat, chunk: Buffer, from: nat, to: nat, done: Buffer)
    requires IsChunkOf(at, chunk, content)
    requires from <= to <= |chunk| && at + from == start + total
    requires done == Slice(content, start, total)
    ensures done + chunk[from..to] == Slice(content, start, total + (to - from))
  {
    PartOfPart(content, at, at + CHUNK, from, to);
    assert chunk[from..to] == Slice(content, start + total, to - from);
    SliceJoin(content, start, total, to - from);
  }

  /** The chunk cut out of a fetched buffer. */
  lemma CutChunk(content: Buffer, start: nat, buffer: Buffer, at: nat, from: nat, to: nat)
    requires Shows(buffer, start, content)
    requires from <= to <= |buffer| && start + from == at && to - from == CHUNK && at % CHUNK == 0
    ensures IsChunkOf(at, buffer[from..to], content)
  {
    assert buffer == content[start..start + |buffer|];
    forall k | 0 <= k < CHUNK
      ensures buffer[from..to][k] == content[at..at + CHUNK][k]
    {
      assert buffer[from..to][k] == buffer[from + k] == content[start + (from + k)];
    }
  }

  lemma SlicePrefix(content: Buffer, start: nat, shorter: nat, length: nat)
    requires shorter <= length
    ensures Slice(content, start, shorter) <= Slice(content, start, length)
    ensures start < |content| && length > 0 ==> Slice(content, start, length) != []
  {
  }

  /** What a fresh window from `windowStart` yields for the bytes asked for. */
  lemma FreshWindowAnswers(content: Buffer, windowStart: nat, reach: nat, start: nat, length: nat)
    requires windowStart <= start && reach >= start - windowStart + Min(length, 1)
    ensures var window := WindowOf(content, |content|, windowStart, Min(|content| - windowStart, reach));
      var offset := start - windowStart;
      var out := Subarray(window, offset, offset + Min(length, |window| - offset));
      && Shows(window, windowStart, content)
      && out == Slice(content, start, Min(length, reach - offset))
      && (start < |content| && length > 0 ==> 0 < |out| <= |window| - offset)
  {
    var window := WindowOf(content, |content|, windowStart, Min(|content| - windowStart, reach));
    assert window == Slice(content, windowStart, reach);
    var offset := start - windowStart;
    if offset <= |window| {
      SliceOfSlice(content, windowStart, |window|, offset, Min(length, |window| - offset));
      assert window == Slice(content, windowStart, |window|);
    }
  }

  /** How far behind its chunk boundary a fresh window reaches: for the bytes asked for, the whole read up to 512 MiB. */
  function FreshReach(start: nat, length: nat, sequentialRead: bool, readAhead: nat): (reach: nat)
    ensures reach >= start - AlignDown(start) + Min(length, 1)
    ensures Min(length, reach - (start - AlignDown(start)))
         == Min(length, Max(READ_AHEAD_MAX, length - (start - AlignDown(start))))
  {
    var widest := if sequentialRead then SEQUENTIAL_WINDOW else RANDOM_ACCESS_WINDOW;
    var targetWindow := Max(length, Min(widest, if readAhead != 0 then readAhead else widest));
    var fetchLength := Min(targetWindow, READ_AHEAD_MAX);
    Max(fetchLength + (start - AlignDown(start)), length)
  }

  /**
   A sequential read fetches 512 MiB at a time and any other 4 MiB, or less as far as
   the read-ahead setting is smaller, but never less than was asked for, up to 512 MiB.
   */
  lemma FreshReachMeans(start: nat, length: nat, sequentialRead: bool, readAhead: nat)
    ensures var behind := FreshReach(start, length, sequentialRead, readAhead) - (start - AlignDown(start));
      && (readAhead == 0 && length <= 4 * 1024 * 1024 ==>
            behind == if sequentialRead then 512 * 1024 * 1024 else 4 * 1024 * 1024)
      && (0 < readAhead <= 4 * 1024 * 1024 && length <= 512 * 1024 * 1024 ==> behind == Max(length, readAhead))
      && (length >= 512 * 1024 * 1024 ==> behind == Max(512 * 1024 * 1024, length - (start - AlignDown(start))))
      && (!sequentialRead && 4 * 1024 * 1024 <= length <= 512 * 1024 * 1024 ==> behind == length)
      && (readAhead > 0 && !sequentialRead ==> behind <= FreshReach(start, length, true, readAhead) - (start - AlignDown(start)))
  {
  }

  /** The read goes on at most 256 KiB behind where the window's last read ended. */
  predicate GoesOn(window: Option<Window>, path: string, start: nat) {
    window.Some? && window.value.path == path && 0 <= start - window.value.lastReadEnd <= 0x4_0000
  }

  /** How much of a file of `size` bytes a fresh window holds. */
  function FreshLength(size: nat, start: nat, length: nat, sequentialRead: bool, readAhead: nat): nat {
    Max(0, Min(size - AlignDown(start), FreshReach(start, length, sequentialRead, readAhead)))
  }

  lemma FreshWindowCovers(w: Window, path: string, start: nat, length: nat)
    requires w.path == path && w.bufferStart <= start && start + length <= w.bufferStart + |w.buffer|
    ensures FromWindow(Some(w), path, start, length).Some?
  {
  }

  lemma NothingCached(content: Buffer, start: nat)
    ensures Concat([]) == Slice(content, start, 0) == []
  {
  }

  /** The index and the disk agree on the chunk at `at`. */
  ghost predicate CachedIn(s: State, fileId: string, at: nat) {
    && (fileId, at) in s.chunkIndex && (fileId, at) in s.disk
    && |s.disk[(fileId, at)]| == s.chunkIndex[(fileId, at)].size
  }

  /** The aligned positions whose chunks a range needs. */
  predicate Needs(at: nat, start: nat, length: int) {
    at % CHUNK == 0 && at < start + length && start < at + CHUNK
  }

  /** The needed chunks before `cursor` are cached. */
  ghost predicate CachedBelow(s: State, fileId: string, start: nat, length: int, cursor: int) {
    forall at: nat | Needs(at, start, length) && at < cursor :: CachedIn(s, fileId, at)
  }

  lemma CachedFromFirst(s: State, fileId: string, start: nat, length: int)
    ensures CachedBelow(s, fileId, start, length, AlignDown(start))
  {
  }

  /** One chunk more, or the first that is missing. */
  lemma CachedOneMore(s: State, fileId: string, start: nat, length: int, cursor: nat)
    requires length > 0 && CachedBelow(s, fileId, start, length, cursor)
    requires cursor % CHUNK == 0 && AlignDown(start) <= cursor < start + length
    ensures CachedIn(s, fileId, cursor) <==> CachedBelow(s, fileId, start, length, cursor + CHUNK)
    ensures !CachedIn(s, fileId, cursor) ==> !CachedBelow(s, fileId, start, length, start + length)
  {
    hide CachedIn;
    assert Needs(cursor, start, length);
    assert forall at: nat | Needs(at, start, length) && at < cursor + CHUNK :: at <= cursor;
  }

  lemma CachedToEnd(s: State, fileId: string, start: nat, length: int, cursor: nat)
    requires length > 0 && CachedBelow(s, fileId, start, length, cursor) && cursor >= start + length
    ensures CachedBelow(s, fileId, start, length, start + length)
  {
    hide CachedIn;
  }

  class MountedFiles {
    /** The files by path, and what is known about them. */
    const files: map<string, DirectFile>
    /** Where all articles come from. */
    const cache: ArticleCache
    ghost const starts: map<string, seq<int>>
    ghost const contents: map<string, Buffer>

    /** Nobody else uses the mount, and its cache neither expires nor fails. */
    const quiet: bool

    var sessions: map<string, Window>
    var pathWindows: map<string, Window>
    var chunkIndex: map<ChunkKey, IndexEntry>
    var disk: map<ChunkKey, Buffer>
    /** Writes under way, by file, start and length, as the source's set of keys. */
    var pendingWrites: map<(string, nat, nat), Buffer>
    /** The policy settings these methods read. */
    var streamCacheEnabled: bool
    var streamReadAheadBytes: nat
    /** How often a window was read from articles. */
    ghost var directReads: nat

    ghost function Current(): State
      reads this
    {
      State(sessions, pathWindows, chunkIndex, disk, pendingWrites, streamCacheEnabled, streamReadAheadBytes)
    }

    /** The chunk at `at` can be answered from disk. */
    ghost predicate CachedAt(fileId: string, at: nat)
      reads this
    {
      CachedIn(Current(), fileId, at)
    }

    ghost function ContentOf(path: string): Buffer
      requires path in files && files[path].fileId in contents
    {
      contents[files[path].fileId]
    }

    /** The mount as configured: fixed, so no interference touches it. */
    ghost predicate Mounted() {
      forall path | path in files ::
        && path in starts && files[path].fileId in contents
        && Served(files[path], starts[path], cache.articles, ContentOf(path))
        && SoleUsers(cache.refs, files[path].segs)
    }

    ghost predicate WindowsValid(windows: map<string, Window>)
      requires Mounted()
    {
      forall key | key in windows :: windows[key].path in files && Shows(windows[key].buffer, windows[key].bufferStart, ContentOf(windows[key].path))
    }

    ghost predicate DiskValid()
      reads this
    {
      forall key | key in disk :: key.0 in contents && IsChunkOf(key.1, disk[key], contents[key.0])
    }

    ghost predicate PendingValid()
      reads this
    {
      forall key | key in pendingWrites ::
        key.0 in contents && Shows(pendingWrites[key], key.1, contents[key.0])
    }

    ghost predicate Valid()
      reads this, cache
    {
      cache.Valid() && Mounted() && WindowsValid(sessions) && WindowsValid(pathWindows) && DiskValid() && PendingValid()
    }

    constructor (quiet: bool, files: map<string, DirectFile>, cache: ArticleCache,
                 ghost starts: map<string, seq<int>>, ghost contents: map<string, Buffer>)
      requires cache.Valid()
      requires forall path | path in files ::
        && path in starts && files[path].fileId in contents
        && Served(files[path], starts[path], cache.articles, contents[files[path].fileId])
        && SoleUsers(cache.refs, files[path].segs)
      ensures Valid()
      ensures this.quiet == quiet
      ensures this.files == files && this.cache == cache && this.starts == starts && this.contents == contents
      ensures sessions == map[] && pathWindows == map[] && chunkIndex == map[] && disk == map[]
    {
      this.quiet := quiet;
      this.files, this.cache, this.starts, this.contents := files, cache, starts, contents;
      sessions, pathWindows, chunkIndex, disk, pendingWrites := map[], map[], map[], map[], map[];
      streamCacheEnabled, streamReadAheadBytes, directReads := false, 0, 0;
    }

    /**
     Other work runs meanwhile. Expiry, pruning and administration remove any windows,
     index entries, chunks and writes, and change the policies; other reads and writes
     add some, and the article cache has a life of its own. All a caller knows afterwards is
     `Valid`, and in a quiet mount that its own state is as before.
     */
    method Await()
      requires Valid()
      modifies this, cache
      ensures Valid()
      ensures quiet ==> Current() == old(Current()) && directReads == old(directReads)
    {
      cache.Await();
      if quiet {
        return;
      }
      var expiredSessions: set<string>, expiredPaths: set<string> := *, *;
      var expiredEntries: set<ChunkKey>, prunedChunks: set<ChunkKey> := *, *;
      var finishedWrites: set<(string, nat, nat)> := *;
      sessions := sessions - expiredSessions;
      pathWindows := pathWindows - expiredPaths;
      chunkIndex := chunkIndex - expiredEntries;
      disk := disk - prunedChunks;
      pendingWrites := pendingWrites - finishedWrites;
      streamCacheEnabled, streamReadAheadBytes, directReads := *, *, *;
    }

    // -------------------------------------------------------------------------
    // The chunk cache

    /** The chunk cache is on and has all of the range. */
    ghost predicate ChunksCached(fileId: string, start: nat, length: int)
      reads this
    {
      streamCacheEnabled && CachedBelow(Current(), fileId, start, length, start + length)
    }

    lemma DiskShows(fileId: string, at: nat)
      requires Valid() && (fileId, at) in disk
      ensures fileId in contents && IsChunkOf(at, disk[(fileId, at)], contents[fileId])
    {
    }

    /** An expired chunk goes from the index and from disk. */
    method DropChunk(fileId: string, at: nat)
      requires Valid()
      modifies this`chunkIndex, this`disk
      ensures Valid()
      ensures chunkIndex == old(chunkIndex) - {(fileId, at)} && disk == old(disk) - {(fileId, at)}
    {
      chunkIndex := chunkIndex - {(fileId, at)};
      disk := disk - {(fileId, at)};
    }

    /** One chunk, if index and disk have it; an expired one is dropped. */
    method ReadChunk(fileId: string, at: nat) returns (r: Option<Buffer>)
      requires Valid() && fileId in contents
      modifies this, cache
      ensures Valid()
      ensures r.Some? ==> IsChunkOf(at, r.value, contents[fileId])
      ensures quiet ==> Current() == old(Current()) && directReads == old(directReads) && (r.Some? <==> CachedIn(Current(), fileId, at))
    {
      hide Valid, IsChunkOf;
      Await();
      if (fileId, at) !in chunkIndex {
        return None;
      }
      var entry := chunkIndex[(fileId, at)];
      var expired: bool := *;
      if expired && !quiet {
        DropChunk(fileId, at);
        return None;
      }
      Await();
      if (fileId, at) !in disk || |disk[(fileId, at)]| != entry.size {
        return None;
      }
      DiskShows(fileId, at);
      return Some(disk[(fileId, at)]);
    }

    /** What one more chunk means for the range: where to cut it, and that it continues what is there. */
    static lemma NextChunk(content: Buffer, start: nat, absoluteEnd: nat, first: nat, cursor: nat, total: nat, chunk: Buffer, done: Buffer)
      requires IsChunkOf(cursor, chunk, content) && first == AlignDown(start) <= cursor < absoluteEnd && cursor % CHUNK == 0
      requires start < absoluteEnd && total == (if cursor == first then 0 else Min(cursor, absoluteEnd) - start)
      requires done == Slice(content, start, total)
      ensures var from, to := if cursor == first then start - cursor else 0, Min(|chunk|, absoluteEnd - cursor);
        && 0 <= from < to <= |chunk|
        && total + (to - from) == Min(cursor + CHUNK, absoluteEnd) - start
        && done + chunk[from..to] == Slice(content, start, total + (to - from))
    {
      hide Slice;
      var from, to := if cursor == first then start - cursor else 0, Min(|chunk|, absoluteEnd - cursor);
      CachedChunkJoins(content, start, total, cursor, chunk, from, to, done);
    }

    /**
     A hit is the whole range, byte for byte; everything else is a miss. In a quiet
     mount a range hits whenever all the chunks it needs are there.
     */
    method ReadCachedRange(fileId: string, start: nat, length: int) returns (r: Option<Buffer>)
      requires Valid() && fileId in contents
      modifies this, cache
      ensures Valid()
      ensures quiet ==> Current() == old(Current()) && directReads == old(directReads)
      ensures quiet ==> (r.Some? <==> length <= 0 || ChunksCached(fileId, start, length))
      ensures r.Some? ==> |r.value| == Max(0, length) && r.value == Slice(contents[fileId], start, Max(0, length))
    {
      hide Valid, Slice, IsChunkOf, Concat, CachedBelow, CachedIn, Needs, AlignDown, CachedAt;
      NothingCached(contents[fileId], start);
      if length <= 0 {
        return Some([]);
      }
      Await();
      if !streamCacheEnabled {
        return None;
      }
      var chunks: seq<Buffer> := [];
      var total := 0;
      var absoluteEnd := start + length;
      var first := AlignDown(start);
      var cursor := first;
      CachedFromFirst(Current(), fileId, start, length);
      while cursor < absoluteEnd
        invariant Valid() && (quiet ==> Current() == old(Current()) && directReads == old(directReads))
        invariant first <= cursor && cursor % CHUNK == 0
        invariant total == |Concat(chunks)| && Concat(chunks) == Slice(contents[fileId], start, total)
        invariant total == if cursor == first then 0 else Min(cursor, absoluteEnd) - start
        invariant quiet ==> CachedBelow(Current(), fileId, start, length, cursor)
      {
        if quiet {
          CachedOneMore(Current(), fileId, start, length, cursor);
        }
        var cached := ReadChunk(fileId, cursor);
        if cached.None? {
          return None;
        }
        var chunk := cached.value;
        NextChunk(contents[fileId], start, absoluteEnd, first, cursor, total, chunk, Concat(chunks));
        var sliceStart := if cursor == first then start - cursor else 0;
        var sliceEnd := Min(|chunk|, absoluteEnd - cursor);
        if sliceEnd <= sliceStart {
          break;
        }
        ConcatSnoc(chunks, chunk[sliceStart..sliceEnd]);
        chunks := chunks + [chunk[sliceStart..sliceEnd]];
        total := total + (sliceEnd - sliceStart);
        cursor := cursor + CHUNK;
      }
      if total < length {
        return None;
      }
      if quiet {
        CachedToEnd(Current(), fileId, start, length, cursor);
      }
      return Some(Concat(chunks));
    }

    method PutOnDisk(fileId: string, start: nat, value: Buffer)
      requires Valid() && fileId in contents && IsChunkOf(start, value, contents[fileId])
      modifies this`disk
      ensures Valid() && disk == old(disk)[(fileId, start) := value]
    {
      hide IsChunkOf, Served, SoleUsers, ArticleCache.Valid, Shows;
      disk := disk[(fileId, start) := value];
    }

    method PutInIndex(fileId: string, start: nat, size: nat)
      requires Valid()
      modifies this`chunkIndex
      ensures Valid() && chunkIndex == old(chunkIndex)[(fileId, start) := IndexEntry(start, start + size - 1, size)]
    {
      hide IsChunkOf, Served, SoleUsers, ArticleCache.Valid, Shows;
      chunkIndex := chunkIndex[(fileId, start) := IndexEntry(start, start + size - 1, size)];
    }

    /** Writing a chunk may fail before or after the file has its new content. */
    method WriteChunk(fileId: string, start: nat, value: Buffer)
      requires Valid() && fileId in contents && IsChunkOf(start, value, contents[fileId])
      modifies this, cache
      ensures Valid()
      ensures quiet ==> CachedAt(fileId, start) && streamCacheEnabled == old(streamCacheEnabled)
      ensures quiet ==> forall at: nat | old(CachedAt(fileId, at)) :: CachedAt(fileId, at)
      ensures quiet ==> disk == old(disk)[(fileId, start) := value]
    {
      assert |value| == CHUNK;
      hide Valid, IsChunkOf;
      if |value| == 0 {
        return;
      }
      Await();
      var failed: bool, renameFailed: bool := *, *;
      if failed && !quiet {
        return;
      }
      if !renameFailed || quiet {
        PutOnDisk(fileId, start, value);
      }
      Await();
      PutInIndex(fileId, start, |value|);
    }

    /**
     Tries to store exactly the aligned chunks the buffer fills. Whatever happens
     meanwhile only true chunks reach the disk; in a quiet mount it gains exactly these
     and loses none, and all of them are cached afterwards.
     */
    method PersistRange(fileId: string, start: nat, buffer: Buffer) returns (ghost attempted: set<nat>)
      requires Valid() && fileId in contents && Shows(buffer, start, contents[fileId])
      modifies this, cache
      ensures Valid()
      ensures attempted == {} || forall at: nat :: at in attempted <==> FillsChunk(at, start, |buffer|)
      ensures quiet && old(streamCacheEnabled) ==>
        forall at: nat | FillsChunk(at, start, |buffer|) :: CachedAt(fileId, at)
      ensures quiet ==> Gained(old(disk), disk, fileId, attempted)
      ensures quiet && old(streamCacheEnabled) ==> forall at: nat :: at in attempted <==> FillsChunk(at, start, |buffer|)
    {
      hide Valid, IsChunkOf, Shows, Slice, CachedAt, FillsChunk, Gained, AlignDown;
      ghost var before := disk;
      attempted := {};
      GainedNothing(before, fileId);
      if |buffer| == 0 {
        NothingFillsChunk(start);
        return;
      }
      Await();
      if !streamCacheEnabled {
        return;
      }
      var rangeEnd := start + |buffer|;
      var chunkStart := AlignDown(start);
      NoEarlierChunk(start, |buffer|, chunkStart);
      while chunkStart < rangeEnd
        invariant Valid()
        invariant AlignDown(start) <= chunkStart && chunkStart % CHUNK == 0
        invariant forall at: nat :: at in attempted <==> FillsChunk(at, start, |buffer|) && at < chunkStart
        invariant quiet ==> forall at: nat | at in attempted :: CachedAt(fileId, at)
        invariant quiet ==> Gained(before, disk, fileId, attempted)
      {
        var sliceStart := Max(0, chunkStart - start);
        var sliceEnd := Min(|buffer|, chunkStart + CHUNK - start);
        var chunk := buffer[sliceStart..sliceEnd];
        OneMoreChunk(start, |buffer|, chunkStart);
        if |chunk| == CHUNK {
          CutChunk(contents[fileId], start, buffer, chunkStart, sliceStart, sliceEnd);
          GainedOneMore(before, disk, fileId, attempted, chunkStart, chunk);
          attempted := attempted + {chunkStart};
          WriteChunk(fileId, chunkStart, chunk);
        }
        chunkStart := chunkStart + CHUNK;
      }
      NoLaterChunk(start, |buffer|, chunkStart);
    }

    /** The disk has what it had before and, new or renewed, the chunks of the file at these positions. */
    ghost predicate Gained(before: map<ChunkKey, Buffer>, now: map<ChunkKey, Buffer>, fileId: string, positions: set<nat>) {
      && (forall key: ChunkKey :: key in now <==> key in before || (key.0 == fileId && key.1 in positions))
      && (forall key: ChunkKey | key in before && !(key.0 == fileId && key.1 in positions) :: now[key] == before[key])
    }

    lemma GainedNothing(disk: map<ChunkKey, Buffer>, fileId: string)
      ensures Gained(disk, disk, fileId, {})
    {
    }

    lemma GainedOneMore(
      before: map<ChunkKey, Buffer>, now: map<ChunkKey, Buffer>, fileId: string, positions: set<nat>, at: nat, value: Buffer)
      ensures Gained(before, now, fileId, positions) ==> Gained(before, now[(fileId, at) := value], fileId, positions + {at})
    {
    }

    /** A write already under way is not started twice. */
    method QueuePersist(fileId: string, start: nat, buffer: Buffer)
      requires Valid() && fileId in contents && Shows(buffer, start, contents[fileId])
      modifies this`pendingWrites
      ensures Valid()
      ensures |buffer| == 0 || (fileId, start, |buffer|) in old(pendingWrites) ==> pendingWrites == old(pendingWrites)
      ensures |buffer| != 0 && (fileId, start, |buffer|) !in old(pendingWrites) ==>
        pendingWrites == old(pendingWrites)[(fileId, start, |buffer|) := buffer]
    {
      if |buffer| == 0 {
        return;
      }
      var key := (fileId, start, |buffer|);
      if key in pendingWrites {
        return;
      }
      pendingWrites := pendingWrites[key := buffer];
    }

    /** A queued write gets its turn. */
    method RunPendingWrite(key: (string, nat, nat))
      requires Valid()
      modifies this, cache
      ensures Valid()
      ensures key in old(pendingWrites) ==> key !in pendingWrites
      ensures quiet && key in old(pendingWrites) && old(streamCacheEnabled) ==>
        forall at: nat | FillsChunk(at, key.1, |old(pendingWrites)[key]|) :: CachedAt(key.0, at)
    {
      if key in pendingWrites {
        var attempted := PersistRange(key.0, key.1, pendingWrites[key]);
        pendingWrites := pendingWrites - {key};
      }
    }

    // -------------------------------------------------------------------------
    // Reads

    method RememberWindow(sessionId: string, window: Window)
      requires Valid() && window.path in files && Shows(window.buffer, window.bufferStart, ContentOf(window.path))
      modifies this`sessions, this`pathWindows
      ensures Valid()
      ensures sessions == old(sessions)[sessionId := window]
      ensures pathWindows == old(pathWindows)[window.path := window]
    {
      sessions := sessions[sessionId := window];
      pathWindows := pathWindows[window.path := window];
    }

    /** What a direct read of a mounted file can count on. */
    lemma ServedParts(path: string, start: nat)
      requires Valid() && path in files
      ensures SoleUsers(cache.refs, files[path].segs) && AllAsked(cache.refs, files[path].segs)
      ensures files[path].size == |ContentOf(path)| && |files[path].infos| == |files[path].segs|
      ensures start < |ContentOf(path)| ==>
        Locatable(starts[path], files[path].segs, files[path].infos, cache.articles, ContentOf(path), start)
    {
      assert Served(files[path], starts[path], cache.articles, ContentOf(path));
    }

    /** A direct read of a mounted file is exact. */
    method ReadDirect(path: string, start: nat, length: int) returns (out: Buffer)
      requires Valid() && path in files
      modifies this, cache
      ensures Valid()
      ensures quiet ==> Current() == old(Current()) && directReads == old(directReads) + 1
      ensures out == WindowOf(ContentOf(path), |ContentOf(path)|, start, length)
    {
      var file := files[path];
      assert Served(file, starts[path], cache.articles, ContentOf(path));
      ServedParts(path, start);
      var r, supply := ReadDirectMountedRange(
        file.segs, file.infos, file.size, start, length, cache, starts[path], ContentOf(path));
      directReads := directReads + 1;
      Await();
      out := r.bytes;
    }

    lemma SessionShows(sessionId: string)
      requires Valid() && sessionId in sessions
      ensures sessions[sessionId].path in files
      ensures Shows(sessions[sessionId].buffer, sessions[sessionId].bufferStart, ContentOf(sessions[sessionId].path))
    {
    }

    lemma PathWindowShows(path: string)
      requires Valid() && path in pathWindows
      ensures pathWindows[path].path in files
      ensures Shows(pathWindows[path].buffer, pathWindows[path].bufferStart, ContentOf(pathWindows[path].path))
    {
    }

    /** The next read of these bytes by this session needs no fetch. */
    ghost predicate InMemory(path: string, start: nat, length: nat, sessionId: string)
      reads this
    {
      || (sessionId in sessions && FromWindow(Some(sessions[sessionId]), path, start, length).Some?)
      || (path in pathWindows && FromWindow(Some(pathWindows[path]), path, start, length).Some?)
    }

    lemma SessionIsInMemory(path: string, start: nat, length: nat, sessionId: string)
      requires sessionId in sessions && FromWindow(Some(sessions[sessionId]), path, start, length).Some?
      ensures InMemory(path, start, length, sessionId)
    {
    }

    /** The first try: the session's own window, then the one of the path. */
    method ReadFromWindows(path: string, start: nat, length: nat, sessionId: string) returns (r: Option<Buffer>)
      requires Valid() && path in files
      modifies this`sessions, this`pathWindows
      ensures Valid()
      ensures r.Some? <==> old(InMemory(path, start, length, sessionId))
      ensures r.Some? ==> r.value == Slice(ContentOf(path), start, length) && |r.value| == length
      ensures r.Some? ==> InMemory(path, start, length, sessionId)
      ensures r.None? ==> Current() == old(Current())
    {
      if sessionId in sessions {
        var cached := sessions[sessionId];
        r := FromWindow(Some(cached), path, start, length);
        if r.Some? {
          SessionShows(sessionId);
          WindowAnswers(cached, ContentOf(path), path, start, length);
          sessions := sessions[sessionId := cached.(lastReadEnd := start + length)];
          return;
        }
      }
      if path in pathWindows {
        var sharedCached := pathWindows[path];
        r := FromWindow(Some(sharedCached), path, start, length);
        if r.Some? {
          PathWindowShows(path);
          WindowAnswers(sharedCached, ContentOf(path), path, start, length);
          pathWindows := pathWindows[path := sharedCached.(lastReadEnd := start + length)];
          return;
        }
      }
      r := None;
    }

    lemma FileSize(path: string)
      requires Valid() && path in files
      ensures files[path].fileId in contents && files[path].size == |ContentOf(path)|
    {
      assert Served(files[path], starts[path], cache.articles, ContentOf(path));
    }

    static lemma WindowLength(content: Buffer, start: nat, length: int)
      requires length <= |content| - start
      ensures |WindowOf(content, |content|, start, length)| == Max(0, length)
    {
    }

    /** The session's own window. */
    function SessionWindow(sessionId: string): Option<Window>
      reads this
    {
      if sessionId in sessions then Some(sessions[sessionId]) else None
    }

    /** A write of a chunk-aligned buffer that covers these bytes is under way. */
    ghost predicate PersistQueued(fileId: string, start: nat, length: nat)
      reads this
    {
      exists key :: key in pendingWrites && key.0 == fileId && key.1 == AlignDown(start) && start + length <= key.1 + key.2
    }

    /**
     The last resort: fetch a window from the chunk boundary before `start`, queue it
     for the chunk cache, remember it, and cut the answer out of it.
     */
    method ReadFreshWindow(path: string, start: nat, length: nat, sessionId: string, sequentialRead: bool, readAhead: nat)
      returns (out: Buffer)
      requires Valid() && path in files
      modifies this, cache
      ensures Valid()
      ensures out == Slice(ContentOf(path), start, Min(length, Max(READ_AHEAD_MAX, length - (start - AlignDown(start)))))
      ensures start < |ContentOf(path)| && length > 0 ==> out != [] && InMemory(path, start, |out|, sessionId)
      ensures start < |ContentOf(path)| && length > 0 ==> PersistQueued(files[path].fileId, start, |out|)
      ensures quiet ==> directReads == old(directReads) + 1
      ensures sessionId in sessions
      ensures |sessions[sessionId].buffer| == FreshLength(|ContentOf(path)|, start, length, sequentialRead, readAhead)
    {
      hide Valid, Slice, Subarray, Shows, WindowOf, AlignDown, FreshReach, InMemory, FromWindow;
      FileSize(path);
      ghost var content := ContentOf(path);
      var file := files[path];
      var windowStart := AlignDown(start);
      var reach := FreshReach(start, length, sequentialRead, readAhead);
      var alignedFetchLength := Min(file.size - windowStart, reach);
      FreshWindowAnswers(content, windowStart, reach, start, length);
      var window := ReadDirect(path, windowStart, alignedFetchLength);
      WindowLength(content, windowStart, alignedFetchLength);
      QueuePersist(file.fileId, windowStart, window);
      RememberWindow(sessionId, Window(path, windowStart, window, start + Min(length, |window|)));
      var outOffset := start - windowStart;
      out := Subarray(window, outOffset, outOffset + Min(length, |window| - outOffset));
      if start < |content| && length > 0 {
        FreshWindowCovers(sessions[sessionId], path, start, |out|);
        SessionIsInMemory(path, start, |out|, sessionId);
        assert (file.fileId, windowStart, |window|) in pendingWrites;
      }
    }

    /** The second try: the chunk cache, and behind it the articles. */
    method ReadBehindWindows(path: string, start: nat, length: nat, sessionId: string, cached: Option<Window>) returns (out: Buffer)
      requires Valid() && path in files
      modifies this, cache
      ensures Valid()
      ensures length <= 512 * 1024 * 1024 ==> out == Slice(ContentOf(path), start, length)
      ensures out <= Slice(ContentOf(path), start, length)
      ensures start < |ContentOf(path)| && length > 0 ==> out != []
      ensures quiet && start < |ContentOf(path)| && length > 0 ==> InMemory(path, start, |out|, sessionId)
      ensures quiet ==>
        directReads == old(directReads)
                       + if length == 0 || old(ChunksCached(files[path].fileId, start, length)) then 0 else 1
      ensures quiet && directReads != old(directReads) && start < |ContentOf(path)| ==>
        PersistQueued(files[path].fileId, start, |out|)
      ensures quiet && directReads != old(directReads) ==>
        && sessionId in sessions
        && |sessions[sessionId].buffer|
           == FreshLength(|ContentOf(path)|, start, length, GoesOn(cached, path, start), old(streamReadAheadBytes))
    {
      hide Valid, Slice, FromWindow, AlignDown, CachedBelow, CachedIn, FreshLength;
      FileSize(path);
      Await();
      var readAhead := streamReadAheadBytes;
      FileSize(path);
      var cachedRange := ReadCachedRange(files[path].fileId, start, length);
      Await();
      if cachedRange.Some? {
        var window := Window(path, start, cachedRange.value, start + |cachedRange.value|);
        RememberWindow(sessionId, window);
        FreshWindowCovers(window, path, start, |cachedRange.value|);
        Await();
        return cachedRange.value;
      }

      // A concurrent read of the same session may have moved its end mark meanwhile.
      var movedTo: int := *;
      var lastReadEnd := if cached.Some? && quiet then cached.value.lastReadEnd else movedTo;
      var sequentialRead := cached.Some? && cached.value.path == path
                         && start >= lastReadEnd && start - lastReadEnd <= SEQUENTIAL_SLACK;
      out := ReadFreshWindow(path, start, length, sessionId, sequentialRead, readAhead);
      SlicePrefix(ContentOf(path), start, Min(length, Max(READ_AHEAD_MAX, length - (start - AlignDown(start)))), length);
      Await();
    }

    /**
     A read through the native mount. Up to 512 MiB it returns exactly the bytes
     asked for, as far as the file goes; a longer read may return less, but never
     nothing before the end of the file, and never anything else. In a quiet
     mount what was read once is in memory for the session's next read, and articles are
     read, once, exactly when neither a window nor cached chunks have the bytes; what was
     read from them is then on its way to the chunk cache, and more of it if the session reads on.
     */
    method ReadMountedFileRange(path: string, start: nat, length: nat, sessionId: string) returns (out: Buffer)
      requires Valid() && path in files
      modifies this, cache
      ensures Valid()
      ensures length <= 512 * 1024 * 1024 ==> out == Slice(ContentOf(path), start, length)
      ensures out <= Slice(ContentOf(path), start, length)
      ensures start < |ContentOf(path)| && length > 0 ==> out != []
      ensures quiet && start < |ContentOf(path)| && length > 0 ==> InMemory(path, start, |out|, sessionId)
      ensures quiet ==>
        var here := || length == 0
                    || old(InMemory(path, start, length, sessionId))
                    || old(ChunksCached(files[path].fileId, start, length));
        directReads == old(directReads) + if here then 0 else 1
      ensures quiet && directReads != old(directReads) && start < |ContentOf(path)| ==>
        PersistQueued(files[path].fileId, start, |out|)
      ensures quiet && directReads != old(directReads) ==>
        && sessionId in sessions
        && |sessions[sessionId].buffer|
           == FreshLength(|ContentOf(path)|, start, length, GoesOn(old(SessionWindow(sessionId)), path, start), old(streamReadAheadBytes))
    {
      hide Valid, Slice, FromWindow, AlignDown, CachedBelow, CachedIn, FreshLength;
      FileSize(path);
      Await();
      var cached := SessionWindow(sessionId);
      var cachedOut := ReadFromWindows(path, start, length, sessionId);
      if cachedOut.Some? {
        Await();
        return cachedOut.value;
      }
      out := ReadBehindWindows(path, start, length, sessionId, cached);
    }

    /** A read without a session goes around the windows and has no length limit. */
    method ReadMountedFileRangeRaw(path: string, start: nat, length: int) returns (out: Buffer)
      requires Valid() && path in files
      modifies this, cache
      ensures Valid()
      ensures out == Slice(ContentOf(path), start, Max(0, length))
      ensures quiet && directReads != old(directReads) && out != [] ==> (files[path].fileId, start, |out|) in pendingWrites
    {
      if length <= 0 {
        return [];
      }
      Await();
      var file := files[path];
      ghost var content := ContentOf(path);
      assert file.size == |content| by { assert Served(file, starts[path], cache.articles, content); }
      var safeLength := Min(length, Max(0, file.size - start));
      var cachedRange := ReadCachedRange(file.fileId, start, safeLength);
      Await();
      if cachedRange.Some? {
        return cachedRange.value;
      }
      out := ReadDirect(path, start, safeLength);
      QueuePersist(file.fileId, start, out);
      Await();
    }

    method CloseSession(sessionId: string)
      requires Valid()
      modifies this`sessions
      ensures Valid() && sessions == old(sessions) - {sessionId}
    {
      sessions := sessions - {sessionId};
    }
  }
}
