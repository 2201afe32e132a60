# The mounted-file byte pipeline, verified

Drakkar turns a list of Usenet articles into a random-access file. This project
models that pipeline and proves its central promise, that every read returns exactly
the right slice of the file, together with the protocol of the connection pool
underneath.

| file | what it models |
|---|---|
| `Bytes.dfy` | buffers, `subarray`, `concat`, and `Slice`, the reference every reader is measured against |
| `Segments.dfy` | segment manifests, what it means that one tiles a file, binary search, in-place shrinking |
| `Sorting.dfy` | JavaScript's stable sort by a numeric key |
| `Options.dfy` | values that may be absent |
| `YencParts.dfy`, `YencManifest.dfy` | yEnc part headers (yEnc 1.3 draft) to a manifest, in exact and fast mode |
| `ConcurrentMap.dfy` | the workers that probe the headers |
| `RarHeaders.dfy` | the scan of RAR 1.5-4.x block headers, with an encoder as its inverse |
| `RarStoredIndex.dfy` | stored RAR sets as virtual files |
| `RangeHeader.dfy`, `RangePlanner.dfy` | Range headers (section 14.1.2 of RFC 9110) and plans of article slices |
| `MountedReaders.dfy` | the buffered window, the header walk, the direct reader and streamer |
| `SegmentCache.dfy`, `SegmentFetchProtocol.dfy` | whole articles in memory, on disk and on their way, and every run of their readers |
| `MountedCache.dfy` | session windows, path windows and the 8 MiB chunk cache around the readers |
| `VfsReads.dfy` | the loops between the kernel and the cached reads |
| `DirectFiles.dfy` | the pieces put together: how a posted file is mounted, exactly when that is read right, and three agreeing readers |
| `CachedReads.dfy` | the same through the article cache, and all of it from a posted file to the kernel |
| `NntpPool.dfy`, `NntpPoolProtocol.dfy`, `NntpPoolLiveness.dfy`, `NntpPoolLimits.dfy` | the connection pool, every run of it, and when nobody waits in vain |

How things are stated:

- `content` is the true file and `articles` the decoded body of every article. Both
  are parameters, so every statement is for all files. Articles arrive as an arbitrary
  division into chunks, empty ones included.
- Readers get articles from an `ArticleCache`, which like the source goes by file and
  segment number and never sees whether the article is the one asked for. `refs` is
  everything ever asked for through it, and `SoleUser` says that no other article has
  the same key. Methods say what a read returns when it returns; whether it does is the
  business of `SegmentFetchProtocol`. A cache marked `quiet` has one user, which serves to count
  fetches.
- `Tiles(segs, articles, content)` says that a manifest describes a file: sorted,
  contiguous from 0 to the end, and each segment's part of its article is that part of
  the content. Segments may be empty, because a stored entry of packed size 0 makes one.
- In `MountedCache` and `SegmentCache` every `await` is a call of `Await`, after which
  only the class invariant is known: other reads, delayed writes, expiry, pruning and
  policy changes may have happened in between. A mount marked `quiet` is one without
  such interference; it serves to state what hits, what is remembered and how often articles are read.
- The pool's atomic pieces between awaits are methods on real slots and a real queue.
  Each is proved equal to a function on values, and a run of the system is any sequence
  of steps of any number of fetches (calls of `body`) over those functions.
- `hide` keeps definitions a proof does not need out of its context.

## Model

| member | source | states |
|---|---|---|
| Segments.FindSegmentIndex | src/services/streaming/streamHelpers.ts:31-43 | in an ordered manifest everything before the returned index ends before the offset and everything after it starts behind it, so if any segment covers the offset it is this one |
| Segments.SomeSegmentCovers | src/services/streaming/streamHelpers.ts:31-43 | in a contiguous run every offset in range lies in exactly one segment |
| Segments.ShrinkManifestSegment | src/services/mountedStream.service.ts:716-734 | the in-place loop shortens one segment and moves all later ones, or changes nothing when the guard fails |
| Segments.ShrinksIff | src/services/mountedStream.service.ts:722-723 | a manifest changes if and only if the article is not empty and shorter than announced |
| Segments.ShrinkKeepsContiguity | src/services/mountedStream.service.ts:716-734 | a shrunk manifest stays contiguous if and only if the shrunk segment spans its whole article; an archive segment that starts inside its article breaks the chain |
| RangeHeader.NormalizeRangeMeetsRfc | src/services/rangePlanner.service.ts:25-48 | for a non-empty file a header is accepted if and only if it spells a valid, satisfiable single range with the unit in lower case and no number too large for a double, and the returned bounds enclose exactly the positions that range selects |
| RangeHeader.NoHeaderMeansAll | src/services/rangePlanner.service.ts:25-27 | without a header the bounds enclose all positions of the file; for an empty file they are 0 and 0 whatever is asked |
| RangeHeader.RefusalMeans | src/services/rangePlanner.service.ts:29-47 | which error a refused header gets: malformed, a suffix of no length, a start at or behind the end, or bounds in the wrong order or too large |
| RangeHeader.OtherCaseIsRefused | src/services/rangePlanner.service.ts:29-30 | the standard's unit name is case-insensitive, the code's is not: `Bytes=0-4` is valid and satisfiable, and refused |
| RangeHeader.DoubleLimitIs | src/services/rangePlanner.service.ts:37-43 | a numeral reads as Infinity from half a unit in the last place above the largest double on |
| RangeHeader.HugeNumeralIsRefused | src/services/rangePlanner.service.ts:40-43 | an end position of 1025 digits is valid and satisfiable for every file by the standard, reads as Infinity, and is refused |
| RangeHeader.RangeRoundTrip | src/services/mountedStream.service.ts:1732-1733 | the header a reader prints for a window is read back by the planner as that window, cut off at the end of the file |
| RangePlanner.PlanRanges | src/services/rangePlanner.service.ts:54-69 | the scan with its early stop finds exactly one slice for every segment the range meets |
| RangePlanner.PlanReadsContent | src/services/rangePlanner.service.ts:87-116 | over a tiling manifest the planned slices are consecutive from start to the end of range or file, each inside its article, and reading them gives exactly that slice of the file, with or without the whole-article shortcut |
| RangePlanner.WholeArticleIff | src/services/mountedStream.service.ts:1399-1412 | a planned slice of a segment that holds its part of the file is streamed whole if and only if it is all of its article |
| RangePlanner.ChainLength | src/services/rangePlanner.service.ts:100-116 | the lengths of a chain of planned slices add up to what the chain spans |
| RangePlanner.ReadPlannedRanges | src/services/mountedStream.service.ts:1399-1427 | executing a plan through the cache yields the concatenation of its slices, however whole articles are chunked, where no planned article shares its cache key |
| MountedReaders.ReadManifestWindow | src/services/mountedStream.service.ts:991-1032 | over any gapless manifest, with articles of any lengths that do not share their cache keys, the loop with its shrinking in place reads the bytes and leaves the manifest of the recursion `Through` over the manifest as it was; so over a tiling manifest the window is exactly the slice, for any declared size, and nothing shrinks |
| MountedReaders.ThroughTiling | src/services/mountedStream.service.ts:1003-1029 | from any position of a manifest that tiles the file that recursion reads exactly the slice and leaves the manifest as it is |
| MountedReaders.ThroughWhole | src/services/mountedStream.service.ts:1003-1029 | over whole articles of other lengths, none empty or none longer than announced, the window runs from its first byte's article on through what is there, each article cut at its announced length |
| MountedReaders.FindDirectSegmentByOffset | src/services/mountedStream.service.ts:1197-1207 | in an ordered manifest the guess is the segment that covers the offset, and there is none only if no segment does |
| MountedReaders.FindDirectSegmentByOffsetExact | src/services/mountedStream.service.ts:1209-1235 | the walk ends, is the specified one, and its answer covers the offset; when the effective bounds are the true contiguous ones it returns the true segment exactly when that is within 63 positions of the guess, else the guess |
| MountedReaders.CollectRange | src/services/mountedStream.service.ts:1254-1287 | for any division of articles into chunks, skipping and cutting gives exactly that slice of what the cache supplies for the segments, laid end to end; the last stream is left unfinished exactly when the read gets all it wants |
| MountedReaders.ReadDirectMountedRange | src/services/mountedStream.service.ts:1237-1288 | when it returns: it fails only if no segment covers the first byte; otherwise it is that part of what the cache supplies from the located article on, which is the segments' own articles where no two share a key, and then, once the located start is true, exactly the slice of the file |
| MountedReaders.EffectiveIsPart | src/services/mountedStream.service.ts:1209-1222 | the walk goes by the positions of a part's header; one without a size only moves the announced bounds |
| MountedReaders.DirectReadAnswers | src/services/mountedStream.service.ts:1209-1287 | with true part headers a read within the walk's reach is the slice from the byte asked for; beyond it, without any error, the file is read from as far past the guessed article's true start as the byte is past its announced one |
| MountedReaders.StreamDirectMountedRanges | src/services/mountedStream.service.ts:1290-1346 | the stream hands out exactly what the direct read returns as non-empty chunks, reports the position behind each, and sent plus remaining is always the requested length |
| SegmentCache.ArticleCache.GetOrFetch | src/services/mountedStream.service.ts:918-967 | when it returns: whichever of memory, disk, another reader's fetch or the network answers, under any interference, the answer is an article asked for under the same file and number, and the one asked for if no other article shares them; in a quiet cache there is a fetch exactly when none of the stores knows the key, and with the cache on they know it afterwards |
| SegmentCache.ArticleCache.StreamSegment | src/services/mountedStream.service.ts:1104-1176 | the same answer and the same number of fetches for the progressive source, however the article is divided into chunks and whether or not its consumer stops early |
| SegmentFetchProtocol.StepKeepsInv | src/services/mountedStream.service.ts:918-967 | every step of every reader keeps under each key, in memory, on disk and in the table of fetches, only articles asked for under that key |
| SegmentFetchProtocol.AlwaysRightIff | src/services/mountedStream.service.ts:926-966 | every reader of every run is answered the article it asked for, for all article contents, if and only if no two articles in use share file and number |
| SegmentFetchProtocol.FailsIffFetchFailed | src/services/mountedStream.service.ts:944-966 | in every run a settled reader was told of a failure if and only if its own fetch failed or it joined a reader whose fetch failed |
| SegmentFetchProtocol.JoinedHearsLeader | src/services/mountedStream.service.ts:944-948 | in every run a joined reader is told exactly what its leader was, the same body or the failure |
| SegmentFetchProtocol.StoredNeedsNoFetch | src/services/mountedStream.service.ts:927-942 | what memory holds, or else the disk, a reader can be answered without registering a fetch, in whatever state the system is, and memory holds it then |
| SegmentFetchProtocol.DiskOutlivesMemory | src/services/mountedStream.service.ts:951-958 | an article fetched with the cache on is answered to the next reader from disk after memory has forgotten it, with one fetch for both |
| SegmentFetchProtocol.CanSettleIff | src/services/mountedStream.service.ts:1132-1175 | in every state a run can reach a reader can still be answered or told of a failure if and only if neither it nor the leader it joined was abandoned by its consumer |
| SegmentFetchProtocol.NobodyWaitsIff | src/services/mountedStream.service.ts:1132-1175 | once no reader can move, everybody who still waits has joined an abandoned leader, so nobody waits if and only if no leader with joined readers was abandoned |
| SegmentFetchProtocol.AbandonedLeaderStrands | src/services/mountedStream.service.ts:1139-1175 | two overlapping reads of one article: the leader's consumer stops, and the joined reader is never answered in any continuation |
| SegmentCache.ArticleCache.PruneHotCache | src/services/mountedStream.service.ts:842-855 | what stays is a tail of the unexpired entries within the bound, and one entry more would exceed it |
| SegmentCache.FreshAreRecent | src/services/mountedStream.service.ts:845-848 | what the first loop leaves are exactly the entries touched within the maximal age |
| SegmentCache.CountOldest | src/services/mountedStream.service.ts:850-854 | the least number of oldest entries whose removal meets the bound |
| MountedCache.WindowAnswers | src/services/mountedStream.service.ts:1542-1555 | a window that shows the file's content answers a covered read with exactly that slice |
| MountedCache.FreshWindowAnswers | src/services/mountedStream.service.ts:1927-1979 | a window fetched from the chunk boundary contains the requested bytes at the computed offset, also at and behind the end of the file |
| MountedCache.FreshReachMeans | src/services/mountedStream.service.ts:1929-1942 | a sequential read fetches 512 MiB at a time, any other 4 MiB, or as much as the read-ahead setting says if that is less, but as much as was asked for up to 512 MiB |
| MountedCache.CutChunk | src/services/mountedStream.service.ts:130-144 | a full chunk cut at an aligned position out of a correct buffer is that chunk of the file |
| MountedCache.OneMoreChunk | src/services/mountedStream.service.ts:134-144 | the size test of the loop holds exactly for the aligned positions whose chunk lies wholly inside the buffer |
| MountedCache.MountedFiles.ReadCachedRange | src/services/mountedStream.service.ts:94-128 | any hit is the whole range byte for byte, with chunks and index entries evicted at any await; in a quiet mount it hits if and only if the cache is on and all needed chunks are there |
| MountedCache.MountedFiles.WriteChunk | src/services/mountedStream.service.ts:73-92 | the disk only ever gets true chunks, whether or not the rename succeeds; in a quiet mount the chunk is then cached and earlier ones stay |
| MountedCache.MountedFiles.PersistRange | src/services/mountedStream.service.ts:130-145 | a write is attempted for exactly the full aligned chunks of the buffer, and under interference only true chunks reach the disk; in a quiet mount the disk gains exactly these, loses nothing, and all of them are cached afterwards |
| MountedCache.MountedFiles.QueuePersist | src/services/mountedStream.service.ts:147-157 | a write is queued once per file, start and length |
| MountedCache.MountedFiles.RunPendingWrite | src/services/mountedStream.service.ts:152-156 | a queued write ends with its key free again; in a quiet mount with the cache on all full chunks of its buffer are then cached |
| MountedCache.MountedFiles.RememberWindow | src/services/mountedStream.service.ts:1557-1563 | the window is kept for the session and for its path |
| MountedCache.MountedFiles.ReadFromWindows | src/services/mountedStream.service.ts:1842-1857 | session window first, then path window; an answer is given exactly when one of them covers the read, and is exact |
| MountedCache.MountedFiles.ReadFreshWindow | src/services/mountedStream.service.ts:1930-1980 | exactly which prefix a fresh window yields, and that it is in memory afterwards |
| MountedCache.MountedFiles.ReadMountedFileRange | src/services/mountedStream.service.ts:1819-1987 | for direct files whose articles do not share cache keys, under any interference, every read that returns gives: up to 512 MiB exactly the bytes of the file, beyond that a prefix of them that is not empty before the end of the file; in a quiet mount it reads articles, once, if and only if neither a window nor the cached chunks have the bytes, reads as far ahead as `FreshReachMeans` says, a session that goes on within 256 KiB counting as sequential, and queues what it read for the chunk cache |
| MountedCache.MountedFiles.ReadMountedFileRangeRaw | src/services/mountedStream.service.ts:1660-1729 | the read without session windows is exact for every length when it returns, and in a quiet mount what it read from articles is queued for the chunk cache |
| VfsReads.ShortRead | src/services/vfsService.ts:293-307 | a non-empty correct prefix extends what is collected, an empty one shows that nothing is missing |
| VfsReads.FuseMount.ReadVfsBytes | src/services/vfsService.ts:293-307 | collecting short reads terminates with exactly the slice |
| VfsReads.FuseMount.Open | src/services/fuseMountService.ts:137-151 | a file opened for reading gets a descriptor nobody has, which stands for its path from then on, and no other descriptor changes its meaning |
| VfsReads.FuseMount.Read | src/services/fuseMountService.ts:153-168 | the kernel's buffer holds exactly the file's bytes up to the read limit, the rest of it is untouched, and the count returned is right |
| VfsReads.FuseMount.Serve | src/services/mountedStream.service.ts:1819-1987 | in any run of reads by any sessions, with evictions, policy changes and delayed chunk writes in between, every answer is the file's content |
| YencParts.PartInfoMeans | src/services/yencManifest.service.ts:73-95 | a header is understood exactly if it has a part line or both an announced size and a size on its end line; the part then has exactly the positions of that line, or all positions up to the end line's size, and the file size is the one announced, by the end line only where the first line names none |
| YencManifest.PartLineIsPart | src/services/yencManifest.service.ts:73-88 | a 1-based inclusive part line becomes the 0-based offset and size of the same bytes |
| YencManifest.BuildDecodedYencSegments | src/services/yencManifest.service.ts:198-291 | exact when asked for and possible, else fast, else nothing |
| YencManifest.ExactModeMeans | src/services/yencManifest.service.ts:214-291 | exact mode has an answer of its own if and only if every article's header was read and one announces a size; then it has one segment for each article and the largest size announced, and in every other case it answers as fast mode does |
| YencManifest.OrderedByNumber | src/services/yencManifest.service.ts:204 | articles are taken by rising numbers, in the order listed where numbers are equal, none lost |
| YencManifest.DecodedSizeMeans | src/services/yencManifest.service.ts:153-168 | the file ends where the part of the article with the greatest number does, or is as long as listed if that header could not be read or names no place in the file |
| Sorting.SortIsStable | src/services/yencManifest.service.ts:204 | sorting keeps the order of elements with equal keys |
| YencManifest.ExactManifestTiles | src/services/yencManifest.service.ts:214-251 | if the parts partition 1..size in any posting order, exact mode gives the true size and a contiguous manifest of [0, size) with one segment per article |
| YencManifest.ExactManifestDescribesFile | src/services/yencManifest.service.ts:214-251 | if moreover the bodies match their headers, that manifest tiles the file |
| YencManifest.FastRefinesExact | src/services/yencManifest.service.ts:254-291 | for equal parts fast mode returns the same size and segments as exact mode, and the last part alone gives the same size |
| ConcurrentMap.EveryScheduleMapsInOrder | src/services/yencManifest.service.ts:171-188 | for every schedule: at most the stated number in flight, no index mapped twice, an end within 2n + workers steps, and then the results of mapping in order |
| ConcurrentMap.StepKeepsInv | src/services/yencManifest.service.ts:178-184 | claims below the cursor are distinct, and each claimed index is being mapped or holds its own result |
| RarHeaders.ParseStoredRarHeaders | src/services/archive/rarStoredIndex.ts:102-147 | the loop reads only inside the buffer, always advances, and returns the scan's header list |
| RarHeaders.SignatureBytes | src/services/archive/rarStoredIndex.ts:103 | nothing is found in a buffer that does not start with the seven marker bytes |
| RarHeaders.HeaderByBytes | src/services/archive/rarStoredIndex.ts:108-138 | where in the bytes of a block its type, flags, sizes, method and name are, and which flag bits move them |
| RarHeaders.FileBlockReads | src/services/archive/rarStoredIndex.ts:117-141 | a file block in the format's layout, wherever it stands in a buffer, reads back as its name, sizes, method and data position, and only the low 32 bits of its packed size say how far to go on |
| RarHeaders.ScanOfPrefix | src/services/archive/rarStoredIndex.ts:102-147 | parsing a prefix of any buffer returns a prefix of its header list |
| RarHeaders.RarRoundTrip | src/services/archive/rarStoredIndex.ts:102-147 | for every volume of well-formed blocks with packed sizes below 4 GiB exactly the encoded file headers come back |
| RarHeaders.DamageEndsScan | src/services/archive/rarStoredIndex.ts:112-125 | a header that is cut off or a name that runs past its header ends the scan: everything before it is found, nothing behind it |
| RarHeaders.RarRoundTripIff | src/services/archive/rarStoredIndex.ts:102-147 | parsing inverts encoding for all contents of the given heads and sizes if and only if every packed size is below 4 GiB |
| RarHeaders.RarHeadRoundTripIff | src/services/archive/rarStoredIndex.ts:383-409 | parsing the first n bytes gives a prefix of the header list for all contents if and only if the first block of 4 GiB or more, whose size the scan takes modulo 4 GiB, leaves no room for a file header before n |
| RarHeaders.RarHeadRoundTrip | src/services/archive/rarStoredIndex.ts:383-384 | from such a beginning comes a prefix of that list |
| RarHeaders.ScanStep | src/services/archive/rarStoredIndex.ts:115-143 | the scan goes past a file block by its header and the low 32 bits of its packed size, and ends where that is outside the buffer |
| RarHeaders.HeadersNameData | src/services/archive/rarStoredIndex.ts:131-138 | every header names the position and size of the data of a file block of that name |
| RarStoredIndex.BuildVirtualSegments | src/services/archive/rarStoredIndex.ts:322-348 | the scan with its early stop gives the overlaps of the volume's segments with the packed region |
| RarStoredIndex.VirtualFrom | src/services/archive/rarStoredIndex.ts:330-346 | virtual segments follow each other exactly over the packed region's place in the entry |
| RarStoredIndex.VirtualHold | src/services/archive/rarStoredIndex.ts:330-346 | each shows the right bytes of its article |
| RarStoredIndex.EntryStartCancels | src/services/archive/rarStoredIndex.ts:417-447 | rebasing removes the position at which a part was scanned |
| RarStoredIndex.EntryFromVolumes | src/services/archive/rarStoredIndex.ts:427-457 | an archive set is refused for duplicate numbers or a size off by more than 16 bytes, else it is its volumes in number order |
| RarStoredIndex.AcceptedIff | src/services/archive/rarStoredIndex.ts:433-457 | an archive set is refused for a number that occurs twice, or because a known size is missed by more than 16 bytes, and not listed only if there is no packed data |
| RarStoredIndex.VolumesInOrder | src/services/archive/rarStoredIndex.ts:434 | the volumes of an accepted entry are all of the set, by strictly rising numbers |
| RarStoredIndex.ScanOrderIrrelevant | src/services/archive/rarStoredIndex.ts:404-457 | any two scan orders of the same volumes give the same entry |
| RarStoredIndex.EntryTilesPackedData | src/services/archive/rarStoredIndex.ts:404-457 | an accepted entry tiles the concatenated packed data in number order, and its size differs from that by at most 16 bytes |
| RarStoredIndex.StoredRarReadThrough | src/services/rangePlanner.service.ts:50-71 | executing the plan of any range of an accepted entry gives exactly that slice of the packed data |
| RarStoredIndex.StoredRarRange | src/services/rangePlanner.service.ts:50-71 | a Range request goes by the entry's size and is answered from the packed data: exactly the slice, short by what lies behind the data's end, at most 16 bytes and all at the tail |
| RarStoredIndex.EntryAsksVolumes | src/services/archive/rarStoredIndex.ts:337-341 | every segment of an accepted entry asks for an article of one of its volumes, under that volume's file and the number the article has there |
| RarStoredIndex.ReadStoredRange | src/services/rangePlanner.service.ts:50-71 | planned and read through the article cache, a Range request for a stored file is answered with exactly that part of the packed data, where the volumes' articles share their keys with no others |
| RarStoredIndex.ShrunkEntryBreaks | src/services/mountedStream.service.ts:716-734 | an entry whose first segment starts inside its article does not stay contiguous when that article comes out shorter |
| RarStoredIndex.ScannedHeaderIsReadable | src/services/archive/rarStoredIndex.ts:404-422 | a header found in the readable head of a volume names a region inside the volume, which is the data of a file block of that name |
| RarStoredIndex.ReadDecodedRange | src/services/archive/rarStoredIndex.ts:295-320 | reading the head of a volume gives exactly that slice of it |
| DirectFiles.MountShape | src/services/mountedStream.service.ts:791-840 | what a posted file is mounted with, the fast manifest or the raw guess, always runs without gap from 0 with one segment for each article it uses |
| DirectFiles.MountsEqualParts | src/services/mountedStream.service.ts:805-817 | when the first article's part starts the file and names its size, all segments are as long as that part, as far as the file goes, for the articles by number |
| DirectFiles.MountsAsListed | src/services/mountedStream.service.ts:818-832 | otherwise the articles are mounted as listed, with the lengths listed |
| DirectFiles.PostedFileReadsIffMountedRight | src/services/mountedStream.service.ts:791-840 | for any file whose headers partition it, in whatever order and sizes: all direct reads of the articles themselves, for all contents, are exact if and only if the mounted file has its parts in order, the right size, a guess that reaches the end, and no byte guessed more than 63 positions off in an article whose start is guessed wrong |
| CachedReads.PostedFileReadsIff | src/services/mountedStream.service.ts:1104-1288 | through the cache: in every run of readers, with any policy, eviction and fetches under way, all reads of all contents are exact if and only if the file is mounted right and no two of its mounted segments share a number |
| CachedReads.SharedNumberFails | src/services/mountedStream.service.ts:926-966 | two articles posted under one number: mounted right and read right past the cache, and yet some run reads the second one's byte from the first |
| CachedReads.EqualPartsAreRight | src/services/mountedStream.service.ts:791-840 | equal parts posted under different numbers are mounted right under different numbers |
| CachedReads.MountAndRead | src/services/fuseMountService.ts:153-168 | from a posted file to the kernel: mounted, cached and read, the kernel's buffer holds exactly the file's bytes up to the read limit |
| DirectFiles.MountedIsServed | src/services/mountedStream.service.ts:1209-1287 | a file mounted right is served exactly at every offset, also when header probes fail at articles guessed right |
| DirectFiles.ServedIsExact | src/services/mountedStream.service.ts:1237-1288 | being served, which the cached reads assume, means that every direct read is exact |
| DirectFiles.NumberedIsRightIff | src/services/yencManifest.service.ts:254-291 | for parts numbered in file order the fast manifest is right if and only if as many parts of the first one's size just cover the file and its multiples stay within 63 positions of the true starts or are true |
| DirectFiles.EqualPartsAreServed | src/services/yencManifest.service.ts:254-291 | equal parts are served exactly whatever later header probes fail |
| DirectFiles.ShortFirstPartFails | src/services/mountedStream.service.ts:1197-1207 | when the first part is too short, bytes behind its last multiple cannot be located |
| DirectFiles.OneThreeOneFails | src/services/yencManifest.service.ts:273-291 | parts of 1, 3 and 1 bytes partition a file whose last two bytes cannot be read directly |
| DirectFiles.ReadThreeWays | src/services/mountedStream.service.ts:991-1032 | for a posted file mounted right, no two of whose articles share a number, the buffered window and the executed plan over the exact manifest, and the direct reader over the mounted one, return the same bytes, the slice of the file |
| NntpPool.SlotCountBounded | src/services/mountedStream.service.ts:354-366 | with room for at least one the pool never gets more slots than allowed |
| NntpPool.SlotsAreFirstConnections | src/services/mountedStream.service.ts:359-363 | the slots are the providers' connections in provider order, at least one each, up to the maximum |
| NntpPool.SlotTotal | src/services/mountedStream.service.ts:359-363 | if all providers have connections the pool has the maximum number of slots, or all their connections if these are fewer |
| NntpPool.SlotsCoverPrefix | src/services/mountedStream.service.ts:354-366 | the slots belong to all of the first n providers and to no others |
| NntpPool.FirstFree | src/services/mountedStream.service.ts:506-515 | the first free slot within the limit that the request accepts, and none only if there is none |
| NntpPool.AcquireWithinAllowed | src/services/mountedStream.service.ts:506-538 | a request gets a slot if and only if a free one that it accepts is among as many as are allowed, at least one, and then the first such |
| NntpPool.FirstWaiter | src/services/mountedStream.service.ts:540-544 | the longest waiting request that accepts the provider, and none only if there is none |
| NntpPool.ReleaseKeepsFewWarm | src/services/mountedStream.service.ts:551-561 | a release never leaves more idle connections than one, or than there were before |
| NntpPool.ReleaseKeepsOneWarm | src/services/mountedStream.service.ts:551-561 | a freed slot keeps its connection if and only if no other idle slot has one, and a slot that is handed on keeps its connection |
| NntpPool.MountedNntpPool.constructor | src/services/mountedStream.service.ts:354-366 | the nested loops give each provider its share of slots until the pool is full, all idle, and record the primaries |
| NntpPool.MountedNntpPool.AcquireSlot | src/services/mountedStream.service.ts:506-533 | in place: one slot turns busy or the request joins the end of the queue, as the specification function says |
| NntpPool.MountedNntpPool.ReleaseSlot | src/services/mountedStream.service.ts:540-561 | in place: the slot goes to the first waiter that accepts it or is freed, as the specification function says |
| NntpPool.MountedNntpPool.AbortWait | src/services/mountedStream.service.ts:523-527 | in place: the waiter leaves the queue if it is still there |
| NntpPool.MountedNntpPool.AllPrimaryProvidersFailed | src/services/mountedStream.service.ts:603-610 | counting failed primaries is testing that all are among the failures |
| NntpPoolProtocol.StepKeepsInv | src/services/mountedStream.service.ts:368-400 | every step of every fetch keeps the protocol's invariant |
| NntpPoolProtocol.PoolSafety | src/services/mountedStream.service.ts:506-561 | in every run a slot is busy exactly while one fetch holds it, a fetch holds only a slot its exclusions allow, and the queue is exactly the waiting fetches |
| NntpPoolProtocol.AbortAfterHandOffKeepsSlot | src/services/mountedStream.service.ts:520-531 | in every run the search an abort makes after a hand-off removes no waiter and leaves the slot with its fetch |
| NntpPoolProtocol.HandOffGoesToEarliest | src/services/mountedStream.service.ts:540-550 | a released slot goes to the longest waiting fetch that accepts it and to no other |
| NntpPoolProtocol.PrimaryFirst | src/services/mountedStream.service.ts:388-391 | a backup's slot is only ever held when every primary has failed permanently for that article |
| NntpPoolProtocol.ExcludedHaveFailed | src/services/mountedStream.service.ts:373-394 | a fetch excludes exactly the providers at which it failed permanently in the run, and its attempt counts its failures |
| NntpPoolProtocol.GivesUpOnlyAtTheEnd | src/services/mountedStream.service.ts:371-399 | in no run does a fetch fail more often than four times the number of slots; it has given up if and only if it failed that often or failed permanently at every provider with a slot |
| NntpPoolProtocol.RetryLoopTerminates | src/services/mountedStream.service.ts:371-397 | in no run does a fetch make more than twelve steps for each slot and two more |
| NntpPoolProtocol.UsesAtMostAllowed | src/services/mountedStream.service.ts:506-550 | in no run are more slots in use than the largest number of connections any request was allowed, or one; hand-offs do not get around it |
| NntpPoolProtocol.FailureDisconnects | src/services/mountedStream.service.ts:381-396 | after a failed attempt the slot has no connection, whoever gets it next |
| NntpPoolProtocol.WarmAfterSuccess | src/services/mountedStream.service.ts:377-396 | a connection made for a fetch that succeeds on it stays if the slot is handed on or no other idle slot has one |
| NntpPoolProtocol.AbortedNeverWaits | src/services/mountedStream.service.ts:519-531 | once its signal has fired a fetch is not in the queue, and one that waited is told so |
| NntpPoolLiveness.RequestsSatisfiable | src/services/mountedStream.service.ts:354-397 | in a covered pool every request of every run is one some slot accepts |
| NntpPoolLiveness.NeverStuckIffCovered | src/services/mountedStream.service.ts:354-397 | for distinct provider ids that holds if and only if every primary has a slot or no backup has one |
| NntpPoolLiveness.CoveredWhenPrimariesFirst | src/services/mountedStream.service.ts:640-648 | providers in the order of the database query always give a covered pool |
| NntpPoolLiveness.IdlePoolMissesNothing | src/services/mountedStream.service.ts:506-561 | with at least a given number of connections allowed, a request is left waiting in an idle pool only for slots behind those that number shows |
| NntpPoolLiveness.IdlePoolHasNoWaiters | src/services/mountedStream.service.ts:506-561 | in a covered pool whose shown slots include every provider with a slot, whenever no fetch holds a slot the queue is empty |
| NntpPoolLiveness.NoStrandingIff | src/services/mountedStream.service.ts:506-561 | for distinct provider ids and any limit, no run leaves a request waiting in an idle pool if and only if the pool is covered and the slots the limit shows include every provider that has one |
| NntpPoolLiveness.DatabaseOrderStrandsNobody | src/services/mountedStream.service.ts:640-648 | with providers in the order of the database query a limit that shows every provider strands nobody |
| NntpPoolLiveness.FullLimitShowsAll | src/services/mountedStream.service.ts:535-538 | a limit that covers all slots shows every provider |
| NntpPoolLiveness.OneConnectionStrands | src/services/mountedStream.service.ts:535-538 | two primaries of one slot each and one connection: some run strands a request |
| NntpPoolLimits.PoolSizeIsLargest | src/services/mountedStream.service.ts:650-664 | the pool is built for the largest number of connections that the providers have and both limits admit, a limit of 0 being none |
| NntpPoolLimits.PoolHasItsSize | src/services/mountedStream.service.ts:650-679 | with providers that have connections the pool gets exactly as many slots as that |
| NntpPoolLimits.AllowedMeans | src/services/mountedStream.service.ts:682-690 | a request may use the largest number of connections within the streaming limit and, while anything streams, within the priority's percentage of all; always at least one |
| NntpPoolLimits.PriorityIsPercentage | src/services/mountedStream.service.ts:686-687 | priorities outside 0 to 100 count as 0 or 100 |
| NntpPoolLimits.PolicyStrandsNobodyIff | src/services/mountedStream.service.ts:650-690 | under a policy, however many streams are active when, no run strands a request if and only if the pool it builds is covered and the connections it allows one active stream show every provider |
| NntpPoolLimits.ShareCoversPool | src/services/mountedStream.service.ts:682-690 | a streaming limit within the share reserved for streaming shows every provider at all times |
| NntpPoolLimits.NoConfiguredLimitStrands | src/services/mountedStream.service.ts:650-690 | a streaming limit of 0 builds a pool for all connections and allows one: with two providers some run strands a request |

Results that differ from what one might expect of the code:

- A directly mounted file always goes by the fast manifest, which knows only the first
  part's size. `PostedFileReadsIffMountedRight` says exactly when reads through it are
  right; parts of 1, 3 and 1 bytes are a file it cannot read to the end
  (`OneThreeOneFails`), and a guess more than 63 articles off is read from the wrong
  place without an error (`DirectReadAnswers`), unless the guessed article's own start
  happens to be right.
- The RAR scan honours only the low 32 bits of a packed size. `RarRoundTripIff` and
  `RarHeadRoundTripIff` say for which sizes that is harmless; for all others the proof
  builds a volume whose data is listed as a file.
- The article cache confuses articles posted under the same number of one file, which
  nothing in the source rules out (`SharedNumberFails`); `PostedFileReadsIff` and
  `AlwaysRightIff` say that this is all that can go wrong in it.
- A reader that joins another's fetch waits forever if that one's consumer stops before
  the end of the stream, as a direct read does in its last article
  (`AbandonedLeaderStrands`, `CanSettleIff`).
- A connection limit below the slot count can strand a request, because `acquire` looks
  only at the first slots. `NoStrandingIff` says for which pools and limits it does not.
- Range unit names are case-insensitive in RFC 9110 and its numbers have no limit; the code
  accepts only the lower-case unit (`OtherCaseIsRefused`) and numbers that a double can
  hold (`HugeNumeralIsRefused`).
- A stored entry's announced size may exceed its packed data by up to 16 bytes; a request
  that reaches there is answered short (`StoredRarRange`).
- Shrinking a manifest segment in place keeps the manifest contiguous only for segments
  that span their whole article (`ShrinkKeepsContiguity`, `ShrunkEntryBreaks`).
- The pool's fallback to the first provider when no slot was built is unreachable for a
  non-empty provider list: each provider visited gets at least one slot.

## Left out

- The sequential reader (src/services/mountedStream.service.ts:1565-1658) advances its position twice after a seek into a segment and ignores the offset of a segment inside its article; no slice property is claimed for it.
- Cached reads of archive entries are not part of the cached-read model; archives are covered by plans and by `ReadManifestWindow`.
- A failure in the middle of an article stream restarts the article from its first byte; articles are assumed to come from one complete attempt.
- Sockets, NNTP, disk, Redis, the database, FUSE calls, media probing and the yEnc byte decoder are parameters or nondeterministic choices.
- Thrown errors of the network and the "no providers" check at the start of a read are not modelled; the only read error is a byte no segment covers.
- What reading an archive returns when articles of its volumes share a key: `ReadStoredRange` names the condition under which it is exact; that it is necessary is shown for direct files.
- The caches of yEnc headers, manifests, direct files and archive indexes are plain memories of fixed answers.
- Replacing the pool when the provider configuration changes, and warming connections ahead of use, beyond setting a slot's connected flag.
- Selecting, ordering and naming RAR files, grouping headers by entry name and the SharpCompress probe: the entry model starts from the collected volumes of one entry and its expected size.
- How a RAR name's bytes become a string; a header keeps the raw bytes.
- Attribute syntax of yEnc lines, fractional attribute values, and the rounding of Range numerals above 2^53, which changes no outcome for files up to that size.
- The floating-point rounding of the streaming share; it is taken as the exact quotient, rounded down.
- The download side of the bandwidth allocation, session bookkeeping, metrics, lifecycle state machines, routes, authentication, settings and naming: they do not touch the bytes a read returns or the pool's slots.
- ReadMountedFileRange: under interference the mark that decides whether a read counts as sequential is left open, because it only chooses the window size.
- RarRoundTrip: states the round trip for packed sizes below 4 GiB, because for larger ones the code itself does not have it, as `RarRoundTripIff` says.
- PostedFileReadsIffMountedRight: assumes that every header probe made while reading answers; `MountedIsServed` covers failed probes at articles whose guess is right, and a failed probe elsewhere leaves the walk without its correction.
- ThroughWhole: where an empty article precedes one longer than announced, or the first byte lies behind the real end of its article, the window is what `Through` says, and no simpler description is given.
- PersistRange: under interference the attempted positions are not a record of what is on disk, because a write may fail and pruning may follow at once.
