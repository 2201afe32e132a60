/**
 Whole articles in memory, on disk and on their way: `getOrFetchSegmentBuffer`,
 `streamSegmentProgressively` and `pruneHotCache` of
 src/services/mountedStream.service.ts. All three stores go by file and segment number
 alone, so what is asked for and what is answered may be different articles.
 */
module SegmentCache {
  import opened Bytes
  import opened Options

  /** A segment's cache key: file and segment number. */
  type Key = (string, int)

  /** What a reader asks for. */
  datatype ArticleRef = ArticleRef(fileId: string, number: int, articleId: string)
  {
    function Key(): Key {
      (fileId, number)
    }
  }

  /** `body` is an article that somebody asks for under this key. */
  ghost predicate Serves(refs: set<ArticleRef>, articles: Articles, key: Key, body: Buffer) {
    exists r :: r in refs && r.Key() == key && body == articles(r.articleId)
  }

  /** Nobody asks for another article under the same key. */
  ghost predicate SoleUser(refs: set<ArticleRef>, r: ArticleRef) {
    r in refs && forall q | q in refs && q.Key() == r.Key() :: q.articleId == r.articleId
  }

  lemma SoleUserIsServed(refs: set<ArticleRef>, articles: Articles, r: ArticleRef, body: Buffer)
    requires SoleUser(refs, r) && Serves(refs, articles, r.Key(), body)
    ensures body == articles(r.articleId)
  {
  }

  lemma OwnArticleServes(refs: set<ArticleRef>, articles: Articles, r: ArticleRef)
    requires r in refs
    ensures Serves(refs, articles, r.Key(), articles(r.articleId))
  {
  }

  /** An entry of the in-memory map, which keeps the order of insertion. */
  datatype HotEntry = HotEntry(key: Key, value: Buffer, updatedAt: int)

  function TotalBytes(entries: seq<HotEntry>): nat {
    if entries == [] then 0 else |entries[0].value| + TotalBytes(entries[1..])
  }

  predicate IsFresh(e: HotEntry, now: int, maxAge: int) {
    now - e.updatedAt <= maxAge
  }

  /** The entries that have not expired, in order. */
  function FreshEntries(entries: seq<HotEntry>, now: int, maxAge: int): seq<HotEntry> {
    if entries == [] then []
    else (if IsFresh(entries[0], now, maxAge) then [entries[0]] else []) + FreshEntries(entries[1..], now, maxAge)
  }

  lemma {:induction false} FreshSnoc(entries: seq<HotEntry>, e: HotEntry, now: int, maxAge: int)
    ensures FreshEntries(entries + [e], now, maxAge)
         == FreshEntries(entries, now, maxAge) + if IsFresh(e, now, maxAge) then [e] else []
  {
    if entries == [] {
      assert entries + [e] == [e];
    } else {
      var first := if IsFresh(entries[0], now, maxAge) then [entries[0]] else [];
      var last := if IsFresh(e, now, maxAge) then [e] else [];
      assert (entries + [e])[0] == entries[0] && (entries + [e])[1..] == entries[1..] + [e];
      FreshSnoc(entries[1..], e, now, maxAge);
      assert first + (FreshEntries(entries[1..], now, maxAge) + last) == (first + FreshEntries(entries[1..], now, maxAge)) + last;
    }
  }

  lemma {:induction false} TotalSnoc(entries: seq<HotEntry>, e: HotEntry)
    ensures TotalBytes(entries + [e]) == TotalBytes(entries) + |e.value|
  {
    if entries == [] {
      assert entries + [e] == [e];
    } else {
      assert (entries + [e])[1..] == entries[1..] + [e];
      TotalSnoc(entries[1..], e);
    }
  }

  /** What is left are exactly the entries touched within the last `maxAge` milliseconds. */
  lemma {:induction false} FreshAreRecent(entries: seq<HotEntry>, now: int, maxAge: int)
    ensures forall e :: e in FreshEntries(entries, now, maxAge) <==> e in entries && e.updatedAt >= now - maxAge
  {
    if entries != [] {
      FreshAreRecent(entries[1..], now, maxAge);
      assert forall e :: e in entries <==> e == entries[0] || e in entries[1..];
    }
  }

  lemma {:induction false} TailHoldsLess(entries: seq<HotEntry>, k: nat)
    requires k <= |entries|
    ensures TotalBytes(entries[k..]) <= TotalBytes(entries)
  {
    if k == 0 {
      assert entries[0..] == entries;
    } else {
      TailHoldsLess(entries[1..], k - 1);
      assert entries[1..][k - 1..] == entries[k..];
    }
  }

  lemma TailIsOf(entries: seq<HotEntry>, k: nat)
    requires k <= |entries|
    ensures forall e | e in entries[k..] :: e in entries
    ensures k == 0 ==> entries[k..] == entries
  {
  }

  const HOT_CACHE_MAX := 256 * 1024 * 1024

  lemma OneChunk(body: Buffer)
    ensures Concat([body]) == body
  {
  }

  /** Some division of an article into chunks, empty ones included. */
  method Divide(body: Buffer) returns (chunks: seq<Buffer>)
    ensures Concat(chunks) == body
  {
    hide Concat;
    chunks := [];
    NoChunks();
    var at := 0;
    var cuts: int :| 0 <= cuts;
    for cut := 0 to cuts
      invariant at <= |body| && Concat(chunks) == body[..at]
    {
      var next :| at <= next <= |body|;
      ConcatSnoc(chunks, body[at..next]);
      chunks := chunks + [body[at..next]];
      assert body[..at] + body[at..next] == body[..next];
      at := next;
    }
    ConcatSnoc(chunks, body[at..]);
    chunks := chunks + [body[at..]];
    assert body[..at] + body[at..] == body;
  }

  lemma NoChunks()
    ensures Concat([]) == []
  {
  }

  class ArticleCache {
    const articles: Articles
    /** Everything that is ever asked for through this cache. */
    ghost const refs: set<ArticleRef>
    /** Nobody else uses the cache. */
    const quiet: bool
    var hot: seq<HotEntry>
    var disk: map<Key, Buffer>
    /** Fetches under way, by the key they were registered under. */
    var inFlight: map<Key, ArticleRef>
    var streamCacheEnabled: bool
    /** How many articles were asked of the network. */
    ghost var fetches: nat

    ghost predicate InHot(key: Key)
      reads this
    {
      exists e :: e in hot && e.key == key
    }

    /** Something can be answered under this key without a fetch of one's own. */
    ghost predicate Known(key: Key)
      reads this
    {
      (streamCacheEnabled && (InHot(key) || key in disk)) || key in inFlight
    }

    /** Every store holds, under each key, an article somebody asks for under it. */
    ghost predicate Valid()
      reads this
    {
      && (forall e | e in hot :: Serves(refs, articles, e.key, e.value))
      && (forall key | key in disk :: Serves(refs, articles, key, disk[key]))
      && (forall key | key in inFlight :: inFlight[key] in refs && inFlight[key].Key() == key)
    }

    constructor (quiet: bool, articles: Articles, ghost refs: set<ArticleRef>)
      ensures Valid() && hot == [] && disk == map[] && inFlight == map[]
      ensures this.articles == articles && this.refs == refs && this.quiet == quiet
    {
      this.quiet, this.articles, this.refs := quiet, articles, refs;
      hot, disk, inFlight, streamCacheEnabled, fetches := [], map[], map[], false, 0;
    }

    /**
     Other work runs meanwhile: entries come, go and are pruned, fetches start and end, the policy
     changes. In a quiet cache nothing does.
     */
    method Await()
      requires Valid()
      modifies this
      ensures Valid()
      ensures quiet ==> hot == old(hot) && disk == old(disk) && inFlight == old(inFlight)
      ensures quiet ==> streamCacheEnabled == old(streamCacheEnabled) && fetches == old(fetches)
    {
      if quiet {
        return;
      }
      var prunedFiles, endedFetches: set<Key> := *, *;
      disk, inFlight := disk - prunedFiles, inFlight - endedFetches;
      streamCacheEnabled, fetches := *, *;
    }

    method Lookup(key: Key) returns (r: Option<Buffer>)
      requires Valid()
      ensures r.Some? ==> Serves(refs, articles, key, r.value)
      ensures r.Some? <==> InHot(key)
    {
      for i := 0 to |hot|
        invariant forall j | 0 <= j < i :: hot[j].key != key
      {
        if hot[i].key == key {
          return Some(hot[i].value);
        }
      }
      return None;
    }

    /** `Map.set`: an existing key keeps its place. */
    method SetHot(key: Key, value: Buffer, now: int)
      requires Valid() && Serves(refs, articles, key, value)
      modifies this`hot
      ensures Valid()
      ensures InHot(key)
    {
      var entry := HotEntry(key, value, now);
      for i := 0 to |hot|
        invariant hot == old(hot)
      {
        if hot[i].key == key {
          hot := hot[i := entry];
          assert hot[i] in hot;
          return;
        }
      }
      hot := hot + [entry];
      assert hot[|hot| - 1] in hot;
    }

    /** What memory, disk or somebody else's fetch has under the key, in the order they are tried. */
    method LookEverywhere(r: ArticleRef, enabled: bool) returns (found: Option<Buffer>)
      requires Valid() && r in refs && (quiet ==> enabled == streamCacheEnabled)
      modifies this
      ensures Valid()
      ensures found.Some? ==> Serves(refs, articles, r.Key(), found.value)
      ensures quiet ==> (found.Some? <==> old(Known(r.Key()))) && fetches == old(fetches)
      ensures quiet ==> streamCacheEnabled == old(streamCacheEnabled) && disk == old(disk) && inFlight == old(inFlight)
      ensures quiet && enabled && found.Some? ==> InHot(r.Key()) || r.Key() in inFlight
    {
      hide Serves;
      var now: int := *;
      if enabled {
        var cached := Lookup(r.Key());
        if cached.Some? {
          SetHot(r.Key(), cached.value, now);
          return cached;
        }
        Await();
        if r.Key() in disk {
          SetHot(r.Key(), disk[r.Key()], now);
          return Some(disk[r.Key()]);
        }
      }
      if r.Key() in inFlight {
        var leader := inFlight[r.Key()];
        OwnArticleServes(refs, articles, leader);
        Await();
        return Some(articles(leader.articleId));
      }
      return None;
    }

    method PutOnDisk(r: ArticleRef, body: Buffer)
      requires Valid() && Serves(refs, articles, r.Key(), body)
      modifies this`disk
      ensures Valid()
      ensures disk == if body == [] then old(disk) else old(disk)[r.Key() := body]
    {
      if |body| > 0 {
        disk := disk[r.Key() := body];
      }
    }

    method Register(r: ArticleRef)
      requires Valid() && r in refs
      modifies this`inFlight, this`fetches
      ensures Valid() && inFlight == old(inFlight)[r.Key() := r] && fetches == old(fetches) + 1
    {
      inFlight, fetches := inFlight[r.Key() := r], fetches + 1;
    }

    /** The end of a fetch, whichever entry is under its key by now. */
    method Unregister(r: ArticleRef)
      requires Valid()
      modifies this`inFlight
      ensures Valid() && inFlight == old(inFlight) - {r.Key()}
    {
      inFlight := inFlight - {r.Key()};
    }

    /** What a completed fetch leaves behind: never more than 256 MiB in memory. */
    method Keep(r: ArticleRef, body: Buffer)
      requires Valid() && r in refs && body == articles(r.articleId)
      modifies this
      ensures Valid() && TotalBytes(hot) <= 256 * 1024 * 1024
      ensures quiet ==> disk == (if body == [] then old(disk) else old(disk)[r.Key() := body]) && inFlight == old(inFlight)
      ensures quiet ==> streamCacheEnabled == old(streamCacheEnabled) && fetches == old(fetches)
    {
      hide Serves, Valid, TotalBytes, FreshEntries;
      // The clock and the policies' bounds.
      var now: int, maxAgeMs: int, cacheMaxBytes: int := *, *, *;
      OwnArticleServes(refs, articles, r);
      SetHot(r.Key(), body, now);
      Await();
      PutOnDisk(r, body);
      Await();
      PruneHotCache(Min(cacheMaxBytes, HOT_CACHE_MAX), maxAgeMs, now);
      NothingKept(now, maxAgeMs);
    }

    /**
     Whichever layer answers, the answer is an article asked for under this key, and so
     the article asked for here if no other shares its key. In a quiet cache there is a fetch
     exactly when memory, disk and the table of fetches know nothing, and none for the same
     key afterwards while the cache is on.
     */
    method GetOrFetch(r: ArticleRef) returns (body: Buffer)
      requires Valid() && r in refs
      modifies this
      ensures Valid() && Serves(refs, articles, r.Key(), body)
      ensures SoleUser(refs, r) ==> body == articles(r.articleId)
      ensures quiet ==> fetches == old(fetches) + if old(Known(r.Key())) then 0 else 1
      ensures quiet && old(streamCacheEnabled) && body != [] ==> Known(r.Key())
    {
      hide Serves, SoleUser, Valid;
      Await();
      var enabled := streamCacheEnabled;
      var found := LookEverywhere(r, enabled);
      if found.Some? {
        body := found.value;
      } else {
        Await();
        Register(r);
        Await();
        body := articles(r.articleId);
        OwnArticleServes(refs, articles, r);
        if enabled {
          Keep(r, body);
        }
        Unregister(r);
      }
      if SoleUser(refs, r) {
        SoleUserIsServed(refs, articles, r, body);
      }
    }

    /**
     The progressive twin. A fetch of one's own arrives in chunks; a reader that stops
     asking for them before the end leaves nothing behind.
     */
    method StreamSegment(r: ArticleRef) returns (chunks: seq<Buffer>)
      requires Valid() && r in refs
      modifies this
      ensures Valid() && Serves(refs, articles, r.Key(), Concat(chunks))
      ensures SoleUser(refs, r) ==> Concat(chunks) == articles(r.articleId)
      ensures quiet ==> fetches == old(fetches) + if old(Known(r.Key())) then 0 else 1
    {
      hide Serves, SoleUser, Concat, Valid;
      Await();
      var enabled := streamCacheEnabled;
      var found := LookEverywhere(r, enabled);
      if found.Some? {
        chunks := [found.value];
        OneChunk(found.value);
      } else {
        Await();
        Register(r);
        Await();
        chunks := Divide(articles(r.articleId));
        OwnArticleServes(refs, articles, r);
        var abandoned: bool := *;
        if enabled && !abandoned {
          Keep(r, articles(r.articleId));
        }
        Unregister(r);
      }
      if SoleUser(refs, r) {
        SoleUserIsServed(refs, articles, r, Concat(chunks));
      }
    }

    /**
     Removes what has expired and then the oldest entries, no more than needed: what
     stays is a tail of the fresh entries within the bound, and one entry more would
     have been too much.
     */
    method PruneHotCache(maxSizeBytes: int, maxAgeMs: int, now: int)
      requires Valid()
      modifies this`hot
      ensures Valid()
      ensures forall e | e in hot :: e in old(hot) && e.updatedAt >= now - maxAgeMs
      ensures TotalBytes(FreshEntries(old(hot), now, maxAgeMs)) <= maxSizeBytes ==>
        forall e | e in old(hot) && e.updatedAt >= now - maxAgeMs :: e in hot
      ensures var alive := FreshEntries(old(hot), now, maxAgeMs);
        exists k: nat | k <= |alive| ::
          && hot == alive[k..]
          && (hot == [] || TotalBytes(hot) <= maxSizeBytes)
          && (k > 0 ==> TotalBytes(alive[k - 1..]) > maxSizeBytes)
    {
      hide Serves, TotalBytes, FreshEntries;
      var kept, total := DropExpired(hot, now, maxAgeMs);
      FreshAreRecent(hot, now, maxAgeMs);
      var k := CountOldest(kept, total, maxSizeBytes);
      TailIsOf(kept, k);
      if k > 0 {
        TailHoldsLess(kept, k - 1);
      }
      hot := kept[k..];
    }
  }

  /** The first loop: what has not expired, and how much it holds. */
  method DropExpired(entries: seq<HotEntry>, now: int, maxAgeMs: int) returns (kept: seq<HotEntry>, total: int)
    ensures kept == FreshEntries(entries, now, maxAgeMs) && total == TotalBytes(kept)
  {
    hide FreshEntries, TotalBytes;
    kept, total := [], 0;
    NothingKept(now, maxAgeMs);
    for i := 0 to |entries|
      invariant kept == FreshEntries(entries[..i], now, maxAgeMs) && total == TotalBytes(kept)
    {
      assert entries[..i + 1] == entries[..i] + [entries[i]];
      FreshSnoc(entries[..i], entries[i], now, maxAgeMs);
      if IsFresh(entries[i], now, maxAgeMs) {
        TotalSnoc(kept, entries[i]);
        kept := kept + [entries[i]];
        total := total + |entries[i].value|;
      }
    }
    assert entries[..|entries|] == entries;
  }

  lemma NothingKept(now: int, maxAge: int)
    ensures FreshEntries([], now, maxAge) == [] && TotalBytes([]) == 0
  {
  }

  /** The second loop: how many of the oldest have to go. */
  method CountOldest(entries: seq<HotEntry>, size: int, maxSizeBytes: int) returns (k: nat)
    requires size == TotalBytes(entries)
    ensures k <= |entries| && (k == |entries| || TotalBytes(entries[k..]) <= maxSizeBytes)
    ensures k > 0 ==> TotalBytes(entries[k - 1..]) > maxSizeBytes
  {
    var total := size;
    k := 0;
    assert entries[0..] == entries;
    while k < |entries|
      invariant k <= |entries| && total == TotalBytes(entries[k..])
      invariant k > 0 ==> TotalBytes(entries[k - 1..]) > maxSizeBytes
    {
      if total <= maxSizeBytes {
        break;
      }
      assert entries[k..][1..] == entries[k + 1..];
      total := total - |entries[k].value|;
      k := k + 1;
    }
  }
}
