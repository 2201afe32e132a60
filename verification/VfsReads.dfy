/**
 The two loops between the kernel and `readMountedFileRange`: `readVfsBytes` of
 src/services/vfsService.ts, which collects short reads, and the `read` handler of
 src/services/fuseMountService.ts, which fills the kernel's buffer.
 */
module VfsReads {
  import opened Bytes
  import opened MountedCache
  import opened Options
  import opened RangeHeader

  /**
   Collecting short reads: a non-empty prefix of what is still missing extends
   what is there, and an empty one shows that nothing is missing.
   */
  lemma ShortRead(content: Buffer, start: nat, total: nat, length: nat, done: Buffer, chunk: Buffer)
    requires total < length && done == Slice(content, start, total) && |done| == total
    requires chunk <= Slice(content, start + total, length - total)
    requires start + total < |content| ==> chunk != []
    ensures done + chunk == Slice(content, start, total + |chunk|) && |done + chunk| == total + |chunk| <= length
    ensures chunk == [] ==> done == Slice(content, start, length)
  {
    var rest := Slice(content, start + total, length - total);
    assert chunk == rest[..|chunk|] == Slice(content, start + total, |chunk|);
    SliceJoin(content, start, total, |chunk|);
  }

  datatype Request = Request(path: string, start: nat, length: nat, sessionId: string)

  class FuseMount {
    const mounted: MountedFiles
    /** The path each open file descriptor stands for. */
    var fileHandles: map<nat, string>
    var nextFd: nat
    /** The policy setting the read handler looks up. */
    var streamChunkSizeBytes: nat

    constructor (mounted: MountedFiles)
      ensures this.mounted == mounted && fileHandles == map[] && HandlesOk()
    {
      this.mounted := mounted;
      fileHandles, nextFd, streamChunkSizeBytes := map[], 10, 0;
    }

    /** Descriptors yet to come are not in use. */
    predicate HandlesOk()
      reads this
    {
      forall fd | fd in fileHandles :: fd < nextFd
    }

    /** Files are opened for reading only, each time under a descriptor of its own. */
    method Open(path: string, readOnly: bool) returns (fd: Option<nat>)
      requires HandlesOk()
      modifies this`fileHandles, this`nextFd
      ensures HandlesOk()
      ensures fd.Some? <==> readOnly && path in mounted.files
      ensures fd.None? ==> fileHandles == old(fileHandles)
      ensures fd.Some? ==> fd.value !in old(fileHandles) && fileHandles == old(fileHandles)[fd.value := path]
      ensures fd.Some? ==> forall other, asked ::
        HandlePath(asked, other) == if other == fd.value then path else old(HandlePath(asked, other))
    {
      if !readOnly || path !in mounted.files {
        return None;
      }
      fd := Some(nextFd);
      nextFd := nextFd + 1;
      fileHandles := fileHandles[fd.value := path];
    }

    function HandlePath(path: string, fd: nat): string
      reads this
    {
      if fd in fileHandles then fileHandles[fd] else path
    }

    function TargetLength(length: nat): nat
      reads this
    {
      Min(length, Max(512 * 1024, Min(streamChunkSizeBytes, 4 * 1024 * 1024)))
    }

    /** However short the single reads are, together they are complete. */
    method ReadVfsBytes(path: string, start: nat, length: int, sessionId: string) returns (out: Buffer)
      requires mounted.Valid() && path in mounted.files
      modifies mounted, mounted.cache
      ensures mounted.Valid()
      ensures path in mounted.files && mounted.files[path].fileId in mounted.contents
      ensures out == Slice(mounted.ContentOf(path), start, Max(0, length))
    {
      hide MountedFiles.Valid, Slice;
      mounted.FileSize(path);
      ghost var content := mounted.ContentOf(path);
      SliceNothing(content, start);
      if length <= 0 {
        return [];
      }
      var chunks: seq<Buffer> := [];
      var total := 0;
      while total < length
        invariant mounted.Valid()
        invariant total == |Concat(chunks)| <= length && Concat(chunks) == Slice(content, start, total)
        decreases length - total
      {
        var chunk := mounted.ReadMountedFileRange(path, start + total, length - total, sessionId);
        ShortRead(content, start, total, length, Concat(chunks), chunk);
        if |chunk| == 0 {
          break;
        }
        ConcatSnoc(chunks, chunk);
        chunks := chunks + [chunk];
        total := total + |chunk|;
      }
      out := Concat(chunks);
    }

    /**
     The kernel gets exactly the file's bytes at `position`, as many as it may have
     at once and the file has left, and the rest of its buffer is left alone.
     */
    method Read(path: string, fd: nat, buffer: array<Byte>, length: nat, position: nat) returns (bytesRead: nat)
      requires mounted.Valid() && HandlePath(path, fd) in mounted.files
      requires length <= buffer.Length
      modifies mounted, mounted.cache, buffer
      ensures mounted.Valid()
      ensures mounted.files[HandlePath(path, fd)].fileId in mounted.contents
      ensures var wanted := Slice(mounted.ContentOf(HandlePath(path, fd)), position, TargetLength(length));
        bytesRead == |wanted| <= length && buffer[..] == wanted + old(buffer[..])[bytesRead..]
    {
      hide MountedFiles.Valid, Slice, FilledTo;
      var handlePath := HandlePath(path, fd);
      mounted.FileSize(handlePath);
      ghost var content := mounted.ContentOf(handlePath);
      SliceNothing(content, position);
      var targetLength := TargetLength(length);
      ghost var initial := buffer[..];
      FillStarts(content, position, initial);
      var total := 0;
      while total < targetLength
        invariant mounted.Valid() && total <= targetLength
        invariant FilledTo(buffer[..], content, position, total, initial)
        decreases targetLength - total
      {
        var data := ReadVfsBytes(handlePath, position + total, targetLength - total, Decimal(fd));
        SliceShort(content, position, total, targetLength);
        if |data| == 0 {
          break;
        }
        FillOn(content, position, total, data, initial, buffer[..]);
        CopyInto(buffer, total, data);
        total := total + |data|;
      }
      FillEnds(buffer[..], content, position, total, targetLength, initial);
      bytesRead := total;
    }

    method Release(fd: nat)
      requires mounted.Valid() && HandlesOk()
      modifies this`fileHandles, mounted`sessions
      ensures mounted.Valid() && HandlesOk() && fileHandles == old(fileHandles) - {fd}
    {
      mounted.CloseSession(Decimal(fd));
      fileHandles := fileHandles - {fd};
    }

    /**
     Any run: reads of any files by any sessions, with other work, expiry, pruning
     and delayed chunk writes in between. Every answer is the file's content.
     */
    method Serve(requests: seq<Request>) returns (answers: seq<Buffer>)
      requires mounted.Valid()
      requires forall i | 0 <= i < |requests| :: requests[i].path in mounted.files
      modifies mounted, mounted.cache
      ensures mounted.Valid() && |answers| == |requests|
      ensures forall i | 0 <= i < |requests| ::
        mounted.files[requests[i].path].fileId in mounted.contents && Answered(requests[i], answers[i])
    {
      hide MountedFiles.Valid, Slice;
      answers := [];
      for index := 0 to |requests|
        invariant mounted.Valid() && |answers| == index
        invariant forall i | 0 <= i < index ::
          mounted.files[requests[i].path].fileId in mounted.contents && Answered(requests[i], answers[i])
      {
        var request := requests[index];
        mounted.FileSize(request.path);
        mounted.Await();
        var due: (string, nat, nat) := *;
        mounted.RunPendingWrite(due);
        var answer := mounted.ReadMountedFileRange(request.path, request.start, request.length, request.sessionId);
        answers := answers + [answer];
      }
    }

    ghost predicate Answered(request: Request, answer: Buffer)
      requires request.path in mounted.files && mounted.files[request.path].fileId in mounted.contents
    {
      var wanted := Slice(mounted.ContentOf(request.path), request.start, request.length);
      && (request.length <= 512 * 1024 * 1024 ==> answer == wanted)
      && answer <= wanted
      && (request.start < |mounted.ContentOf(request.path)| && request.length > 0 ==> answer != [])
    }
  }

  /** Node's `data.copy(buffer, at)`, for data that fits. */
  method CopyInto(buffer: array<Byte>, at: nat, data: Buffer)
    requires at + |data| <= buffer.Length
    modifies buffer
    ensures buffer[..] == old(buffer[..])[..at] + data + old(buffer[..])[at + |data|..]
  {
    forall k | 0 <= k < |data| {
      buffer[at + k] := data[k];
    }
  }

  /** The first `total` bytes are the file's, the others as they were. */
  ghost predicate FilledTo(now: Buffer, content: Buffer, position: nat, total: nat, initial: Buffer) {
    && total <= |initial| && |Slice(content, position, total)| == total
    && now == Slice(content, position, total) + initial[total..]
  }

  lemma FillStarts(content: Buffer, position: nat, initial: Buffer)
    ensures FilledTo(initial, content, position, 0, initial)
  {
  }

  lemma FillOn(content: Buffer, position: nat, total: nat, data: Buffer, initial: Buffer, now: Buffer)
    requires FilledTo(now, content, position, total, initial) && total + |data| <= |initial|
    requires |Slice(content, position, total + |data|)| == total + |data|
    requires Slice(content, position, total) + data == Slice(content, position, total + |data|)
    ensures |now| == |initial|
    ensures FilledTo(now[..total] + data + now[total + |data|..], content, position, total + |data|, initial)
  {
    hide Slice;
    assert now[..total] == Slice(content, position, total);
    assert now[total + |data|..] == initial[total + |data|..];
  }

  lemma FillEnds(now: Buffer, content: Buffer, position: nat, total: nat, target: nat, initial: Buffer)
    requires FilledTo(now, content, position, total, initial) && total <= target
    requires total == target || Slice(content, position, target) == Slice(content, position, total)
    ensures total == |Slice(content, position, target)|
    ensures now == Slice(content, position, target) + initial[total..]
  {
  }

  lemma SliceNothing(content: Buffer, start: nat)
    ensures Slice(content, start, 0) == [] && Concat([]) == []
  {
  }

  /** The fill loop's step: the bytes behind `total`, and what their absence means. */
  lemma SliceShort(content: Buffer, start: nat, total: nat, target: nat)
    requires total < target
    ensures var data := Slice(content, start + total, target - total);
      && |data| <= target - total
      && Slice(content, start, total) + data == Slice(content, start, total + |data|)
      && (data != [] ==> |Slice(content, start, total + |data|)| == total + |data|)
      && (data == [] ==> Slice(content, start, target) == Slice(content, start, total))
  {
    SliceJoin(content, start, total, target - total);
  }
}
