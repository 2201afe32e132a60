/**
 Byte buffers as Node's Buffer offers them, and the reference notion every
 reader is measured against: `Slice(content, start, length)`, the bytes of a
 file in a half-open window, cut off at the end of the file.
 */
module Bytes {

  type Byte = b: int | 0 <= b < 256

  type Buffer = seq<Byte>

  /** The decoded body of every article, by article id. */
  type Articles = string -> Buffer

  function Min(a: int, b: int): int {
    if a <= b then a else b
  }

  function Max(a: int, b: int): int {
    if a >= b then a else b
  }

  /** The bytes of `content` in [start, start + length), as far as `content` goes. */
  function Slice(content: Buffer, start: nat, length: nat): (r: Buffer)
    ensures |r| == if start >= |content| then 0 else Min(length, |content| - start)
  {
    if start >= |content| then [] else content[start..Min(start + length, |content|)]
  }

  /** Node's `subarray`: negative bounds count from the end, all bounds are clipped. */
  function Subarray(b: Buffer, from: int, to: int): (r: Buffer)
    ensures 0 <= from <= to ==> r == Slice(b, from, to - from)
  {
    var lo := Clip(from, |b|);
    var hi := Clip(to, |b|);
    if lo <= hi then b[lo..hi] else []
  }

  function Clip(i: int, n: nat): (r: nat)
    ensures r <= n
  {
    if i < 0 then Max(0, n + i) else Min(i, n)
  }

  lemma Reassociate<T>(a: seq<T>, b: seq<T>, c: seq<T>)
    ensures a + (b + c) == (a + b) + c
  {
  }

  /** Node's `Buffer.concat`. */
  function Concat(chunks: seq<Buffer>): Buffer {
    if chunks == [] then [] else chunks[0] + Concat(chunks[1..])
  }

  lemma {:induction false} ConcatAppend(a: seq<Buffer>, b: seq<Buffer>)
    ensures Concat(a + b) == Concat(a) + Concat(b)
  {
    if a == [] {
      assert a + b == b;
    } else {
      assert (a + b)[1..] == a[1..] + b;
      ConcatAppend(a[1..], b);
    }
  }

  lemma ConcatSnoc(a: seq<Buffer>, x: Buffer)
    ensures Concat(a + [x]) == Concat(a) + x
  {
    ConcatAppend(a, [x]);
    assert Concat([x]) == x + Concat([]);
  }

  /** Two adjacent slices make one. */
  lemma SliceJoin(content: Buffer, start: nat, a: nat, b: nat)
    ensures Slice(content, start, a) + Slice(content, start + a, b) == Slice(content, start, a + b)
  {
  }

  /** The same for plain subsequences. */
  lemma PartOfPart(b: Buffer, lo: nat, hi: nat, from: nat, to: nat)
    requires lo <= hi <= |b| && from <= to <= hi - lo
    ensures b[lo..hi][from..to] == b[lo + from..lo + to]
  {
    var inner, outer := b[lo..hi][from..to], b[lo + from..lo + to];
    assert |inner| == |outer|;
    forall k | 0 <= k < |inner|
      ensures inner[k] == outer[k]
    {
      assert inner[k] == b[lo..hi][from + k] == b[lo + (from + k)];
    }
  }

  /** A slice of a slice is a slice of the content. */
  lemma SliceOfSlice(content: Buffer, start: nat, length: nat, offset: nat, inner: nat)
    requires offset + inner <= length
    ensures Slice(Slice(content, start, length), offset, inner) == Slice(content, start + offset, inner)
  {
    if start < |content| {
      var lo, hi := start, Min(start + length, |content|);
      if offset < hi - lo {
        PartOfPart(content, lo, hi, offset, Min(offset + inner, hi - lo));
      }
    }
  }
}
