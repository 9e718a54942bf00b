/** Whole-use scenarios of a ZSeek: io.ReadFull over its Read, and the sequences of
    calls the package's tests make, with the outcome each one promises. */
module Scenarios {
  import opened Wrappers
  import opened LittleEndian
  import opened Chunks
  import opened ZSeekFile

  /** io.ReadFull: Read repeatedly, asking for the rest each time, until k bytes are
    gathered or Read fails. Stopping at the end of the stream before the first byte
    is EOF, after some bytes an unexpected EOF. */
  method ReadFull(z: ZSeek, k: nat) returns (data: seq<byte>, e: Option<Error>)
    requires z.Valid()
    modifies z
    ensures z.Valid()
    ensures z.store == old(z.store) && z.writeBuf == old(z.writeBuf) && z.chunks == old(z.chunks)
    ensures |data| <= k && (e.None? <==> |data| == k)
    ensures old(z.err).None? ==>
      old(z.pos.virt) + |data| <= |z.Stream()| && data == z.Stream()[old(z.pos.virt)..old(z.pos.virt) + |data|]
    ensures old(z.err).None? && e.None? ==> z.err.None? && z.pos.virt == old(z.pos.virt) + k
    ensures old(z.err).Some? && k > 0 ==> e == old(z.err)
    ensures e == Some(EOF) ==> data == []
    ensures e.Some? && data != [] ==> e != Some(EOF)
    ensures old(z.err).None? && z.NoEmpty() && old(z.pos.virt) + k <= |z.Stream()| ==> e.None?
    ensures old(z.err).None? && z.IsFull() && k > 0 && old(z.pos.virt) == |z.Stream()| ==>
      data == [] && e == Some(EOF) && z.err.None?
    ensures old(z.err).None? && z.IsFull() ==> z.err.None?
    // a read cut short by the end of the stream
    ensures old(z.err).None? && e.Some? && z.err.None? && data != [] ==> e == Some(UnexpectedEOF)
    ensures old(z.err).None? && z.IsFull() && z.NoEmpty() && old(z.pos.virt) + k > |z.Stream()| ==>
      data == z.Stream()[old(z.pos.virt)..]
  {
    ghost var start := z.pos.virt;
    ghost var str := z.Stream();
    data := [];
    e := None;
    while |data| < k && e.None?
      invariant z.Valid() && z.store == old(z.store) && z.writeBuf == old(z.writeBuf) && z.chunks == old(z.chunks)
      invariant z.IsFull() == old(z.IsFull()) && z.NoEmpty() == old(z.NoEmpty())
      invariant Gathered(z, k, data, e, start, str, old(z.err))
      decreases k - |data|, if e.None? then 1 else 0
    {
      data, e := ReadMore(z, k, data, start, str, old(z.err));
    }
    if |data| == k {
      e := None;
    } else if |data| > 0 && e == Some(EOF) {
      e := Some(UnexpectedEOF);
    }
  }

  /** What io.ReadFull's loop knows after gathering data with last outcome e, having
    started at virtual offset start of the stream str with sticky error err0. */
  ghost predicate Gathered(z: ZSeek, k: nat, data: seq<byte>, e: Option<Error>, start: int, str: seq<byte>,
                           err0: Option<Error>)
    reads z
  {
    z.Stream() == str && |data| <= k && (e.Some? ==> |data| < k) &&
    (err0.None? ==> 0 <= start && start + |data| <= |str| && data == str[start..start + |data|]) &&
    (err0.None? && e.None? ==> z.err.None? && z.pos.virt == start + |data|) &&
    (err0.Some? ==> data == [] && z.err == err0 && (e.Some? ==> e == err0)) &&
    (err0.None? && z.IsFull() && k > 0 && start == |str| ==>
      data == [] && (e.None? || e == Some(EOF)) && z.err.None?) &&
    (err0.None? && z.NoEmpty() && start + k <= |str| ==> e.None?) &&
    (err0.None? && e.Some? && z.err.None? ==> e == Some(EOF)) &&
    (err0.None? && z.IsFull() && z.NoEmpty() && e.Some? ==> start + |data| == |str|) &&
    (err0.None? && z.IsFull() ==> z.err.None?)
  }

  /** One pass of io.ReadFull's loop: Read asked for the rest, its bytes appended. */
  method ReadMore(z: ZSeek, k: nat, data: seq<byte>, ghost start: int, ghost str: seq<byte>,
                  ghost err0: Option<Error>)
    returns (data': seq<byte>, e: Option<Error>)
    requires z.Valid() && |data| < k && Gathered(z, k, data, None, start, str, err0)
    modifies z
    ensures z.Valid() && z.store == old(z.store) && z.writeBuf == old(z.writeBuf) && z.chunks == old(z.chunks)
    ensures z.IsFull() == old(z.IsFull()) && z.NoEmpty() == old(z.NoEmpty())
    ensures Gathered(z, k, data', e, start, str, err0)
    ensures |data| <= |data'| && (e.None? ==> |data| < |data'|)
  {
    var d;
    d, e := z.Read(k - |data|);
    if err0.None? && e.None? {
      ExtendSlice(str, start, data, d);
    }
    data' := data + d;
  }

  /** Two adjacent slices of s join into one. */
  lemma ExtendSlice(s: seq<byte>, start: nat, a: seq<byte>, b: seq<byte>)
    requires start + |a| + |b| <= |s|
    requires a == s[start..start + |a|] && b == s[start + |a|..start + |a| + |b|]
    ensures a + b == s[start..start + |a| + |b|]
  {
  }

  /** The empty-store test: a fresh instance over an empty store reads nothing, with
    EOF unless nothing is asked for, and every seek to offset 0 lands at 0. */
  method EmptyStore(codec: Codec, level: int, bufSize: int)
    returns (d1: seq<byte>, e1: Option<Error>, d2: seq<byte>, e2: Option<Error>,
             o1: int, e3: Option<Error>, o2: int, e4: Option<Error>, o3: int, e5: Option<Error>)
    requires WellBehaved(codec) && ValidLevel(level) && bufSize < BodyLimit
    ensures d1 == [] && e1 == Some(EOF) && d2 == [] && e2.None?
    ensures o1 == 0 && e3.None? && o2 == 0 && e4.None? && o3 == 0 && e5.None?
  {
    var z := new ZSeek([], level, bufSize, codec);
    d1, e1 := z.Read(10);
    d2, e2 := z.Read(0);
    o1, e3 := z.Seek(0, SeekStart);
    o2, e4 := z.Seek(0, SeekCur);
    o3, e5 := z.Seek(0, SeekEnd);
  }

  /** The rest of the empty-store test: once a read has found the end of an empty
    store, a seek one byte before the start or one byte past the end, from any
    origin, is refused. */
  method EmptyStoreOutOfRange(codec: Codec, level: int, bufSize: int, offset: int, whence: int)
    returns (o: int, e: Option<Error>)
    requires WellBehaved(codec) && ValidLevel(level) && bufSize < BodyLimit
    requires (offset == -1 || offset == 1) && SeekStart <= whence <= SeekEnd
    ensures o == 0 && e == Some(InvalidSeek)
  {
    var z := new ZSeek([], level, bufSize, codec);
    var d, e1 := z.Read(10);
    o, e := z.Seek(offset, whence);
  }

  /** The first half of the write test, its writes and seeks: after data is written
    to an empty store the cursor is at its end, and a seek back by one byte lands
    on the last byte. */
  method WriteThenSeekBack(data: seq<byte>, level: int, bufSize: int, codec: Codec)
    returns (z: ZSeek, n: nat, e1: Option<Error>, o1: int, e2: Option<Error>, o2: int, e3: Option<Error>)
    requires WellBehaved(codec) && ValidLevel(level) && bufSize < BodyLimit && |data| > 0
    ensures fresh(z) && z.Valid() && z.err.None?
    ensures z.Stream() == data && z.pos.virt == |data| - 1 && z.IsFull() && z.NoEmpty()
    ensures n == |data| && e1.None?
    ensures o1 == |data| && e2.None?
    ensures o2 == |data| - 1 && e3.None?
  {
    z := new ZSeek([], level, bufSize, codec);
    n, e1 := z.Write(data);
    assert data[..|data|] == data;
    o1, e2 := z.Seek(0, SeekCur);
    o2, e3 := z.Seek(-1, SeekCur);
  }

  /** The write test's reads: one byte back from the end of what was written, a read
    gives the last byte, and the next read EOF. */
  method WriteSeekBackRead(data: seq<byte>, level: int, bufSize: int, codec: Codec)
    returns (d1: seq<byte>, e4: Option<Error>, d2: seq<byte>, e5: Option<Error>)
    requires WellBehaved(codec) && ValidLevel(level) && bufSize < BodyLimit && |data| > 0
    ensures d1 == [data[|data| - 1]] && e4.None?
    ensures d2 == [] && e5 == Some(EOF)
  {
    var z, n, e1, o1, e2, o2, e3 := WriteThenSeekBack(data, level, bufSize, codec);
    d1, e4 := z.Read(|data|);
    d2, e5 := z.Read(|data|);
  }

  /** The first half of the write-then-read-back test: data written to an empty
    store is at the end for Seek, and a flush commits all of it. */
  method WriteAndFlush(data: seq<byte>, level: int, bufSize: int, codec: Codec)
    returns (z: ZSeek, n: nat, e1: Option<Error>, o1: int, e2: Option<Error>, e3: Option<Error>)
    requires WellBehaved(codec) && ValidLevel(level) && bufSize < BodyLimit
    ensures fresh(z) && z.Valid() && z.err.None? && z.writeBuf == []
    ensures z.Stream() == data && z.IsFull() && z.NoEmpty()
    ensures n == |data| && e1.None?
    ensures o1 == |data| && e2.None? && e3.None?
  {
    z := new ZSeek([], level, bufSize, codec);
    n, e1 := z.Write(data);
    o1, e2 := z.Seek(0, SeekEnd);
    e3 := z.Flush();
    assert data[..|data|] == data;
  }

  /** A fresh instance over the store another instance has flushed: it parses the
    store the same way, so it holds the same stream, from the origin. */
  method Reopen(w: ZSeek, level: int, bufSize: int) returns (z: ZSeek)
    requires w.Valid() && w.writeBuf == [] && bufSize < BodyLimit
    ensures fresh(z) && z.Valid() && z.err.None? && z.level == level && z.codec == w.codec
    ensures z.pos.virt == 0 && z.end.virt == Unknown && z.readBuf == [] && z.writeBuf == [] && z.storeCur == 0
    ensures z.store == w.store && z.Stream() == w.Stream()
    ensures z.IsFull() == w.IsFull() && z.NoEmpty() == w.NoEmpty()
  {
    z := new ZSeek(w.store, level, bufSize, w.codec);
    SameStore(z.chunks, w.chunks, w.store, w.codec.decompress);
  }

  /** A fresh instance over a flushed, whole store finds its end at the stream's
    length. */
  method SeekEndAfterReopen(w: ZSeek, level: int, bufSize: int) returns (o: int, e: Option<Error>)
    requires w.Valid() && w.writeBuf == [] && w.IsFull() && w.NoEmpty()
    requires ValidLevel(level) && bufSize < BodyLimit
    ensures o == |w.Stream()| && e.None?
  {
    var z := Reopen(w, level, bufSize);
    o, e := z.Seek(0, SeekEnd);
  }

  /** A fresh instance over a flushed, whole store reads the stream back in full with
    io.ReadFull asking for its length k, and the next io.ReadFull gets nothing, with
    EOF unless the stream is empty. */
  method ReadBackAfterReopen(w: ZSeek, level: int, bufSize: int, k: nat)
    returns (back: seq<byte>, e1: Option<Error>, rest: seq<byte>, e2: Option<Error>)
    requires w.Valid() && w.writeBuf == [] && w.IsFull() && w.NoEmpty() && bufSize < BodyLimit
    requires k == |w.Stream()|
    ensures back == w.Stream() && e1.None?
    ensures rest == [] && (if k > 0 then e2 == Some(EOF) else e2.None?)
  {
    var z := Reopen(w, level, bufSize);
    back, e1 := ReadFull(z, k);
    assert z.Stream()[0..k] == z.Stream();
    rest, e2 := ReadFull(z, k);
  }

  /** The write-then-read-back test: data written to an empty store is at the end
    for Seek; once flushed, a fresh instance over the same store finds its end at
    the same offset, and reads the data back in full, then EOF. */
  method WriteFlushReadBack(data: seq<byte>, level: int, bufSize: int, codec: Codec)
    returns (n: nat, e1: Option<Error>, o1: int, e2: Option<Error>, e3: Option<Error>,
             o2: int, e4: Option<Error>, back: seq<byte>, e5: Option<Error>,
             rest: seq<byte>, e6: Option<Error>)
    requires WellBehaved(codec) && ValidLevel(level) && bufSize < BodyLimit
    ensures n == |data| && e1.None?
    ensures o1 == |data| && e2.None? && e3.None?
    ensures o2 == |data| && e4.None?
    ensures back == data && e5.None?
    ensures rest == [] && (if |data| > 0 then e6 == Some(EOF) else e6.None?)
  {
    var z;
    z, n, e1, o1, e2, e3 := WriteAndFlush(data, level, bufSize, codec);
    o2, e4 := SeekEndAfterReopen(z, level, bufSize);
    back, e5, rest, e6 := ReadBackAfterReopen(z, level, bufSize, |data|);
  }

  /** Writing after a read has found the end of an empty store: the written byte is
    part of the stream, so seeking to the current offset (one) succeeds. */
  method WriteAfterEnd(codec: Codec, level: int, bufSize: int)
    returns (d: seq<byte>, e1: Option<Error>, n: nat, e2: Option<Error>, o: int, e3: Option<Error>)
    requires WellBehaved(codec) && ValidLevel(level) && bufSize < BodyLimit
    ensures d == [] && e1 == Some(EOF)
    ensures n == 1 && e2.None?
    ensures o == 1 && e3.None?
  {
    var z := new ZSeek([], level, bufSize, codec);
    d, e1 := z.Read(10);
    n, e2 := z.Write([65]);
    o, e3 := z.Seek(0, SeekCur);
  }

  /** The write-then-read-back test over a concrete codec that meets the codec
    contract: whatever was written, at the default level, reads back unchanged. */
  method MarkedRoundTrip(data: seq<byte>, bufSize: int) returns (back: seq<byte>, e: Option<Error>)
    requires bufSize < BodyLimit
    ensures back == data && e.None?
  {
    var n, e1, o1, e2, e3, o2, e4, rest, e6;
    n, e1, o1, e2, e3, o2, e4, back, e, rest, e6 :=
      WriteFlushReadBack(data, DefaultCompression, bufSize, MarkedCodec());
  }

  /** A seek before the start of a fresh instance, whose logical end is not yet
    known, is refused and leaves the cursor at the origin. */
  method FreshSeekBeforeStart(contents: seq<byte>, bufSize: int) returns (o: int, e: Option<Error>, at: int)
    requires bufSize < BodyLimit
    ensures o == 0 && e == Some(InvalidSeek) && at == 0
  {
    var z := new ZSeek(contents, DefaultCompression, bufSize, MarkedCodec());
    o, e := z.Seek(-1, SeekStart);
    at := z.pos.virt;
  }

  /** A seek from the end to -1 or 1 on a fresh instance over an empty store: seekEnd
    finds the end at 0, and the target is refused. */
  method FreshSeekEndOutOfRange(bufSize: int, offset: int) returns (o: int, e: Option<Error>)
    requires bufSize < BodyLimit && (offset == -1 || offset == 1)
    ensures o == 0 && e == Some(InvalidSeek)
  {
    var z := new ZSeek([], DefaultCompression, bufSize, MarkedCodec());
    o, e := z.Seek(offset, SeekEnd);
  }

  /** io.ReadFull asking for two bytes of a flushed one-byte stream gets that byte and
    an unexpected EOF. */
  method ShortReadFull(b: byte, bufSize: int) returns (d: seq<byte>, e: Option<Error>)
    requires bufSize < BodyLimit
    ensures d == [b] && e == Some(UnexpectedEOF)
  {
    var w, n, e1, o1, e2, e3 := WriteAndFlush([b], DefaultCompression, bufSize, MarkedCodec());
    var z := Reopen(w, DefaultCompression, bufSize);
    d, e := ReadFull(z, 2);
  }

  /** A write that stays below the auto-flush threshold only adds to the pending
    bytes, whatever the level: the store is untouched and nothing fails. */
  method WriteBelowThreshold(codec: Codec, level: int, bufSize: int, b: byte)
    returns (n: nat, e: Option<Error>, stored: seq<byte>, pending: seq<byte>)
    requires WellBehaved(codec) && 1 < bufSize < BodyLimit
    ensures n == 1 && e.None? && stored == [] && pending == [b]
  {
    var z := new ZSeek([], level, bufSize, codec);
    n, e := z.Write([b]);
    stored, pending := z.store, z.writeBuf;
  }

  /** A write that reaches the threshold is flushed as one chunk holding it. */
  method WriteAtThreshold(codec: Codec, level: int, a: byte, b: byte)
    returns (n: nat, e: Option<Error>, stored: seq<byte>, pending: seq<byte>)
    requires WellBehaved(codec) && ValidLevel(level)
    ensures n == 2 && e.None? && pending == []
    ensures stored == ChunkBytes(codec.compress(level, [a, b]))
  {
    var z := new ZSeek([], level, 2, codec);
    AutoFlushAtThreshold([], [], [a, b], 2, codec, level);
    ghost var chunk := ChunkBytes(codec.compress(level, [a, b]));
    assert [] + [a, b] == [a, b] && [] + chunk == chunk;
    n, e := z.Write([a, b]);
    stored, pending := z.store, z.writeBuf;
  }

  /** Once a read has found the end, a seek one byte past the new end after a write
    is refused. This holds with or without the known end moving with the write: a
    known end left behind by the write is even further from the target. */
  method SeekPastEndAfterWrite(codec: Codec, level: int, b: byte)
    returns (e1: Option<Error>, e2: Option<Error>, o: int, e3: Option<Error>)
    requires WellBehaved(codec) && ValidLevel(level)
    ensures e1 == Some(EOF) && e2.None? && o == 0 && e3 == Some(InvalidSeek)
  {
    var z := new ZSeek([], level, 10, codec);
    var d, n;
    d, e1 := z.Read(10);
    n, e2 := z.Write([b]);
    o, e3 := z.Seek(1, SeekCur);
  }

  /** With nothing to flush the level plays no part: a seek before the start of a
    fresh instance at an unusable level is refused like any other. */
  method SeekBeforeStartAnyLevel(codec: Codec, level: int, bufSize: int)
    returns (o: int, e: Option<Error>)
    requires WellBehaved(codec) && bufSize < BodyLimit
    ensures o == 0 && e == Some(InvalidSeek)
  {
    var z := new ZSeek([], level, bufSize, codec);
    o, e := z.Seek(-1, SeekStart);
  }
  /** One byte written at the physical end, below the threshold, is only pending. */
  method WriteByte(w: ZSeek, b: byte)
    requires w.Valid() && w.err.None? && w.writeBuf == [] && w.readBuf == [] && w.pos.phys == w.end.phys
    requires w.buf > 1
    modifies w
    ensures w.Valid() && w.err.None? && w.writeBuf == [b] && w.store == old(w.store)
    ensures w.Stream() == old(w.Stream()) + [b] && (old(w.NoEmpty()) ==> w.NoEmpty())
  {
    ghost var s0 := w.store;
    var n, e := w.Write([b]);
    assert e.None? && n == 1;
    assert [b][..1] == [b];
    assert w.store == s0;
    AutoFlushTail(s0, [], [b], w.buf, w.codec, w.level);
  }

  /** One byte written at the physical end and flushed becomes one chunk of its own
    appended to the store. */
  method WriteByteAndFlush(w: ZSeek, b: byte)
    requires w.Valid() && w.err.None? && w.writeBuf == [] && w.readBuf == [] && w.pos.phys == w.end.phys
    requires w.buf > 1 && ValidLevel(w.level) && w.NoEmpty()
    modifies w
    ensures w.Valid() && w.err.None? && w.writeBuf == [] && w.readBuf == [] && w.pos.phys == w.end.phys
    ensures w.IsFull() && w.NoEmpty() && w.Stream() == old(w.Stream()) + [b]
    ensures w.store == old(w.store) + ChunkBytes(w.codec.compress(w.level, [b]))
  {
    WriteByte(w, b);
    var e := w.Flush();
  }

  /** Two one-byte writes, each flushed on its own, leave two chunks in the store, one
    per flush, holding the two bytes. */
  method TwoChunks(codec: Codec, level: int, a: byte, b: byte) returns (w: ZSeek)
    requires WellBehaved(codec) && ValidLevel(level)
    ensures fresh(w) && w.Valid() && w.err.None? && w.writeBuf == [] && w.IsFull() && w.NoEmpty()
    ensures w.Stream() == [a, b] && w.codec == codec
    ensures w.store == ChunkBytes(codec.compress(level, [a])) + ChunkBytes(codec.compress(level, [b]))
  {
    w := new ZSeek([], level, 10, codec);
    WriteByteAndFlush(w, a);
    WriteByteAndFlush(w, b);
  }

  /** A read never crosses a chunk boundary: over the two-chunk store, a fresh
    instance asked for two bytes gets only the first chunk's byte, and a second
    read gets the other one. */
  method ChunkBoundaryRead(codec: Codec, level: int, a: byte, b: byte)
    returns (d1: seq<byte>, e1: Option<Error>, d2: seq<byte>, e2: Option<Error>)
    requires WellBehaved(codec) && ValidLevel(level)
    ensures d1 == [a] && e1.None?
    ensures d2 == [b] && e2.None?
  {
    var w := TwoChunks(codec, level, a, b);
    var z := Reopen(w, level, 10);
    d1, e1, d2, e2 := ReadTwoChunks(z, codec, level, a, b);
  }

  /** The two reads of ChunkBoundaryRead, from the origin of the two-chunk store. */
  method ReadTwoChunks(z: ZSeek, codec: Codec, level: int, a: byte, b: byte)
    returns (d1: seq<byte>, e1: Option<Error>, d2: seq<byte>, e2: Option<Error>)
    requires z.Valid() && z.err.None? && z.pos.virt == 0 && z.readBuf == [] && z.writeBuf == []
    requires z.IsFull() && z.NoEmpty() && z.Stream() == [a, b] && z.codec == codec && WellBehaved(codec)
    requires z.storeCur == 0 && z.store == ChunkBytes(codec.compress(level, [a])) + ChunkBytes(codec.compress(level, [b]))
    modifies z
    ensures d1 == [a] && e1.None?
    ensures d2 == [b] && e2.None?
  {
    var c1 := codec.compress(level, [a]);
    ReadChunkAppended([], codec.decompress, c1, [a]);
    assert [] + ChunkBytes(c1) == ChunkBytes(c1);
    ReadChunkStable(ChunkBytes(c1), z.store, 0, codec.decompress);
    d1, e1 := z.Read(2);
    d2, e2 := z.Read(2);
  }
}
