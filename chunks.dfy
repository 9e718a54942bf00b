/** The chunk wire format and the parse of a whole store into chunks.

    A store is a run of chunks laid back to back: an 8-byte little-endian signed
    length L, then L bytes of compressed data. Parsing starts at the origin and walks
    chunk by chunk; each chunk boundary reached is a checkpoint (a Position pairing the
    physical offset with the number of decompressed bytes before it). */
module Chunks {
  import opened Wrappers
  import opened LittleEndian

  /** One moment of the stream in both coordinate systems. */
  datatype Position = Position(phys: int, virt: int)

  type Decompressor = seq<byte> -> Option<seq<byte>>

  /** The compression codec: compress at a level, and decompress one chunk body
      (None when the body is not a valid compressed stream). */
  datatype Codec = Codec(compress: (int, seq<byte>) -> seq<byte>, decompress: Decompressor)

  /** The most pending bytes one chunk may be made of (2^62): below it, what zlib
      produces fits the signed 64-bit length prefix with room to spare. */
  const BodyLimit: int := Int64Limit / 2

  /** What is assumed of the codec: decompressing what was compressed gives the data
      back, and the compressed form of fewer than BodyLimit bytes fits the signed
      64-bit length prefix. */
  ghost predicate WellBehaved(c: Codec)
  {
    forall level: int, data: seq<byte> {:trigger c.compress(level, data)} ::
      c.decompress(c.compress(level, data)) == Some(data) &&
      (|data| < BodyLimit ==> |c.compress(level, data)| < Int64Limit)
  }

  /** A codec that stores each body behind a one-byte marker: it shows that the
      hypothesis on codecs can be met. */
  function MarkedCodec(): (c: Codec)
    ensures WellBehaved(c)
  {
    Codec((level: int, data: seq<byte>) => [0 as byte] + data,
          (body: seq<byte>) => if |body| > 0 && body[0] == 0 then Some(body[1..]) else None)
  }

  /** Compression levels accepted by the zlib writer (HuffmanOnly = -2 through BestCompression = 9). */
  predicate ValidLevel(level: int)
  {
    -2 <= level <= 9
  }

  /** One chunk on the wire: the length prefix followed by the compressed bytes. */
  function ChunkBytes(c: seq<byte>): (r: seq<byte>)
    requires |c| < Int64Limit
    ensures |r| == Width + |c|
  {
    EncodeLE(|c|, Width) + c
  }

  /** The prefix ChunkBytes writes is binary.Write's encoding of the length as an int64. */
  lemma ChunkPrefix(c: seq<byte>)
    requires |c| < Int64Limit
    ensures ChunkBytes(c)[..Width] == EncodeInt64(|c|)
  {
    assert ChunkBytes(c)[..Width] == EncodeLE(|c|, Width);
  }

  /** Outcome of reading one chunk at a physical offset. */
  datatype ChunkRead =
    | CleanEOF                 // no byte left: the end of input
    | ShortPrefix              // between 1 and 7 bytes left
    | NegativeLength(len: int) // the prefix decodes to a negative length
    | ShortBody(len: int)      // fewer than len bytes follow the prefix
    | Corrupt(len: int)        // the body does not decompress
    | Chunk(len: int, data: seq<byte>)

  function ReadChunk(store: seq<byte>, at: nat, dec: Decompressor): (r: ChunkRead)
    ensures r.CleanEOF? <==> at >= |store|
    ensures r.Chunk? ==> 0 <= r.len && at + Width + r.len <= |store|
  {
    if at >= |store| then CleanEOF
    else if |store| - at < Width then ShortPrefix
    else
      var l := DecodeInt64(store[at..at + Width]);
      if l < 0 then NegativeLength(l)
      else if |store| - (at + Width) < l then ShortBody(l)
      else match dec(store[at + Width..at + Width + l])
        case None => Corrupt(l)
        case Some(d) => Chunk(l, d)
  }

  /** A chunk reader: what reading one chunk at each physical offset gives. */
  type Reader = nat -> ChunkRead

  /** The reader of a store decompressing with dec. */
  function StoreReader(s: seq<byte>, dec: Decompressor): (read: Reader)
  {
    (q: nat) => ReadChunk(s, q, dec)
  }

  /** The parse steps over a complete chunk at p that ends within size. */
  predicate Steps(read: Reader, size: nat, p: nat)
  {
    read(p).Chunk? && 0 <= read(p).len && p + Width + read(p).len <= size
  }

  /** The offset just after the chunk at p. */
  function After(read: Reader, p: nat): (q: nat)
    requires read(p).Chunk? && 0 <= read(p).len
  {
    p + Width + read(p).len
  }

  /** The checkpoint where the parse from (p, v) stops: the first offset holding no chunk. */
  function ParseEnd(read: Reader, size: nat, p: nat, v: nat): (r: Position)
    ensures p <= r.phys && v <= r.virt
    decreases size - p
  {
    if Steps(read, size, p) then ParseEnd(read, size, After(read, p), v + |read(p).data|)
    else Position(p, v)
  }

  /** x is one of the checkpoints the parse from (p, v) reaches. */
  predicate IsPoint(read: Reader, size: nat, p: nat, v: nat, x: Position)
    decreases size - p
  {
    x == Position(p, v) ||
    (Steps(read, size, p) && IsPoint(read, size, After(read, p), v + |read(p).data|, x))
  }

  /** The decompressed bytes of the chunks parsed from p, in order. */
  function ContentFrom(read: Reader, size: nat, p: nat): (content: seq<byte>)
    decreases size - p
  {
    if Steps(read, size, p) then read(p).data + ContentFrom(read, size, After(read, p)) else []
  }

  /** Every chunk parsed from p decompresses to at least one byte. */
  predicate NoEmptyFrom(read: Reader, size: nat, p: nat)
    decreases size - p
  {
    Steps(read, size, p) ==> |read(p).data| > 0 && NoEmptyFrom(read, size, After(read, p))
  }

  /** Checkpoints lie between the start of the parse and the size bound, and their
      virtual offsets are bounded by the decompressed content. */
  lemma {:induction false} PointBounds(read: Reader, size: nat, p: nat, v: nat, x: Position)
    requires IsPoint(read, size, p, v, x)
    ensures p <= x.phys && v <= x.virt <= v + |ContentFrom(read, size, p)|
    ensures p <= size ==> x.phys <= size
    ensures x != Position(p, v) ==> p < x.phys
    decreases size - p
  {
    if x != Position(p, v) {
      PointBounds(read, size, After(read, p), v + |read(p).data|, x);
    }
  }

  /** The parse end is itself a checkpoint, no chunk is stepped over there, and its
      virtual offset is the length of the decompressed content. */
  lemma {:induction false} EndIsPoint(read: Reader, size: nat, p: nat, v: nat)
    ensures IsPoint(read, size, p, v, ParseEnd(read, size, p, v))
    ensures ParseEnd(read, size, p, v).virt == v + |ContentFrom(read, size, p)|
    ensures !Steps(read, size, ParseEnd(read, size, p, v).phys)
    decreases size - p
  {
    if Steps(read, size, p) {
      EndIsPoint(read, size, After(read, p), v + |read(p).data|);
    }
  }

  /** A checkpoint where no chunk is stepped over is the parse end. */
  lemma {:induction false} NoStepIsEnd(read: Reader, size: nat, p: nat, v: nat, x: Position)
    requires IsPoint(read, size, p, v, x)
    requires x.phys >= 0 && !Steps(read, size, x.phys)
    ensures x == ParseEnd(read, size, p, v)
    decreases size - p
  {
    if x != Position(p, v) {
      NoStepIsEnd(read, size, After(read, p), v + |read(p).data|, x);
    }
  }

  /** Checkpoints are ordered the same way in both coordinates: a checkpoint at a
      smaller physical offset has no larger virtual offset (strictly smaller when no
      chunk is empty), and two checkpoints at one physical offset are equal. */
  lemma {:induction false} PointOrder(read: Reader, size: nat, p: nat, v: nat, a: Position, b: Position)
    requires IsPoint(read, size, p, v, a) && IsPoint(read, size, p, v, b)
    requires a.phys <= b.phys
    ensures a.virt <= b.virt
    ensures a.phys == b.phys ==> a == b
    ensures NoEmptyFrom(read, size, p) && a.phys < b.phys ==> a.virt < b.virt
    decreases size - p
  {
    PointBounds(read, size, p, v, a);
    PointBounds(read, size, p, v, b);
    if a != Position(p, v) && b != Position(p, v) {
      PointOrder(read, size, After(read, p), v + |read(p).data|, a, b);
    } else if a == Position(p, v) && b != Position(p, v) {
      PointBounds(read, size, After(read, p), v + |read(p).data|, b);
    }
  }

  /** Stepping over the chunk at a checkpoint leads to the next checkpoint, and the
      chunk's bytes are exactly the content at the checkpoint's virtual offset. */
  lemma {:induction false} Successor(read: Reader, size: nat, p: nat, v: nat, x: Position)
    requires IsPoint(read, size, p, v, x) && x.phys >= 0 && Steps(read, size, x.phys)
    ensures IsPoint(read, size, p, v, Position(After(read, x.phys), x.virt + |read(x.phys).data|))
    ensures v <= x.virt && x.virt - v + |read(x.phys).data| <= |ContentFrom(read, size, p)|
    ensures ContentFrom(read, size, p)[x.virt - v..x.virt - v + |read(x.phys).data|] == read(x.phys).data
    ensures NoEmptyFrom(read, size, p) ==> |read(x.phys).data| > 0
    decreases size - p
  {
    var d0 := read(p).data;
    if x == Position(p, v) {
      var q := After(read, p);
      var rest := ContentFrom(read, size, q);
      assert IsPoint(read, size, q, v + |d0|, Position(q, v + |d0|));
      assert ContentFrom(read, size, p) == d0 + rest;
      assert (d0 + rest)[0..|d0|] == d0;
    } else {
      assert Steps(read, size, p);
      var q := After(read, p);
      assert IsPoint(read, size, q, v + |d0|, x);
      Successor(read, size, q, v + |d0|, x);
      var rest := ContentFrom(read, size, q);
      var d := read(x.phys).data;
      var i := x.virt - v - |d0|;
      assert ContentFrom(read, size, p) == d0 + rest;
      assert (d0 + rest)[|d0| + i..|d0| + i + |d|] == rest[i..i + |d|];
    }
  }

  /** t extends s by one chunk: every chunk the parse of s steps over reads the same
      in t, and one more chunk sits exactly at the end of s, ending t. */
  ghost predicate ExtendedByChunk(r1: Reader, size1: nat, r2: Reader, size2: nat, d: seq<byte>)
  {
    (forall q: nat {:trigger r1(q)} :: Steps(r1, size1, q) ==> r2(q) == r1(q)) &&
    r2(size1).Chunk? && r2(size1).data == d && r2(size1).len >= 0 &&
    size1 + Width + r2(size1).len == size2
  }

  /** Extending a parse that reaches its end by one chunk moves the parse end to the
      new end, one chunk's data further on. */
  lemma {:induction false} ExtendEnd(r1: Reader, size1: nat, r2: Reader, size2: nat, d: seq<byte>, p: nat, v: nat)
    requires ExtendedByChunk(r1, size1, r2, size2, d)
    requires ParseEnd(r1, size1, p, v).phys == size1
    ensures ParseEnd(r2, size2, p, v) == Position(size2, ParseEnd(r1, size1, p, v).virt + |d|)
    decreases size1 - p
  {
    if Steps(r1, size1, p) {
      assert r2(p) == r1(p);
      ExtendEnd(r1, size1, r2, size2, d, After(r1, p), v + |r1(p).data|);
    } else {
      assert !Steps(r2, size2, size2);
    }
  }

  /** ... and appends the chunk's data to the content, keeping every chunk non-empty
      when the new one is. */
  lemma {:induction false} ExtendContent(r1: Reader, size1: nat, r2: Reader, size2: nat, d: seq<byte>, p: nat, v: nat)
    requires ExtendedByChunk(r1, size1, r2, size2, d)
    requires ParseEnd(r1, size1, p, v).phys == size1
    ensures ContentFrom(r2, size2, p) == ContentFrom(r1, size1, p) + d
    ensures NoEmptyFrom(r2, size2, p) <==> NoEmptyFrom(r1, size1, p) && |d| > 0
    decreases size1 - p
  {
    if Steps(r1, size1, p) {
      assert r2(p) == r1(p);
      ExtendContent(r1, size1, r2, size2, d, After(r1, p), v + |r1(p).data|);
      assert ContentFrom(r2, size2, p) == r1(p).data + (ContentFrom(r1, size1, After(r1, p)) + d);
    } else {
      assert !Steps(r2, size2, size2);
    }
  }

  /** ... and keeps every checkpoint of the old parse. */
  lemma {:induction false} ExtendKeepsPoint(r1: Reader, size1: nat, r2: Reader, size2: nat, d: seq<byte>, p: nat, v: nat, x: Position)
    requires ExtendedByChunk(r1, size1, r2, size2, d)
    requires IsPoint(r1, size1, p, v, x)
    ensures IsPoint(r2, size2, p, v, x)
    decreases size1 - p
  {
    if x != Position(p, v) {
      assert r2(p) == r1(p);
      ExtendKeepsPoint(r1, size1, r2, size2, d, After(r1, p), v + |r1(p).data|, x);
    }
  }

  /** A chunk complete inside a store reads the same once the store is extended. */
  lemma ReadChunkStable(s: seq<byte>, t: seq<byte>, q: nat, dec: Decompressor)
    requires |s| <= |t| && t[..|s|] == s
    requires ReadChunk(s, q, dec).Chunk?
    ensures ReadChunk(t, q, dec) == ReadChunk(s, q, dec)
  {
    var r := ReadChunk(s, q, dec);
    assert q + Width + r.len <= |s|;
    assert t[q..q + Width] == s[q..q + Width] by {
      assert forall k :: q <= k < q + Width ==> t[k] == t[..|s|][k] == s[k];
    }
    var l := DecodeInt64(s[q..q + Width]);
    assert l == r.len;
    assert t[q + Width..q + Width + l] == s[q + Width..q + Width + l] by {
      assert forall k :: q + Width <= k < q + Width + l ==> t[k] == t[..|s|][k] == s[k];
    }
  }

  /** A chunk appended at the end of a store reads back as that chunk. */
  lemma ReadChunkAppended(s: seq<byte>, dec: Decompressor, c: seq<byte>, d: seq<byte>)
    requires |c| < Int64Limit && dec(c) == Some(d)
    ensures ReadChunk(s + ChunkBytes(c), |s|, dec) == Chunk(|c|, d)
  {
    var t := s + ChunkBytes(c);
    assert t[|s|..|s| + Width] == EncodeLE(|c|, Width);
    Pow256Width();
    DecodeEncodeLE(|c|, Width);
    assert t[|s| + Width..|s| + Width + |c|] == c;
  }

  /** read gives what reading a chunk from store s gives, at every offset where
      the store is actually read. */
  ghost predicate ReadsStore(read: Reader, s: seq<byte>, dec: Decompressor)
  {
    forall q: nat {:trigger ReadChunk(s, q, dec)} :: read(q) == ReadChunk(s, q, dec)
  }

  /** A reader of store s, known only by what it reads. */
  lemma ReaderOf(s: seq<byte>, dec: Decompressor) returns (read: Reader)
    ensures ReadsStore(read, s, dec)
  {
    read := StoreReader(s, dec);
  }

  /** Appending the wire form of a chunk to a store extends its parse by that chunk. */
  lemma AppendExtends(r1: Reader, r2: Reader, s: seq<byte>, dec: Decompressor, c: seq<byte>, d: seq<byte>)
    requires |c| < Int64Limit && dec(c) == Some(d)
    requires ReadsStore(r1, s, dec) && ReadsStore(r2, s + ChunkBytes(c), dec)
    ensures ExtendedByChunk(r1, |s|, r2, |s + ChunkBytes(c)|, d)
  {
    var t := s + ChunkBytes(c);
    assert t[..|s|] == s;
    forall q: nat | Steps(r1, |s|, q)
      ensures r2(q) == r1(q)
    {
      assert r1(q) == ReadChunk(s, q, dec);
      ReadChunkStable(s, t, q, dec);
      assert r2(q) == ReadChunk(t, q, dec);
    }
    ReadChunkAppended(s, dec, c, d);
    assert r2(|s|) == ReadChunk(t, |s|, dec);
  }

  /** Two readers that agree everywhere parse alike. */
  lemma {:induction false} SameParse(r1: Reader, r2: Reader, size: nat, p: nat, v: nat)
    requires forall q: nat :: r1(q) == r2(q)
    ensures ParseEnd(r1, size, p, v) == ParseEnd(r2, size, p, v)
    ensures ContentFrom(r1, size, p) == ContentFrom(r2, size, p)
    ensures NoEmptyFrom(r1, size, p) <==> NoEmptyFrom(r2, size, p)
    decreases size - p
  {
    assert r1(p) == r2(p);
    if Steps(r1, size, p) {
      SameParse(r1, r2, size, After(r1, p), v + |r1(p).data|);
    }
  }

  /** Two readers of the same store parse it alike: what a fresh instance over a
      store finds is what the instance that wrote it found. */
  lemma SameStore(r1: Reader, r2: Reader, s: seq<byte>, dec: Decompressor)
    requires ReadsStore(r1, s, dec) && ReadsStore(r2, s, dec)
    ensures ParseEnd(r1, |s|, 0, 0) == ParseEnd(r2, |s|, 0, 0)
    ensures ContentFrom(r1, |s|, 0) == ContentFrom(r2, |s|, 0)
    ensures NoEmptyFrom(r1, |s|, 0) <==> NoEmptyFrom(r2, |s|, 0)
  {
    forall q: nat
      ensures r1(q) == r2(q)
    {
      assert r1(q) == ReadChunk(s, q, dec) == r2(q);
    }
    SameParse(r1, r2, |s|, 0, 0);
  }

  /** When the parse from the origin reaches size, every checkpoint before size
      steps over a complete chunk. */
  lemma FullSteps(read: Reader, size: nat, x: Position)
    requires ParseEnd(read, size, 0, 0).phys == size
    requires IsPoint(read, size, 0, 0, x) && 0 <= x.phys < size
    ensures Steps(read, size, x.phys)
  {
    if !Steps(read, size, x.phys) {
      NoStepIsEnd(read, size, 0, 0, x);
    }
  }

  /** A checkpoint at the size bound is the parse end: its virtual offset is the
      length of the whole content, and the parse from the origin reaches size. */
  lemma EndPoint(read: Reader, size: nat, x: Position)
    requires IsPoint(read, size, 0, 0, x) && x.phys >= size
    ensures x == ParseEnd(read, size, 0, 0)
    ensures x.virt == |ContentFrom(read, size, 0)|
  {
    NoStepIsEnd(read, size, 0, 0, x);
    EndIsPoint(read, size, 0, 0);
  }
}
