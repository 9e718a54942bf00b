/** The seekable compressed container: a class over an in-memory byte store whose
    methods follow the ZSeek state machine (Read, Write, Seek, Flush, Close and the
    helpers fill, seekEnd and skip). */
module ZSeekFile {
  import opened Wrappers
  import opened LittleEndian
  import opened Chunks
  import opened Index

  // whence values for Seek
  const SeekStart: int := 0
  const SeekCur: int := 1
  const SeekEnd: int := 2

  /** Auto-flush threshold used when the requested one is not positive (32 KiB). */
  const DefaultBuffer: int := 32 * 1024

  /** zlib's default compression level. */
  const DefaultCompression: int := -1

  /** The virtual coordinate of the end marker before the logical end is known. */
  const Unknown: int := -1

  /** Size of the buffer io.CopyN reads through when discarding bytes. */
  const DiscardBlock: nat := 8192

  datatype Error =
    | EOF            // io.EOF: clean end of the stream
    | UnexpectedEOF  // io.ErrUnexpectedEOF: the store ends inside a chunk
    | CorruptChunk   // the codec rejects a chunk body
    | InvalidLevel   // the codec rejects the compression level
    | EarlyWrite     // ErrEarlyWrite
    | InvalidSeek    // ErrInvalidSeek
    | ClosedPipe     // io.ErrClosedPipe, set by Close

  /** The absolute virtual offset a Seek asks for, given the current virtual cursor
      and the virtual end (whence values other than SeekEnd and SeekCur leave the
      offset as it is). */
  function SeekTarget(offset: int, whence: int, cur: int, endVirt: int): (target: int)
  {
    if whence == SeekEnd then offset + endVirt
    else if whence == SeekCur then offset + cur
    else offset
  }

  /** Seek accepts a target that is not negative and not past a known end. */
  predicate InBounds(target: int, endVirt: int)
  {
    0 <= target && (endVirt == Unknown || target <= endVirt)
  }

  /** The cursor and end marker after one byte is accepted by Write: the cursor's
      virtual offset moves on, and so does a known logical end. */
  function AcceptByte(pos: Position, end: Position): (moved: (Position, Position))
  {
    (pos.(virt := pos.virt + 1), if end.virt == Unknown then end else end.(virt := end.virt + 1))
  }

  /** The store and pending bytes after Write accepts byte b: b joins the pending
      bytes, and once they reach the threshold buf they are written out as one chunk. */
  function AcceptStep(store: seq<byte>, pending: seq<byte>, b: byte, buf: int, codec: Codec, level: int)
    : (r: (seq<byte>, seq<byte>))
    requires WellBehaved(codec) && |pending| < buf < BodyLimit
  {
    var w := pending + [b];
    if |w| >= buf then (store + ChunkBytes(codec.compress(level, w)), []) else (store, w)
  }

  /** The store and pending bytes after Write accepts all of p, byte by byte, with
      every flush succeeding: the store only grows, and fewer than buf bytes stay
      pending. */
  function AutoFlush(store: seq<byte>, pending: seq<byte>, p: seq<byte>, buf: int, codec: Codec, level: int)
    : (r: (seq<byte>, seq<byte>))
    requires WellBehaved(codec) && |pending| < buf < BodyLimit
    ensures store <= r.0 && |r.1| < buf
    decreases |p|
  {
    if p == [] then (store, pending)
    else
      var before := AutoFlush(store, pending, p[..|p| - 1], buf, codec, level);
      AcceptStep(before.0, before.1, p[|p| - 1], buf, codec, level)
  }

  /** The bytes left pending after the auto-flushes are the last ones written, as many
      as the total modulo the threshold; below the threshold nothing is flushed. */
  lemma {:induction false} AutoFlushTail(store: seq<byte>, pending: seq<byte>, p: seq<byte>, buf: int,
                                         codec: Codec, level: int)
    requires WellBehaved(codec) && |pending| < buf < BodyLimit
    ensures var r := AutoFlush(store, pending, p, buf, codec, level);
      |r.1| == PendingAfter(|pending|, |p|, buf) && |r.1| <= |pending + p| &&
      r.1 == (pending + p)[|pending + p| - |r.1|..]
    ensures |pending| + |p| < buf ==> AutoFlush(store, pending, p, buf, codec, level) == (store, pending + p)
    decreases |p|
  {
    if p != [] {
      var q := p[..|p| - 1];
      AutoFlushTail(store, pending, q, buf, codec, level);
      assert pending + p == (pending + q) + [p[|p| - 1]];
    } else {
      assert pending + p == pending;
    }
  }

  /** Pending bytes that reach the threshold exactly are flushed as one chunk. */
  lemma AutoFlushAtThreshold(store: seq<byte>, pending: seq<byte>, p: seq<byte>, buf: int, codec: Codec,
                             level: int)
    requires WellBehaved(codec) && |pending| < buf < BodyLimit && |pending| + |p| == buf
    ensures AutoFlush(store, pending, p, buf, codec, level) ==
      (store + ChunkBytes(codec.compress(level, pending + p)), [])
  {
    var q := p[..|p| - 1];
    AutoFlushTail(store, pending, q, buf, codec, level);
    assert pending + p == (pending + q) + [p[|p| - 1]];
  }

  /** The parts of a ZSeek's state a stretch of Write's loop is measured against. */
  datatype Snapshot = Snapshot(store: seq<byte>, storeCur: nat, writeBuf: seq<byte>, idx: seq<Position>,
                               pos: Position, end: Position, stream: seq<byte>, noEmpty: bool)

  /** The index holds checkpoints of the parse, each in front of a chunk, in
      physical and virtual order. */
  ghost predicate IndexValid(read: Chunks.Reader, size: nat, idx: seq<Position>)
  {
    IndexOrdered(idx) &&
    forall i :: 0 <= i < |idx| ==> idx[i].phys < size && IsPoint(read, size, 0, 0, idx[i])
  }

  /** How the cursor, the buffers and the end marker sit on the parse of the store
      while no error is recorded: the store cursor follows pos.phys; at most one
      buffer holds bytes, and pending writes only at the physical end; the start of
      the current chunk (or of the pending bytes) is a checkpoint; the read buffer
      is the next slice of the stream; a known logical end is the stream length. */
  ghost predicate SyncedWith(read: Chunks.Reader, size: nat, storeCur: nat,
                             readBuf: seq<byte>, writeBuf: seq<byte>, pos: Position, end: Position)
  {
    var stream := ContentFrom(read, size, 0) + writeBuf;
    storeCur == pos.phys && storeCur <= size && end.phys == size && 0 <= pos.virt &&
    (readBuf == [] || writeBuf == []) &&
    (writeBuf != [] ==> pos.phys == end.phys) &&
    IsPoint(read, size, 0, 0, Position(pos.phys, pos.virt + |readBuf| - |writeBuf|)) &&
    pos.virt + |readBuf| <= |stream| &&
    readBuf == stream[pos.virt..pos.virt + |readBuf|] &&
    (end.virt == Unknown || end.virt == |stream|)
  }

  /** Taking the chunk at the cursor into the read buffer keeps the state synced. */
  lemma ChunkKeepsSynced(read: Chunks.Reader, size: nat, pos: Position, end: Position,
                         writeBuf: seq<byte>, l: int, d: seq<byte>)
    requires pos.phys >= 0 && SyncedWith(read, size, pos.phys, [], writeBuf, pos, end)
    requires read(pos.phys) == Chunk(l, d) && 0 <= l && pos.phys + Width + l <= size
    ensures SyncedWith(read, size, pos.phys + Width + l, d, writeBuf, Position(pos.phys + Width + l, pos.virt), end)
  {
    Successor(read, size, 0, 0, pos);
  }

  /** What fill can find at a synced cursor with an empty read buffer: the clean end
      of the store only at the end of the stream, a complete chunk whenever the store
      parses whole and the cursor is before the end, and a chunk that decompresses to
      nothing only in a store holding an empty chunk. */
  lemma FillOutcome(read: Chunks.Reader, s: seq<byte>, dec: Decompressor, pos: Position, end: Position,
                    writeBuf: seq<byte>)
    requires ReadsStore(read, s, dec)
    requires pos.phys >= 0 && SyncedWith(read, |s|, pos.phys, [], writeBuf, pos, end)
    ensures var c := ReadChunk(s, pos.phys, dec);
      (c.CleanEOF? ==> pos.virt == |ContentFrom(read, |s|, 0) + writeBuf|) &&
      (ParseEnd(read, |s|, 0, 0).phys == |s| ==> c.CleanEOF? || c.Chunk?) &&
      (pos.virt < |ContentFrom(read, |s|, 0) + writeBuf| ==> c.Chunk?) &&
      (c.Chunk? ==> writeBuf == [] && pos.virt + |c.data| <= |ContentFrom(read, |s|, 0)|) &&
      (c.Chunk? && NoEmptyFrom(read, |s|, 0) ==> |c.data| > 0)
  {
    var c := ReadChunk(s, pos.phys, dec);
    var x := Position(pos.phys, pos.virt - |writeBuf|);
    if pos.phys >= |s| {
      EndPoint(read, |s|, x);
    } else {
      if !Steps(read, |s|, pos.phys) {
        NoStepIsEnd(read, |s|, 0, 0, x);
        EndIsPoint(read, |s|, 0, 0);
      }
      if ParseEnd(read, |s|, 0, 0).phys == |s| {
        FullSteps(read, |s|, x);
      }
      if c.Chunk? {
        Successor(read, |s|, 0, 0, x);
        PointBounds(read, |s|, 0, 0, Position(After(read, x.phys), x.virt + |c.data|));
      }
    }
  }

  /** Delivering the first n bytes of the read buffer keeps the state synced. */
  lemma ConsumeKeepsSynced(read: Chunks.Reader, size: nat, pos: Position, end: Position,
                           readBuf: seq<byte>, writeBuf: seq<byte>, n: nat)
    requires pos.phys >= 0 && SyncedWith(read, size, pos.phys, readBuf, writeBuf, pos, end)
    requires n <= |readBuf|
    ensures SyncedWith(read, size, pos.phys, readBuf[n..], writeBuf, pos.(virt := pos.virt + n), end)
    ensures readBuf[..n] == (ContentFrom(read, size, 0) + writeBuf)[pos.virt..pos.virt + n]
  {
    var stream := ContentFrom(read, size, 0) + writeBuf;
    var p2 := pos.(virt := pos.virt + n);
    var rest := readBuf[n..];
    assert |rest| == |readBuf| - n;
    assert Position(p2.phys, p2.virt + |rest| - |writeBuf|) ==
           Position(pos.phys, pos.virt + |readBuf| - |writeBuf|);
    var window := stream[pos.virt..pos.virt + |readBuf|];
    assert readBuf == window;
    assert rest == window[n..] == stream[pos.virt + n..pos.virt + |readBuf|];
    assert readBuf[..n] == window[..n] == stream[pos.virt..pos.virt + n];
  }

  /** Appending the compressed pending bytes as a chunk at the physical end commits
      them: the stream is unchanged, the store parses whole, the old start of the
      pending bytes becomes the last checkpoint, and no empty chunk appears. */
  lemma AppendKeepsSynced(r1: Chunks.Reader, r2: Chunks.Reader, s: seq<byte>, dec: Decompressor,
                          c: seq<byte>, pos: Position, end: Position, writeBuf: seq<byte>, idx: seq<Position>)
    requires |c| < Int64Limit && dec(c) == Some(writeBuf) && writeBuf != []
    requires ReadsStore(r1, s, dec) && ReadsStore(r2, s + ChunkBytes(c), dec)
    requires pos.phys >= 0 && SyncedWith(r1, |s|, pos.phys, [], writeBuf, pos, end)
    requires IndexValid(r1, |s|, idx)
    ensures var t := s + ChunkBytes(c);
      SyncedWith(r2, |t|, |t|, [], [], Position(|t|, pos.virt), end.(phys := |t|)) &&
      IndexValid(r2, |t|, idx + [Position(pos.phys, pos.virt - |writeBuf|)]) &&
      ContentFrom(r2, |t|, 0) == ContentFrom(r1, |s|, 0) + writeBuf &&
      ParseEnd(r2, |t|, 0, 0).phys == |t| &&
      (NoEmptyFrom(r1, |s|, 0) ==> NoEmptyFrom(r2, |t|, 0))
  {
    var t := s + ChunkBytes(c);
    var x := Position(pos.phys, pos.virt - |writeBuf|);
    EndPoint(r1, |s|, x);
    AppendExtends(r1, r2, s, dec, c, writeBuf);
    ExtendEnd(r1, |s|, r2, |t|, writeBuf, 0, 0);
    ExtendContent(r1, |s|, r2, |t|, writeBuf, 0, 0);
    EndIsPoint(r2, |t|, 0, 0);
    forall i | 0 <= i < |idx|
      ensures IsPoint(r2, |t|, 0, 0, idx[i])
    {
      ExtendKeepsPoint(r1, |s|, r2, |t|, writeBuf, 0, 0, idx[i]);
    }
    ExtendKeepsPoint(r1, |s|, r2, |t|, writeBuf, 0, 0, x);
    AppendCheckpoint(r2, |t|, idx, x);
  }

  /** The state Commit leaves behind, from the state before it: the invariant holds,
      the stream is the old one, the store parses whole, no empty chunk appears. */
  lemma CommitKeepsCore(z: ZSeek, r1: Chunks.Reader, s: seq<byte>, c: seq<byte>,
                        pos: Position, end: Position, writeBuf: seq<byte>, idx: seq<Position>)
    requires 0 < z.buf < BodyLimit && WellBehaved(z.codec) && z.err.None?
    requires |c| < Int64Limit && z.codec.decompress(c) == Some(writeBuf) && writeBuf != []
    requires ReadsStore(r1, s, z.codec.decompress) && ReadsStore(z.chunks, s + ChunkBytes(c), z.codec.decompress)
    requires pos.phys >= 0 && SyncedWith(r1, |s|, pos.phys, [], writeBuf, pos, end)
    requires IndexValid(r1, |s|, idx)
    requires z.store == s + ChunkBytes(c) && z.readBuf == [] && z.writeBuf == []
    requires z.storeCur == |z.store| && z.pos == Position(|z.store|, pos.virt) && z.end == end.(phys := |z.store|)
    requires z.idx == idx + [Position(pos.phys, pos.virt - |writeBuf|)]
    ensures z.Valid()
    ensures z.Stream() == ContentFrom(r1, |s|, 0) + writeBuf
    ensures z.IsFull() && (NoEmptyFrom(r1, |s|, 0) ==> z.NoEmpty())
  {
    AppendKeepsSynced(r1, z.chunks, s, z.codec.decompress, c, pos, end, writeBuf, idx);
  }

  /** At the physical end with nothing buffered for reading, the cursor stands at the
      end of the stream, and the store parses whole. */
  lemma AtPhysicalEnd(read: Chunks.Reader, size: nat, pos: Position, end: Position, writeBuf: seq<byte>)
    requires pos.phys >= 0 && SyncedWith(read, size, pos.phys, [], writeBuf, pos, end)
    requires pos.phys == end.phys
    ensures pos.virt == |ContentFrom(read, size, 0) + writeBuf|
    ensures ParseEnd(read, size, 0, 0).phys == size
  {
    EndPoint(read, size, Position(pos.phys, pos.virt - |writeBuf|));
  }

  /** Conversely, in a store that parses whole without empty chunks, a cursor at the
      end of the stream has nothing buffered for reading and stands at the physical end
      or has writes pending. */
  lemma AtStreamEnd(read: Chunks.Reader, size: nat, pos: Position, end: Position,
                    readBuf: seq<byte>, writeBuf: seq<byte>)
    requires pos.phys >= 0 && SyncedWith(read, size, pos.phys, readBuf, writeBuf, pos, end)
    requires ParseEnd(read, size, 0, 0).phys == size && NoEmptyFrom(read, size, 0)
    requires pos.virt == |ContentFrom(read, size, 0) + writeBuf|
    ensures readBuf == [] && (writeBuf != [] || pos.phys == end.phys)
  {
    if writeBuf == [] && pos.phys < size {
      var x := Position(pos.phys, pos.virt);
      assert IsPoint(read, size, 0, 0, x);
      FullSteps(read, size, x);
      Successor(read, size, 0, 0, x);
    }
  }

  /** Counting modulo b one step at a time. */
  lemma WrapStep(x: nat, b: int)
    requires b > 0
    ensures (x + 1) % b == if x % b + 1 == b then 0 else x % b + 1
  {
    var q, r := x / b, x % b;
    if r + 1 == b {
      DivModUnique(x + 1, b, q + 1, 0);
    } else {
      DivModUnique(x + 1, b, q, r + 1);
    }
  }

  /** The pending count after n more bytes are accepted from count c, each byte
      adding one and a count reaching the threshold b flushing back to zero. */
  function PendingAfter(c: nat, n: nat, b: nat): (r: nat)
    decreases n
  {
    if n == 0 then c
    else var k := PendingAfter(c, n - 1, b); if k + 1 == b then 0 else k + 1
  }

  /** Starting below the threshold, the pending count is the byte total modulo it. */
  lemma {:induction false} PendingIsMod(c: nat, n: nat, b: nat)
    requires 0 <= c < b
    ensures PendingAfter(c, n, b) == (c + n) % b
    decreases n
  {
    if n > 0 {
      PendingIsMod(c, n - 1, b);
      WrapStep(c + n - 1, b);
    } else {
      DivModUnique(c, b, 0, c);
    }
  }

  /** The remainder is the r of any decomposition x == b * q + r with 0 <= r < b. */
  lemma DivModUnique(x: int, b: int, q: int, r: int)
    requires b > 0 && 0 <= r < b && x == b * q + r
    ensures x % b == r
  {
    MulBound(b, q - x / b);
  }

  /** A non-zero multiple of b is at least b away from zero. */
  lemma MulBound(b: int, k: int)
    requires b > 0
    ensures k >= 1 ==> b * k >= b
    ensures k <= -1 ==> b * k <= -b
  {
  }

  class ZSeek {
    var store: seq<byte>     // the underlying store's bytes
    var storeCur: nat        // the underlying store's cursor
    var readBuf: seq<byte>   // decompressed bytes of the current chunk not yet delivered
    var writeBuf: seq<byte>  // bytes written but not yet flushed
    const level: int         // compression level
    const codec: Codec
    var idx: seq<Position>   // checkpoints, in the order found
    var pos: Position        // current position
    var end: Position        // end marker; end.virt is Unknown until known
    const buf: int           // auto-flush threshold
    var err: Option<Error>   // sticky error
    ghost var chunks: Chunks.Reader  // what reading a chunk of the store gives at each offset

    /** The decompressed bytes committed to the store. */
    ghost function Content(): seq<byte>
      reads this
    {
      ContentFrom(chunks, |store|, 0)
    }

    /** The logical stream: committed bytes followed by pending ones. */
    ghost function Stream(): seq<byte>
      reads this
    {
      Content() + writeBuf
    }

    /** The store parses as a whole sequence of chunks. */
    ghost predicate IsFull()
      reads this
    {
      ParseEnd(chunks, |store|, 0, 0).phys == |store|
    }

    /** No chunk of the store decompresses to nothing. */
    ghost predicate NoEmpty()
      reads this
    {
      NoEmptyFrom(chunks, |store|, 0)
    }

    /** The invariant every method keeps, except that in the middle of Write the
      pending bytes may reach the auto-flush threshold. */
    ghost predicate Core()
      reads this
    {
      0 < buf < BodyLimit && |writeBuf| <= buf && WellBehaved(codec) && err != Some(InvalidSeek) && err != Some(EarlyWrite) &&
      ReadsStore(chunks, store, codec.decompress) &&
      IndexValid(chunks, |store|, idx) &&
      (err.None? ==> SyncedWith(chunks, |store|, storeCur, readBuf, writeBuf, pos, end))
    }

    ghost predicate Valid()
      reads this
    {
      Core() && (err.None? ==> |writeBuf| < buf)
    }

    /** NewBuffer over a store holding contents: the cursor rewound to the start, the
      physical end at the store's length, the logical end unknown. */
    constructor (contents: seq<byte>, level: int, bufSize: int, codec: Codec)
      requires WellBehaved(codec) && bufSize < BodyLimit
      ensures Valid() && err == None
      ensures store == contents && storeCur == 0 && readBuf == [] && writeBuf == [] && idx == []
      ensures pos == Position(0, 0) && end == Position(|contents|, Unknown)
      ensures this.level == level && this.codec == codec
      ensures buf == if bufSize <= 0 then DefaultBuffer else bufSize
      ensures contents == [] ==> IsFull() && NoEmpty() && Stream() == []
    {
      store := contents;
      storeCur := 0;
      readBuf := [];
      writeBuf := [];
      this.level := level;
      this.codec := codec;
      idx := [];
      pos := Position(0, 0);
      end := Position(|contents|, Unknown);
      buf := if bufSize <= 0 then DefaultBuffer else bufSize;
      err := None;
      ghost var read := ReaderOf(contents, codec.decompress);
      chunks := read;
    }

    /** The checkpoint-append rule of fill: the cursor, in front of a chunk, joins the
      index unless the index already reaches that far. */
    method RecordCheckpoint()
      requires Valid() && err.None? && readBuf == [] && pos.phys < |store|
      modifies this
      ensures Valid()
      ensures idx == old(idx) + (if |old(idx)| == 0 || old(idx)[|old(idx)| - 1].phys < pos.phys then [pos] else [])
      ensures store == old(store) && storeCur == old(storeCur) && readBuf == old(readBuf) &&
              writeBuf == old(writeBuf) && pos == old(pos) && end == old(end) && err == old(err) &&
              chunks == old(chunks)
    {
      if |idx| == 0 || idx[|idx| - 1].phys < pos.phys {
        AppendCheckpoint(chunks, |store|, idx, pos);
        idx := idx + [pos];
      }
    }

    /** The clean-EOF branch of fill: at the physical end, the logical end becomes
      known as the cursor's virtual offset. */
    method FillAtEnd() returns (e: Option<Error>)
      requires Valid() && err.None? && readBuf == [] && storeCur >= |store|
      modifies this
      ensures Valid() && e == Some(EOF)
      ensures store == old(store) && storeCur == old(storeCur) && readBuf == old(readBuf) &&
              writeBuf == old(writeBuf) && pos == old(pos) && idx == old(idx) && err == old(err) &&
              chunks == old(chunks)
      ensures end == if pos.phys == old(end.phys) then old(end).(virt := pos.virt) else old(end)
    {
      if pos.phys == end.phys {
        EndPoint(chunks, |store|, Position(pos.phys, pos.virt - |writeBuf|));
        end := end.(virt := pos.virt);
      }
      return Some(EOF);
    }

    /** The successful branch of fill: the chunk's bytes become the read buffer and
      the cursor moves past the chunk. */
    method FillChunk(l: int, d: seq<byte>)
      requires Valid() && err.None? && readBuf == []
      requires ReadChunk(store, storeCur, codec.decompress) == Chunk(l, d)
      modifies this
      ensures Valid()
      ensures store == old(store) && writeBuf == old(writeBuf) && idx == old(idx) &&
              end == old(end) && err == old(err) && chunks == old(chunks)
      ensures readBuf == d && pos == Position(old(pos.phys) + Width + l, old(pos.virt))
      ensures storeCur == old(storeCur) + Width + l
    {
      ChunkKeepsSynced(chunks, |store|, pos, end, writeBuf, l, d);
      storeCur := storeCur + Width + l;
      pos := pos.(phys := pos.phys + Width + l);
      readBuf := d;
    }

    /** fill: read the chunk at the store cursor into the read buffer. A chunk whose
      prefix was read advances the cursor past it even when the body then fails. */
    method Fill() returns (e: Option<Error>)
      requires Valid() && err.None? && readBuf == []
      modifies this
      ensures Valid()
      ensures store == old(store) && writeBuf == old(writeBuf) && chunks == old(chunks)
      ensures var c := ReadChunk(old(store), old(storeCur), codec.decompress);
        (e.None? <==> c.Chunk?) &&
        (c.CleanEOF? ==>
           (e == Some(EOF) && err.None? && pos == old(pos) && idx == old(idx) &&
            storeCur == old(storeCur) && readBuf == [] &&
            end == if old(pos.phys) == old(end.phys) then old(end).(virt := old(pos.virt)) else old(end))) &&
        (c.Chunk? ==>
           (err.None? && readBuf == c.data && end == old(end) &&
            pos == Position(old(pos.phys) + Width + c.len, old(pos.virt)) &&
            idx == old(idx) + (if |old(idx)| == 0 || old(idx)[|old(idx)| - 1].phys < old(pos.phys) then [old(pos)] else []))) &&
        (!c.CleanEOF? && !c.Chunk? ==> e == err && (e == Some(UnexpectedEOF) || e == Some(CorruptChunk)))
      ensures end.virt == old(end.virt) || (old(end.virt) == Unknown && end.virt == old(pos.virt) >= 0)
      ensures old(idx) <= idx
      ensures e == Some(EOF) ==>
        err.None? && pos == old(pos) && readBuf == [] && storeCur == old(storeCur) && idx == old(idx)
    {
      var c := ReadChunk(store, storeCur, codec.decompress);
      if c.CleanEOF? {
        e := FillAtEnd();
        return;
      }
      if c.ShortPrefix? {
        storeCur := |store|;
        err := Some(UnexpectedEOF);
        return err;
      }
      // the length prefix was read: the chunk starts at the cursor, which is a checkpoint
      RecordCheckpoint();
      if c.Chunk? {
        FillChunk(c.len, c.data);
        return None;
      }
      storeCur := storeCur + Width;
      pos := pos.(phys := pos.phys + c.len + Width);
      match c {
        case NegativeLength(_) =>
          err := Some(UnexpectedEOF);
        case ShortBody(_) =>
          storeCur := |store|;
          err := Some(UnexpectedEOF);
        case Corrupt(l) =>
          storeCur := storeCur + l;
          err := Some(CorruptChunk);
      }
      e := err;
    }

    /** bytes.Buffer.Read on the read buffer: hand over as many bytes as are buffered
      and asked for, moving the virtual cursor by as many. */
    method Deliver(want: nat) returns (data: seq<byte>)
      requires Valid() && err.None?
      modifies this
      ensures Valid()
      ensures store == old(store) && storeCur == old(storeCur) && writeBuf == old(writeBuf) &&
              idx == old(idx) && end == old(end) && err == old(err) && chunks == old(chunks)
      ensures |data| == (if want < |old(readBuf)| then want else |old(readBuf)|)
      ensures data == old(readBuf)[..|data|] && readBuf == old(readBuf)[|data|..]
      ensures pos == old(pos).(virt := old(pos.virt) + |data|)
      ensures data == Stream()[old(pos.virt)..pos.virt]
      ensures want == 0 ==> unchanged(this)
    {
      var n := if want < |readBuf| then want else |readBuf|;
      ConsumeKeepsSynced(chunks, |store|, pos, end, readBuf, writeBuf, n);
      assert readBuf[0..] == readBuf;
      data := readBuf[..n];
      readBuf := readBuf[n..];
      pos := pos.(virt := pos.virt + n);
    }

    /** Read: deliver up to want bytes of the stream from the cursor, all from the
      current chunk; an empty read buffer is refilled first, unless nothing is asked
      for. */
    method Read(want: nat) returns (data: seq<byte>, e: Option<Error>)
      requires Valid()
      modifies this
      ensures Valid()
      ensures store == old(store) && writeBuf == old(writeBuf) && chunks == old(chunks) && |data| <= want
      ensures old(idx) <= idx
      ensures Stream() == old(Stream()) && IsFull() == old(IsFull()) && NoEmpty() == old(NoEmpty())
      ensures old(err).Some? ==> data == [] && e == old(err) && unchanged(this)
      ensures e.None? ==>
        err.None? && pos.virt == old(pos.virt) + |data| && data == Stream()[old(pos.virt)..pos.virt]
      ensures old(err).None? && want == 0 ==> data == [] && e.None? && unchanged(this)
      ensures e.None? && want > 0 ==> |data| > 0
      // the bytes come from one chunk: the buffered one, or else the next one
      ensures old(err).None? && old(readBuf) != [] ==>
        e.None? && |data| == (if want < |old(readBuf)| then want else |old(readBuf)|) &&
        data == old(readBuf)[..|data|] && readBuf == old(readBuf)[|data|..]
      ensures old(err).None? && old(readBuf) == [] && want > 0 && e.None? ==>
        var c := ReadChunk(old(store), old(storeCur), codec.decompress);
        c.Chunk? && |data| == (if want < |c.data| then want else |c.data|) &&
        data == c.data[..|data|] && readBuf == c.data[|data|..]
      ensures old(err).None? && e.Some? && e != Some(EOF) ==>
        data == [] && err == e && (e == Some(UnexpectedEOF) || e == Some(CorruptChunk))
      ensures old(err).None? && e == Some(EOF) ==>
        data == [] && err.None? && (old(pos.virt) == |Stream()| || !NoEmpty()) &&
        pos.virt == old(pos.virt) && readBuf == old(readBuf) == []
      // EOF at the end of the store leaves the cursor; EOF from an empty chunk passes it
      ensures old(err).None? && e == Some(EOF) ==>
        var c := ReadChunk(old(store), old(storeCur), codec.decompress);
        (c.Chunk? ==> c.data == [] && pos.phys == old(pos.phys) + Width + c.len) &&
        (!c.Chunk? ==> pos == old(pos) && storeCur == old(storeCur) && idx == old(idx))
      ensures old(err).None? && IsFull() ==> e.None? || e == Some(EOF)
      ensures old(err).None? && IsFull() && want > 0 && old(pos.virt) == |Stream()| ==> e == Some(EOF)
      ensures old(err).None? && NoEmpty() && want > 0 && old(pos.virt) < |Stream()| ==> e.None?
      ensures old(end.virt) != Unknown ==> end.virt != Unknown
      // a clean end of the store at the physical end makes the logical end known
      ensures old(err).None? && want > 0 && old(readBuf) == [] && old(storeCur) >= |old(store)| &&
              old(pos.phys) == old(end.phys) ==>
        e == Some(EOF) && end.virt == |Stream()|
    {
      if err.Some? {
        return [], err;
      }
      if readBuf == [] && want != 0 {
        FillOutcome(chunks, store, codec.decompress, pos, end, writeBuf);
        e := Fill();
        if e.Some? {
          return [], e;
        }
      }
      data := Deliver(want);
      e := if |data| == 0 && want != 0 then Some(EOF) else None;
    }

    /** The writing part of Flush: the pending bytes, compressed, are appended as one
      chunk at the physical end, where the store cursor stands. */
    method Commit() returns (e: Option<Error>)
      requires Core() && err.None? && writeBuf != [] && ValidLevel(level)
      modifies this
      ensures Valid() && e.None? && err.None?
      ensures var chunk := ChunkBytes(codec.compress(level, old(writeBuf)));
        store == old(store) + chunk && writeBuf == [] && readBuf == [] &&
        idx == old(idx) + [Position(old(pos.phys), old(pos.virt) - |old(writeBuf)|)] &&
        pos == Position(old(pos.phys) + |chunk|, old(pos.virt)) &&
        end == old(end).(phys := old(end.phys) + |chunk|) && storeCur == |store|
      ensures Stream() == old(Stream())
      ensures IsFull() && (old(NoEmpty()) ==> NoEmpty())
    {
      var c := codec.compress(level, writeBuf);
      var chunk := ChunkBytes(c);
      ghost var next := ReaderOf(store + chunk, codec.decompress);
      ghost var before := (chunks, store, pos, end, writeBuf, idx);
      store := store + chunk;
      chunks := next;
      idx := idx + [Position(pos.phys, pos.virt - |writeBuf|)];
      writeBuf := [];
      storeCur := storeCur + |chunk|;
      pos := pos.(phys := pos.phys + |chunk|);
      end := end.(phys := end.phys + |chunk|);
      CommitKeepsCore(this, before.0, before.1, c, before.2, before.3, before.4, before.5);
      e := None;
    }

    /** Flush: compress the pending bytes into one chunk written at the store cursor
      (the physical end), record the chunk's start as a checkpoint, and move the
      cursor and the physical end past it. A no-op when nothing is pending; a level
      the codec rejects is a sticky error. */
    method Flush() returns (e: Option<Error>)
      requires Core()
      modifies this
      ensures Valid()
      ensures old(err).Some? ==> e == old(err) && unchanged(this)
      ensures old(err).None? && old(writeBuf) == [] ==> e.None? && unchanged(this)
      ensures old(err).None? && old(writeBuf) != [] && !ValidLevel(level) ==>
        e == Some(InvalidLevel) && err == e && store == old(store) && writeBuf == old(writeBuf) &&
        idx == old(idx) && pos == old(pos) && end == old(end) && chunks == old(chunks) &&
        readBuf == old(readBuf) && storeCur == old(storeCur)
      ensures old(err).None? && old(writeBuf) != [] && ValidLevel(level) ==>
        var chunk := ChunkBytes(codec.compress(level, old(writeBuf)));
        e.None? && err.None? &&
        store == old(store) + chunk && writeBuf == [] && readBuf == [] &&
        idx == old(idx) + [Position(old(pos.phys), old(pos.virt) - |old(writeBuf)|)] &&
        pos == Position(old(pos.phys) + |chunk|, old(pos.virt)) &&
        end == old(end).(phys := old(end.phys) + |chunk|) && storeCur == |store|
      ensures e.None? ==> err.None? && writeBuf == [] && Stream() == old(Stream())
      ensures e.None? && old(writeBuf) != [] ==> IsFull() && (old(NoEmpty()) ==> NoEmpty())
      ensures old(idx) <= idx
    {
      if err.Some? {
        return err;
      }
      if writeBuf == [] {
        return None;
      }
      if !ValidLevel(level) {
        err := Some(InvalidLevel);
        return err;
      }
      e := Commit();
    }

    /** One step of Write's loop: the byte joins the pending bytes, and the cursor and
      a known logical end move on by one. */
    method PutByte(b: byte)
      requires Valid() && err.None? && readBuf == [] && pos.phys == end.phys
      modifies this
      ensures Core() && err.None? && readBuf == [] && pos.phys == end.phys
      ensures writeBuf == old(writeBuf) + [b] && (pos, end) == AcceptByte(old(pos), old(end))
      ensures Stream() == old(Stream()) + [b]
      ensures store == old(store) && storeCur == old(storeCur) && idx == old(idx) && chunks == old(chunks)
    {
      AtPhysicalEnd(chunks, |store|, pos, end, writeBuf);
      writeBuf := writeBuf + [b];
      var (p, q) := AcceptByte(pos, end);
      pos, end := p, q;
    }

    /** One pass of Write's loop: the byte joins the pending bytes, which are flushed
      if they reach buf. */
    method Accept(b: byte) returns (e: Option<Error>)
      requires Valid() && err.None? && readBuf == [] && pos.phys == end.phys
      modifies this
      ensures Valid() && old(idx) <= idx
      ensures Stream() == old(Stream()) + [b] && pos.virt == old(pos.virt) + 1
      ensures IsFull() && (old(NoEmpty()) ==> NoEmpty())
      ensures readBuf == [] && (e.None? ==>
        err.None? && |writeBuf| == if |old(writeBuf)| + 1 == buf then 0 else |old(writeBuf)| + 1)
      ensures e.Some? ==> e == Some(InvalidLevel) && err == e && !ValidLevel(level)
      // the store, the pending bytes and the end marker
      ensures e.None? ==> (store, writeBuf) == AcceptStep(old(store), old(writeBuf), b, buf, codec, level)
      ensures e.Some? ==> store == old(store) && writeBuf == old(writeBuf) + [b] && |writeBuf| == buf
      ensures |old(writeBuf)| + 1 < buf ==>
        e.None? && store == old(store) && storeCur == old(storeCur) && idx == old(idx)
      ensures !ValidLevel(level) ==>
        store == old(store) && storeCur == old(storeCur) && idx == old(idx) && writeBuf == old(writeBuf) + [b]
      ensures end.virt == AcceptByte(old(pos), old(end)).1.virt && pos.phys == end.phys &&
        end.phys - old(end.phys) == |store| - |old(store)|
    {
      PutByte(b);
      AtPhysicalEnd(chunks, |store|, pos, end, writeBuf);
      if |writeBuf| >= buf {
        e := Flush();
      } else {
        e := None;
      }
    }

    /** What Write's loop knows after accepting the first n bytes of p, having started
      from the state s: the stream grew by them, the store holds the chunks the
      auto-flushes produced, and a failed flush left everything but the sticky error. */
    ghost predicate AppendedSoFar(s: Snapshot, p: seq<byte>, n: nat)
      reads this
    {
      n <= |p| && WellBehaved(codec) && |s.writeBuf| < buf < BodyLimit && (s.end.virt == Unknown || s.end.virt >= 0) &&
      Valid() && readBuf == [] && pos.phys == end.phys && s.idx <= idx &&
      Stream() == s.stream + p[..n] && pos.virt == s.pos.virt + n &&
      IsFull() && (s.noEmpty ==> NoEmpty()) &&
      (err.None? ==>
        |writeBuf| == PendingAfter(|s.writeBuf|, n, buf) &&
        (store, writeBuf) == AutoFlush(s.store, s.writeBuf, p[..n], buf, codec, level)) &&
      (err.Some? ==> err == Some(InvalidLevel) && !ValidLevel(level) && |writeBuf| == buf && n > 0) &&
      (!ValidLevel(level) || |s.writeBuf| + n < buf ==>
        store == s.store && storeCur == s.storeCur && idx == s.idx && writeBuf == s.writeBuf + p[..n]) &&
      end.virt == (if s.end.virt == Unknown then Unknown else s.end.virt + n) &&
      end.phys - s.end.phys == |store| - |s.store|
    }

    /** One pass of Write's loop: byte n of p is accepted. */
    method AcceptNext(p: seq<byte>, n: nat, ghost s: Snapshot) returns (e: Option<Error>)
      requires n < |p| && AppendedSoFar(s, p, n) && err.None?
      modifies this
      ensures AppendedSoFar(s, p, n + 1) && e == err
    {
      e := Accept(p[n]);
      assert p[..n + 1] == p[..n] + [p[n]];
    }

    /** Write's loop, once writing is allowed: each byte joins the pending bytes, and
      they are flushed whenever they reach buf. */
    method Append(p: seq<byte>) returns (n: nat, e: Option<Error>)
      requires Valid() && err.None? && readBuf == [] && pos.phys == end.phys
      modifies this
      ensures Valid() && old(idx) <= idx
      ensures n <= |p| && Stream() == old(Stream()) + p[..n] && pos.virt == old(pos.virt) + n
      ensures old(pos.virt) == |old(Stream())| && IsFull() && (old(NoEmpty()) ==> NoEmpty())
      ensures e.None? ==> n == |p| && err.None? && |writeBuf| == (|old(writeBuf)| + |p|) % buf
      ensures e.Some? ==> e == Some(InvalidLevel) && err == e && !ValidLevel(level) && n > 0
      // the store, the pending bytes and the end marker
      ensures e.None? ==> (store, writeBuf) == AutoFlush(old(store), old(writeBuf), p, buf, codec, level)
      ensures e.Some? ==> store == old(store) && writeBuf == old(writeBuf) + p[..n] && |writeBuf| == buf
      ensures ValidLevel(level) || |old(writeBuf)| + |p| < buf ==> e.None?
      ensures !ValidLevel(level) || |old(writeBuf)| + |p| < buf ==>
        store == old(store) && storeCur == old(storeCur) && idx == old(idx)
      ensures end.virt == (if old(end.virt) == Unknown then Unknown else old(end.virt) + n) &&
        pos.phys == end.phys && end.phys - old(end.phys) == |store| - |old(store)|
    {
      ghost var s := Snapshot(store, storeCur, writeBuf, idx, pos, end, Stream(), NoEmpty());
      AtPhysicalEnd(chunks, |store|, pos, end, writeBuf);
      n := 0;
      e := None;
      while n < |p|
        invariant AppendedSoFar(s, p, n) && err.None? && e.None?
      {
        e := AcceptNext(p, n, s);
        n := n + 1;
        if e.Some? {
          return;
        }
      }
      assert p[..n] == p;
      PendingIsMod(|s.writeBuf|, n, buf);
    }

    /** Write: append p to the stream, which is only allowed at its end (nothing left to
      read, and at the physical end unless writes are already pending). Whenever the
      pending bytes reach buf they are flushed. */
    method Write(p: seq<byte>) returns (n: nat, e: Option<Error>)
      requires Valid()
      modifies this
      ensures Valid()
      ensures old(err).Some? ==> n == 0 && e == old(err) && unchanged(this)
      ensures old(err).None? && (old(readBuf) != [] || (old(writeBuf) == [] && old(pos.phys) != old(end.phys))) ==>
        n == 0 && e == Some(EarlyWrite) && unchanged(this)
      ensures e != Some(EarlyWrite) && old(err).None? ==>
        n <= |p| && Stream() == old(Stream()) + p[..n] && pos.virt == old(pos.virt) + n &&
        old(pos.virt) == |old(Stream())| && IsFull() && (old(NoEmpty()) ==> NoEmpty())
      ensures e.None? ==> n == |p| && err.None? && |writeBuf| == (|old(writeBuf)| + |p|) % buf
      ensures e.Some? && e != Some(EarlyWrite) && old(err).None? ==>
        e == Some(InvalidLevel) && err == e && !ValidLevel(level) && n > 0
      ensures old(err).None? && (ValidLevel(level) || |old(writeBuf)| + |p| < buf) && e != Some(EarlyWrite) ==>
        e.None?
      // the store, the pending bytes and the end marker
      ensures e.None? ==> (store, writeBuf) == AutoFlush(old(store), old(writeBuf), p, buf, codec, level)
      ensures e.Some? && e != Some(EarlyWrite) && old(err).None? ==>
        store == old(store) && writeBuf == old(writeBuf) + p[..n] && |writeBuf| == buf
      ensures !ValidLevel(level) || |old(writeBuf)| + |p| < buf ==>
        store == old(store) && storeCur == old(storeCur) && idx == old(idx)
      ensures e != Some(EarlyWrite) && old(err).None? ==>
        end.virt == (if old(end.virt) == Unknown then Unknown else old(end.virt) + n) &&
        pos.phys == end.phys && end.phys - old(end.phys) == |store| - |old(store)|
      ensures old(err).None? && old(readBuf) == [] && (old(writeBuf) != [] || old(pos.phys) == old(end.phys)) ==>
        e != Some(EarlyWrite)
      ensures old(idx) <= idx
    {
      if err.Some? {
        return 0, err;
      }
      if readBuf != [] {
        return 0, Some(EarlyWrite);
      }
      if writeBuf == [] && pos.phys != end.phys {
        return 0, Some(EarlyWrite);
      }
      n, e := Append(p);
    }

    /** The first step of each pass of seekEnd: the bytes still buffered are passed
      over, counting them into the virtual cursor. */
    method PassBuffered()
      requires Valid() && err.None?
      modifies this
      ensures Valid() && readBuf == [] && pos == old(pos).(virt := old(pos.virt) + |old(readBuf)|)
      ensures store == old(store) && storeCur == old(storeCur) && writeBuf == old(writeBuf) &&
              idx == old(idx) && end == old(end) && err == old(err) && chunks == old(chunks)
    {
      ConsumeKeepsSynced(chunks, |store|, pos, end, readBuf, writeBuf, |readBuf|);
      pos := pos.(virt := pos.virt + |readBuf|);
      readBuf := [];
    }

    /** seekEnd: read chunk after chunk to the end of the store, so that the logical end
      becomes known. A clean end of input anywhere but at the physical end would be a
      sticky unexpected EOF; any other failure of fill is returned (and is sticky). */
    method SeekEndScan() returns (e: Option<Error>)
      requires Valid() && err.None? && writeBuf == []
      modifies this
      ensures Valid()
      ensures store == old(store) && writeBuf == old(writeBuf) && chunks == old(chunks) && old(idx) <= idx
      ensures e.None? ==>
        err.None? && end.virt == |Stream()| && pos.virt == |Stream()| && readBuf == [] &&
        pos.phys == end.phys && IsFull()
      ensures e.Some? ==> err == e && (e == Some(UnexpectedEOF) || e == Some(CorruptChunk)) && !IsFull()
    {
      while true
        invariant Valid() && err.None? && writeBuf == []
        invariant store == old(store) && writeBuf == old(writeBuf) && chunks == old(chunks) && old(idx) <= idx
        decreases |store| - storeCur
      {
        PassBuffered();
        FillOutcome(chunks, store, codec.decompress, pos, end, writeBuf);
        ghost var before := storeCur;
        e := Fill();
        if e == Some(EOF) {
          if pos.phys == end.phys {
            AtPhysicalEnd(chunks, |store|, pos, end, writeBuf);
            return None;
          } else {
            assert false;
          }
        } else if e.Some? {
          return e;
        }
        assert storeCur > before;
      }
    }

    /** skip: io.CopyN of k bytes from the stream into io.Discard, read through a buffer
      of DiscardBlock bytes. Any failure, the end of the stream included, is sticky. */
    method Skip(k: nat) returns (e: Option<Error>)
      requires Valid() && err.None? && writeBuf == []
      modifies this
      ensures Valid()
      ensures store == old(store) && writeBuf == old(writeBuf) && chunks == old(chunks) && old(idx) <= idx
      ensures e.None? ==> err.None? && pos.virt == old(pos.virt) + k
      ensures e.Some? ==> err == e && (e == Some(EOF) || e == Some(UnexpectedEOF) || e == Some(CorruptChunk))
      ensures NoEmpty() && old(pos.virt) + k <= |Stream()| ==> e.None?
      ensures old(end.virt) != Unknown ==> end.virt != Unknown
      ensures IsFull() && old(pos.virt) + k > |Stream()| ==> e == Some(EOF)
    {
      var copied: nat := 0;
      while copied < k
        invariant copied <= k && pos.virt == old(pos.virt) + copied
        invariant Valid() && err.None? && writeBuf == []
        invariant store == old(store) && writeBuf == old(writeBuf) && chunks == old(chunks) && old(idx) <= idx
        invariant old(end.virt) != Unknown ==> end.virt != Unknown
        decreases k - copied
      {
        var want := if k - copied < DiscardBlock then k - copied else DiscardBlock;
        var data, re := Read(want);
        if re.Some? {
          err := re;
          return re;
        }
        copied := copied + |data|;
      }
      e := None;
    }

    /** The restart point of Seek: the cursor and the store cursor go back to the last
      checkpoint not after the target (the last one of several with the same virtual
      offset), or to the origin, and the read buffer is dropped. i is the index
      entry taken, -1 for the origin. */
    method Restart(target: int) returns (i: int)
      requires Valid() && err.None? && writeBuf == [] && 0 <= target
      modifies this
      ensures Valid() && err.None? && readBuf == [] && storeCur == pos.phys && pos.virt <= target
      ensures store == old(store) && writeBuf == old(writeBuf) && chunks == old(chunks) &&
              idx == old(idx) && end == old(end)
      ensures LastNotAfter(idx, target, i) && pos == RestartPoint(idx, i)
    {
      i := SearchIndex(idx, target);
      var start := RestartPoint(idx, i);
      EndIsPoint(chunks, |store|, 0, 0);
      PointBounds(chunks, |store|, 0, 0, start);
      pos := start;
      readBuf := [];
      storeCur := pos.phys;
    }

    /** The second half of Seek: restart at the last checkpoint not after the target
      (or at the origin), entry i of the index, and skip forward to the target. */
    method Reposition(target: int) returns (e: Option<Error>, ghost i: int)
      requires Valid() && err.None? && writeBuf == [] && 0 <= target
      modifies this
      ensures Valid()
      ensures store == old(store) && writeBuf == old(writeBuf) && chunks == old(chunks) && old(idx) <= idx
      ensures LastNotAfter(old(idx), target, i)
      ensures e.None? ==> err.None? && pos.virt == target
      ensures e.Some? ==> err == e && (e == Some(EOF) || e == Some(UnexpectedEOF) || e == Some(CorruptChunk))
      ensures NoEmpty() && target <= |Stream()| ==> e.None?
      ensures old(end.virt) != Unknown ==> end.virt != Unknown
      ensures IsFull() && target > |Stream()| ==> e == Some(EOF)
    {
      i := Restart(target);
      e := Skip(target - pos.virt);
    }

    /** The first half of Seek: flush, then turn offset and whence into an absolute
      target (scanning for the end when it is needed and not yet known). */
    method Resolve(offset: int, whence: int) returns (target: int, e: Option<Error>)
      requires Valid()
      modifies this
      ensures Valid()
      ensures old(err).Some? ==> e == old(err) && unchanged(this)
      ensures e.None? ==>
        err.None? && writeBuf == [] && Stream() == old(Stream()) &&
        (end.virt == Unknown || end.virt == |Stream()|) &&
        target == SeekTarget(offset, whence, old(pos.virt), end.virt) &&
        (whence == SeekEnd ==> end.virt == |Stream()|) &&
        (whence != SeekEnd ==> end == old(end).(phys := end.phys)) &&
        (old(IsFull()) ==> IsFull()) && (old(NoEmpty()) ==> NoEmpty())
      ensures e.Some? && old(err).None? ==>
        err == e && e != Some(InvalidSeek) && e != Some(EOF) &&
        (old(writeBuf) == [] || !ValidLevel(level)) && (whence == SeekEnd || (!ValidLevel(level) && old(writeBuf) != [])) &&
        (old(writeBuf) != [] || !old(IsFull()))
      ensures old(err).None? && (ValidLevel(level) || old(writeBuf) == []) && old(end.virt) != Unknown ==> e.None?
      ensures old(err).None? && (ValidLevel(level) || old(writeBuf) == []) && old(IsFull()) ==> e.None?
      ensures e.None? && (whence != SeekEnd || old(end.virt) != Unknown) ==>
        pos.virt == old(pos.virt) && readBuf == old(readBuf)
      ensures e.None? && whence == SeekEnd && old(end.virt) == Unknown ==> pos.virt == |Stream()| && readBuf == []
      ensures old(idx) <= idx
    {
      e := Flush();
      if e.Some? {
        return 0, e;
      }
      target := offset;
      if whence == SeekEnd {
        if end.virt == Unknown {
          e := SeekEndScan();
          if e.Some? {
            return 0, e;
          }
        }
        target := offset + end.virt;
      } else if whence == SeekCur {
        target := offset + pos.virt;
      }
    }

    /** Seek: resolve the target, reject one before the start or past a known end,
      then reposition there. */
    method Seek(offset: int, whence: int) returns (r: int, e: Option<Error>)
      requires Valid()
      modifies this
      ensures Valid()
      ensures e.Some? ==> r == 0
      ensures old(err).Some? ==> e == old(err) && unchanged(this)
      ensures e.None? ==>
        err.None? && r == SeekTarget(offset, whence, old(pos.virt), |Stream()|) && pos.virt == r &&
        0 <= r <= |Stream()| && Stream() == old(Stream()) && writeBuf == [] &&
        (old(IsFull()) ==> IsFull()) && (old(NoEmpty()) ==> NoEmpty())
      ensures e == Some(InvalidSeek) ==>
        err.None? && Stream() == old(Stream()) &&
        (end.virt == Unknown || end.virt == |Stream()|) &&
        !InBounds(SeekTarget(offset, whence, old(pos.virt), end.virt), end.virt)
      ensures e.None? && whence == SeekEnd ==> end.virt == |Stream()|
      ensures old(err).None? && (ValidLevel(level) || old(writeBuf) == []) && old(end.virt) != Unknown &&
              !InBounds(SeekTarget(offset, whence, old(pos.virt), old(end.virt)), old(end.virt)) ==>
        e == Some(InvalidSeek) && r == 0
      ensures old(err).None? && (ValidLevel(level) || old(writeBuf) == []) && (whence != SeekEnd || old(end.virt) != Unknown) &&
              SeekTarget(offset, whence, old(pos.virt), old(end.virt)) < 0 ==>
        e == Some(InvalidSeek) && r == 0
      // with the end unknown, seekEnd finds it in a whole store, and the same bounds apply
      ensures old(err).None? && (ValidLevel(level) || old(writeBuf) == []) && old(IsFull()) && whence == SeekEnd &&
              old(end.virt) == Unknown && !InBounds(offset + |old(Stream())|, |old(Stream())|) ==>
        e == Some(InvalidSeek) && r == 0
      // every error but ErrInvalidSeek is the stored one
      ensures e.Some? && e != Some(InvalidSeek) ==> err == e
      // a refused seek leaves the cursor where it was, or where seekEnd took it
      ensures e == Some(InvalidSeek) && (whence != SeekEnd || old(end.virt) != Unknown) ==>
        pos.virt == old(pos.virt) && readBuf == old(readBuf)
      ensures e == Some(InvalidSeek) && whence == SeekEnd && old(end.virt) == Unknown ==>
        pos.virt == |Stream()| && readBuf == []
      ensures old(idx) <= idx
      ensures old(err).None? && (ValidLevel(level) || old(writeBuf) == []) && old(IsFull()) && old(NoEmpty()) &&
              0 <= SeekTarget(offset, whence, old(pos.virt), |old(Stream())|) <= |old(Stream())| ==>
        e.None?
      ensures old(err).None? && (ValidLevel(level) || old(writeBuf) == []) && old(IsFull()) && whence != SeekEnd &&
              old(end.virt) == Unknown && SeekTarget(offset, whence, old(pos.virt), 0) > |old(Stream())| ==>
        e == Some(EOF) && err == e
    {
      var target;
      target, e := Resolve(offset, whence);
      if e.Some? {
        return 0, e;
      }
      if !InBounds(target, end.virt) {
        return 0, Some(InvalidSeek);
      }
      ghost var i;
      e, i := Reposition(target);
      if e.Some? {
        return 0, e;
      }
      return target, None;
    }

    /** Close: flush, then record io.ErrClosedPipe so that every later call fails with
      it; the result is Flush's. */
    method Close() returns (e: Option<Error>)
      requires Valid()
      modifies this
      ensures Valid() && err == Some(ClosedPipe) && old(idx) <= idx
      ensures old(err).Some? ==> e == old(err)
      ensures old(err).None? && old(writeBuf) == [] ==> e.None? && Content() == old(Content())
      ensures old(err).None? && old(writeBuf) != [] && ValidLevel(level) ==>
        e.None? && store == old(store) + ChunkBytes(codec.compress(level, old(writeBuf))) &&
        Content() == old(Stream()) && IsFull()
      ensures old(err).None? && old(writeBuf) != [] && !ValidLevel(level) ==> e == Some(InvalidLevel)
    {
      e := Flush();
      err := Some(ClosedPipe);
    }
  }

  /** NewLevel: NewBuffer with the default auto-flush threshold. */
  method NewLevel(contents: seq<byte>, level: int, codec: Codec) returns (z: ZSeek)
    requires WellBehaved(codec)
    ensures fresh(z) && z.Valid() && z.err == None
    ensures z.store == contents && z.storeCur == 0 && z.readBuf == [] && z.writeBuf == [] && z.idx == []
    ensures z.pos == Position(0, 0) && z.end == Position(|contents|, Unknown)
    ensures z.level == level && z.codec == codec && z.buf == DefaultBuffer
    ensures contents == [] ==> z.IsFull() && z.NoEmpty() && z.Stream() == []
  {
    z := new ZSeek(contents, level, DefaultBuffer, codec);
  }

  /** New: NewBuffer with the default compression level and auto-flush threshold. */
  method New(contents: seq<byte>, codec: Codec) returns (z: ZSeek)
    requires WellBehaved(codec)
    ensures fresh(z) && z.Valid() && z.err == None
    ensures z.store == contents && z.storeCur == 0 && z.readBuf == [] && z.writeBuf == [] && z.idx == []
    ensures z.pos == Position(0, 0) && z.end == Position(|contents|, Unknown)
    ensures z.level == DefaultCompression && z.codec == codec && z.buf == DefaultBuffer
    ensures contents == [] ==> z.IsFull() && z.NoEmpty() && z.Stream() == []
  {
    z := NewLevel(contents, DefaultCompression, codec);
  }
}
