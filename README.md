# zseek in Dafny

A model of `zseek`, a Go package that makes a compressed file seekable. The
file is a sequence of chunks. Each chunk is an 8-byte little-endian signed
length followed by that many bytes of zlib-compressed data. A `ZSeek` reads,
writes and seeks in the *virtual* (decompressed) stream while it walks the
*physical* file chunk by chunk. It keeps an index of checkpoints (the
physical and virtual offset of each chunk start it has seen) so that a seek
can restart at the closest chunk before the target. Writes are only allowed
at the end of the stream. They are buffered and turned into a new chunk
whenever the buffer reaches its threshold, on Flush, on Seek and on Close.
Errors met while filling, flushing or skipping are stored and are sticky:
every later call returns them, until Close replaces the stored error
with ErrClosedPipe. That includes the EOF that skip meets past
the end of the stream. A clean EOF met by Read is not stored, and
ErrEarlyWrite and ErrInvalidSeek are returned without being stored.

The model is imperative, as the source is. `ZSeek` is a class whose fields
are those of the Go struct. The underlying `io.ReadWriteSeeker` is a byte
sequence `store` with a cursor `storeCur`. The two `bytes.Buffer`s are
sequences. Every method has a `modifies` clause.
- The helper steps state their whole new state: RecordCheckpoint,
  FillAtEnd, FillChunk, Deliver, PutByte, Commit, PassBuffered and Restart.
- Read, Write, Flush and Close state what they do to the store, the
  buffers, the cursor and the end marker.
- Seek, seekEnd and skip state the new cursor in terms of the logical
  stream, the stream left unchanged, the end marker and the stored error,
  and that the index only grows. They do not give every physical field,
  such as the cursor's physical offset after the skip.

The codec (zlib) is a pair of function values, `compress` and `decompress`.
What is assumed of it is the hypothesis `WellBehaved`, which every contract
that needs it carries: decompressing what was compressed gives the data
back, and a body shorter than `BodyLimit` (2^62) compresses to fewer than
2^63 bytes, so its length fits the int64 prefix. `MarkedCodec` is a codec
that meets the hypothesis, so it is not vacuous. For the same reason the
write threshold must be below `BodyLimit`.

Files:

- `little_endian.dfy`: the 8-byte little-endian int64 prefix and its round
  trips.
- `chunks.dfy`:
  - the chunk format;
  - `ReadChunk`, which is what `fill` finds at an offset;
  - the ghost parse of a store into checkpoints (`IsPoint`, `ParseEnd`) and
    content (`ContentFrom`);
  - how appending a chunk extends that parse.
- `index.dfy`: the checkpoint index, its ordering, and the binary search
  Seek does with `sort.Search`.
- `zseek.dfy`: the `ZSeek` class, with Read, Write, Seek, Flush, Close,
  fill, seekEnd, skip, NewBuffer, New and NewLevel.
- `scenarios.dfy`: `io.ReadFull` over Read, and the call sequences of the
  package's tests with the outcomes they expect.
- `findings.dfy`: the end-marker discrepancy described under Findings.

The class invariant `Valid()` is the heart of the proof:

- the read buffer is the next slice of the logical stream (the decompressed
  store followed by the pending writes);
- the start of the current chunk is a checkpoint of the parse;
- pending writes exist only at the physical end;
- a known logical end is the length of the stream;
- the index holds checkpoints of the store, ordered both ways.

A ghost field `chunks` records what reading a chunk at each offset of the
store gives. It is tied to `store` by `ReadsStore`.

## Model

| member | source | states |
|---|---|---|
| LittleEndian.DecodeEncodeInt64 | zseek.go:284-285 | reading back the 8 bytes binary.Write produces for an int64 gives that int64 |
| LittleEndian.EncodeDecodeInt64 | zseek.go:190-191 | every 8 bytes binary.Read accepts are the encoding of the int64 they decode to |
| LittleEndian.DecodeInt64Range | zseek.go:190-191 | any 8 bytes decode to a value in the signed 64-bit range |
| LittleEndian.EncodeInt64 | zseek.go:284-285 | binary.Write of an int64 is exactly 8 bytes |
| LittleEndian.DecodeInt64 | zseek.go:190-191 | binary.Read of 8 bytes as a little-endian int64 (range and round trips in the rows above) |
| LittleEndian.DecodeEncodeLE | zseek.go:285 | decoding the k-byte little-endian form of n < 256^k gives n |
| LittleEndian.EncodeDecodeLE | zseek.go:191 | re-encoding a decoded little-endian sequence gives the sequence back |
| Chunks.MarkedCodec | zseek.go:262-280 | a concrete codec (a marker byte in front of the data) that satisfies `WellBehaved` |
| Chunks.ValidLevel | zseek.go:262-266 | the levels zlib.NewWriterLevel accepts, -2 to 9 |
| Chunks.ChunkBytes | zseek.go:282-291 | a chunk on the wire is 8 bytes longer than its compressed body |
| Chunks.ChunkPrefix | zseek.go:284-285 | a chunk's first 8 bytes are the int64 encoding of the body's length |
| Chunks.ReadChunk | zseek.go:189-223 | fill's outcome at an offset: a clean EOF exactly at or past the end of the store, and a complete chunk only when its body lies within the store |
| Chunks.ParseEnd | zseek.go:44-46 | the parse of a store into chunks never moves back in either coordinate |
| Chunks.PointBounds | zseek.go:44-46 | every checkpoint lies within the store; its virtual offset lies within the decompressed content |
| Chunks.EndIsPoint | zseek.go:44-46 | the point where the parse stops is a checkpoint, at the content's full length, with no complete chunk after it |
| Chunks.NoStepIsEnd | zseek.go:196-197 | a checkpoint with no complete chunk after it is where the parse stops |
| Chunks.PointOrder | zseek.go:53 | checkpoints are ordered alike in both coordinates, strictly in virtual order when no chunk is empty |
| Chunks.Successor | zseek.go:206-216 | stepping over the chunk at a checkpoint reaches the next checkpoint, and that chunk's bytes are the corresponding slice of the content |
| Chunks.ExtendEnd | zseek.go:282-306 | appending a chunk to a store that parses whole moves the parse end to the new store end, longer by the chunk's data |
| Chunks.ExtendContent | zseek.go:282-306 | the content of the extended store is the old content followed by the chunk's data; it has no empty chunk iff the old one had none and the data is not empty |
| Chunks.ExtendKeepsPoint | zseek.go:301-306 | every checkpoint of the old store is one of the extended store |
| Chunks.ReadChunkStable | zseek.go:282-306 | appending bytes does not change a complete chunk already in the store |
| Chunks.ReadChunkAppended | zseek.go:282-299 | reading at the old end of a store right after a chunk was appended gives that chunk's length and data |
| Chunks.AppendExtends | zseek.go:282-306 | the readers of a store and of the same store plus one chunk agree before the old end and find the chunk at it |
| Chunks.SameStore | zseek_test.go:195-215 | a fresh instance over a store parses it as the instance that wrote it did |
| Chunks.FullSteps | zseek.go:189-206 | in a store that parses whole, every checkpoint before the end has a complete chunk |
| Chunks.EndPoint | zseek.go:196-197 | a checkpoint at or past the physical end is the end of the parse, at the content's length |
| Index.SearchIndex | zseek.go:165-168 | returns the last index entry whose virtual offset is at most the target, or -1 when none is |
| Index.RestartPoint | zseek.go:170-174 | the restart checkpoint for a search result: the origin for -1, otherwise that index entry |
| Index.ResultBound | zseek.go:166-168 | an entry is at or before the target exactly when it is at or before the search result |
| Index.LastNotAfterUnique | zseek.go:166-168 | the search result, and so the restart checkpoint, is determined by the index and the target |
| Index.TieTakesLast | zseek.go:166-174 | with two checkpoints at virtual offset 0 (an empty chunk, then another), a restart for target 0 takes the second |
| Index.AppendCheckpoint | zseek.go:53 | appending a checkpoint past every indexed one keeps the index ordered in both coordinates |
| ZSeekFile.ChunkKeepsSynced | zseek.go:204-216 | taking the chunk at the cursor into the read buffer keeps the invariant |
| ZSeekFile.FillOutcome | zseek.go:189-223 | at a synced cursor: a clean EOF only at the end of the stream; a chunk whenever the store parses whole and the cursor is before the end; a non-empty chunk when no chunk is empty |
| ZSeekFile.ConsumeKeepsSynced | zseek.go:104-105 | delivering n buffered bytes gives the next n bytes of the stream and keeps the invariant |
| ZSeekFile.AppendKeepsSynced | zseek.go:282-306 | committing the pending bytes as a chunk keeps the stream, makes the store parse whole and adds the old start of the pending bytes as the last checkpoint |
| ZSeekFile.CommitKeepsCore | zseek.go:253-308 | the state Flush leaves after writing a chunk satisfies the invariant, with the stream unchanged |
| ZSeekFile.AtPhysicalEnd | zseek.go:116-118 | at the physical end with nothing buffered for reading, the cursor is at the end of the stream |
| ZSeekFile.AtStreamEnd | zseek.go:113-118 | in a store that parses whole (`IsFull`) with no empty chunk, a cursor at the end of the stream passes Write's early-write checks |
| ZSeekFile.PendingIsMod | zseek.go:122-135 | counting bytes one at a time and flushing back to zero at the threshold leaves the total modulo the threshold pending |
| ZSeekFile.AutoFlush | zseek.go:121-137 | the store and pending bytes after Write accepts every byte of p with each flush succeeding: the store only grows and fewer than buf bytes stay pending |
| ZSeekFile.AutoFlushTail | zseek.go:122-135 | what stays pending after the auto-flushes is the last bytes written, as many as `PendingAfter` counts (the total modulo buf, by `PendingIsMod`); below the threshold nothing is flushed and the store is unchanged |
| ZSeekFile.AutoFlushAtThreshold | zseek.go:130-135 | pending bytes that reach the threshold exactly are written out as one chunk holding all of them, and nothing stays pending |
| ZSeekFile.SeekTarget | zseek.go:147-159 | the absolute target of a Seek: offset plus the logical end, plus the cursor, or the offset itself |
| ZSeekFile.InBounds | zseek.go:161 | the bounds Seek enforces: not before 0 and not past a known logical end |
| ZSeekFile.AcceptByte | zseek.go:121-127 | as corrected (see Findings): one accepted byte moves the virtual cursor and a known logical end |
| ZSeekFile.ZSeek.constructor | zseek.go:73-89 | NewBuffer: cursor at the origin, logical end unknown, a threshold that is not positive becomes 32 KiB; an empty store is complete |
| ZSeekFile.NewLevel | zseek.go:65-68 | NewBuffer with the default threshold: the same initial state as the constructor (cursor at the origin, empty buffers and index, end unknown) |
| ZSeekFile.New | zseek.go:60-63 | NewBuffer with the default level and threshold: the same initial state as the constructor |
| ZSeekFile.ZSeek.RecordCheckpoint | zseek.go:202-204 | the cursor joins the index exactly when the index does not yet reach it |
| ZSeekFile.ZSeek.FillAtEnd | zseek.go:193-199 | at a clean EOF the logical end becomes the cursor's virtual offset if the cursor is at the physical end; EOF is not sticky |
| ZSeekFile.ZSeek.FillChunk | zseek.go:206-216 | a decoded chunk becomes the read buffer and the cursor moves past it physically only |
| ZSeekFile.ZSeek.Fill | zseek.go:189-223 | fill succeeds exactly on a decodable chunk; it applies the checkpoint rule; it sets the logical end at a clean EOF at the physical end; every other outcome is a sticky error; the index only grows |
| ZSeekFile.ZSeek.Deliver | zseek.go:104-105 | bytes.Buffer.Read hands over min(want, buffered) bytes, which are the next bytes of the stream |
| ZSeekFile.ZSeek.Read | zseek.go:93-107 | a zero-length read changes nothing; bytes come from one chunk only and are the next bytes of the stream; with the read buffer empty, a successful fill hands over min(want, chunk length) bytes and keeps the rest buffered; the cursor advances by their count; EOF exactly at the end of a whole store, with the virtual cursor and the read buffer left as they were; sticky errors are returned; the index only grows |
| ZSeekFile.ZSeek.Commit | zseek.go:261-307 | the pending bytes become one chunk at the physical end; their start is indexed; cursor and physical end advance by the chunk size; the stream is unchanged |
| ZSeekFile.ZSeek.Flush | zseek.go:253-308 | no-op when nothing is pending; otherwise the behaviour of Commit; a level the codec rejects is a sticky error; the index only grows |
| ZSeekFile.ZSeek.PutByte | zseek.go:121-127 | as corrected: the byte is appended to the stream; both virtual coordinates advance (see Findings) |
| ZSeekFile.ZSeek.Accept | zseek.go:122-135 | one loop step of Write, as corrected: the byte extends the stream and the cursor, and a known end moves with it; below the threshold the store is untouched and nothing fails, whatever the level; at the threshold the pending bytes become one chunk appended to the store; only a rejected level fails |
| ZSeekFile.ZSeek.AcceptNext | zseek.go:122-135 | one pass of Write's loop, as corrected, keeps what the loop knows: the stream grew by the bytes accepted so far and the store holds the chunks `AutoFlush` gives for them |
| ZSeekFile.ZSeek.Append | zseek.go:120-137 | as corrected: the bytes accepted extend the stream in order; the store is the one `AutoFlush` gives, unchanged when the pending count stays below the threshold; the pending count wraps at the threshold; a known end moves with the cursor; only a rejected level stops it |
| ZSeekFile.ZSeek.Write | zseek.go:110-138 | as corrected: sticky errors first; ErrEarlyWrite exactly when bytes are left to read or the cursor is away from the physical end with nothing pending; otherwise all bytes are appended to the stream, the store holds the chunks the auto-flushes wrote (none below the threshold, whatever the level), and a known end moves with the cursor; the index only grows |
| ZSeekFile.ZSeek.PassBuffered | zseek.go:227-228 | the buffered bytes are counted into the virtual cursor and dropped |
| ZSeekFile.ZSeek.SeekEndScan | zseek.go:225-240 | seekEnd either reaches the physical end with the logical end known as the stream length, or stops with a sticky fill error in a store that does not parse whole; the index only grows |
| ZSeekFile.ZSeek.Skip | zseek.go:242-249 | skip advances by exactly k bytes when the stream has them; past the end of a whole store it fails with a sticky EOF; the index only grows |
| ZSeekFile.ZSeek.Restart | zseek.go:165-180 | returns sort.Search's result minus one: every entry up to it is at or before the target and every entry after it is past it, so of several checkpoints at the same virtual offset the last is taken; the cursor goes to that entry (the origin for -1), the store cursor to its physical offset, and the read buffer is dropped |
| ZSeekFile.ZSeek.Reposition | zseek.go:165-186 | restarts at the index entry Restart picks (stated through its search result) and skips to the target; lands on the target when the stream has it and no chunk is empty; stores EOF past the end of a whole store; every error is stored; the index only grows |
| ZSeekFile.ZSeek.Resolve | zseek.go:141-159 | after a flush the target is offset plus 0, the cursor, or the logical end (found by seekEnd when unknown); the cursor stays put unless seekEnd ran, which leaves it at the end; with nothing pending the level plays no part; the index only grows |
| ZSeekFile.ZSeek.Seek | zseek.go:141-187 | lands at the resolved target when it lies in the stream; ErrInvalidSeek for a target before 0 or past a known end, and, in a whole store, for a SeekEnd target outside the stream while the end is still unknown; a refused seek leaves the cursor where it was (or at the end seekEnd found); with nothing pending these hold whatever the level; every other error comes from Flush, seekEnd or skip and is stored; the index only grows |
| ZSeekFile.ZSeek.Close | zseek.go:312-316 | returns Flush's error, commits pending bytes, and leaves ErrClosedPipe as the sticky error; the index only grows |
| Scenarios.ReadFull | zseek_test.go:214-227 | io.ReadFull returns k bytes of the stream when it has them and no chunk of the store is empty; EOF with nothing read at the end; in a whole store with no empty chunk, a read past the end returns the rest of the stream, with an unexpected EOF when that rest is not empty |
| Scenarios.ReadMore | zseek_test.go:214-227 | one pass of io.ReadFull's loop keeps what the loop knows: the bytes gathered are the next bytes of the stream, and Read stops early only at the end or on a sticky error |
| Scenarios.EmptyStore | zseek_test.go:41-85 | on an empty store, Read(10) is EOF, Read(0) is nil, and seeks to 0 from any origin give 0 |
| Scenarios.EmptyStoreOutOfRange | zseek_test.go:87-133 | once a Read has found the end of an empty store, seeking to -1 or 1 from any origin is ErrInvalidSeek |
| Scenarios.WriteThenSeekBack | zseek_test.go:136-164 | after a write, the current offset is the data's length, and seeking back by one lands one short of it |
| Scenarios.WriteSeekBackRead | zseek_test.go:166-180 | then Read gives exactly the last byte, and the next Read is EOF |
| Scenarios.MarkedRoundTrip | zseek_test.go:182-227 | over the concrete `MarkedCodec`, any data written and flushed reads back unchanged |
| Scenarios.FreshSeekEndOutOfRange | zseek.go:147-163 | over the concrete `MarkedCodec`, on a fresh instance over an empty store, Seek(-1, SeekEnd) and Seek(1, SeekEnd) are ErrInvalidSeek once seekEnd finds the end |
| Scenarios.ShortReadFull | zseek_test.go:214-227 | over the concrete `MarkedCodec`, io.ReadFull asking for two bytes of a flushed one-byte stream gets that byte and ErrUnexpectedEOF |
| Scenarios.FreshSeekBeforeStart | zseek.go:161-163 | over the concrete `MarkedCodec`, a seek to -1 on a fresh instance is ErrInvalidSeek and the cursor stays at 0 |
| Scenarios.WriteAndFlush | zseek_test.go:182-193 | data written to an empty store is found at SeekEnd, and after Flush all of it is in the store, which parses whole |
| Scenarios.Reopen | zseek_test.go:195-198 | New over a flushed store gives an instance at the origin, end unknown, holding the same stream |
| Scenarios.SeekEndAfterReopen | zseek_test.go:200-206 | that instance's Seek(0, SeekEnd) finds the stream's length with no error |
| Scenarios.ReadBackAfterReopen | zseek_test.go:208-227 | a second fresh instance reads the whole stream back with io.ReadFull, then gets nothing, with EOF unless the stream is empty |
| Scenarios.WriteFlushReadBack | zseek_test.go:182-227 | written data is found at SeekEnd before and after a flush, by the writer and by a fresh instance, and read back in full by io.ReadFull, then EOF |
| Scenarios.WriteAfterEnd | zseek.go:121-127 | as corrected: after a read found the end of an empty store, writing one byte and seeking to the current offset succeeds at 1 |
| Scenarios.WriteBelowThreshold | zseek.go:121-130 | a one-byte write below the threshold, at any level, succeeds and leaves the store empty with the byte pending |
| Scenarios.WriteAtThreshold | zseek.go:130-135 | a two-byte write with threshold 2 leaves the store holding exactly one chunk, the compressed two bytes, and nothing pending |
| Scenarios.SeekPastEndAfterWrite | zseek.go:161-163 | once a read has found the end of an empty store and one byte is written, Seek(1, SeekCur) is ErrInvalidSeek |
| Scenarios.SeekBeforeStartAnyLevel | zseek.go:141-163 | with nothing pending, Seek(-1, SeekStart) on a fresh instance is ErrInvalidSeek even at a level the codec rejects |
| Scenarios.WriteByte | zseek.go:121-130 | one byte written at the physical end below the threshold is only pending: the store is unchanged |
| Scenarios.WriteByteAndFlush | zseek.go:253-307 | one byte written and flushed is appended to the store as a chunk of its own, and the stream grows by that byte |
| Scenarios.TwoChunks | zseek.go:253-307 | two one-byte writes, each followed by Flush, leave a store of exactly two chunks holding the two bytes |
| Scenarios.ReadTwoChunks | zseek.go:91-106 | from the origin of that store, Read(2) gives only the first chunk's byte, and a second Read(2) gives the other one |
| Scenarios.ChunkBoundaryRead | zseek.go:91-106 | a fresh instance over the two-chunk store: a read asking for more than the first chunk holds stops at the chunk boundary |
| Findings.AcceptByteAsWritten | zseek.go:121-127 | one accepted byte as the source has it: only the virtual cursor moves |
| Findings.StaleEndRefusesSeek | zseek.go:121-127 | as written, a byte written at a known logical end leaves that end behind the cursor, and Seek(0, SeekCur) is then out of bounds |
| Findings.StaleEndExample | zseek.go:161 | the concrete case of an empty store whose end was found by a read, then one byte written |
| Findings.AcceptByteKeepsEnd | zseek.go:121-127 | as corrected, a known end moves with the cursor, stays the stream length and keeps Seek(0, SeekCur) in bounds |

## Left out

- Fields and I/O:
  - The `io.ReadWriteSeeker` is an in-memory byte sequence.
  - Its Seek and Write calls never fail, and writes are never short. The
    `ErrShortWrite` paths and the store-seek error paths are not modelled
    (zseek.go:78-86, 177-180, 272-275, 296-299).
  - Writes happen at the store cursor. The invariant places that cursor at
    the physical end whenever bytes are pending, so a write is an append.
- zlib:
  - The codec is abstract. `WellBehaved` states its round trip as a
    hypothesis of the contracts.
  - Every zlib error is one error kind. A body the codec rejects is
    `CorruptChunk`, and a body cut short by the end of the store is
    `UnexpectedEOF`.
  - A level outside -2..9 is `InvalidLevel`, as zlib.NewWriterLevel
    rejects it.
  - The decompressor is taken to consume the whole body. So the store
    cursor always meets the chunk end, even when a zlib stream ends before
    its length runs out.
- ZSeekFile.ZSeek.SeekEndScan: the sticky ErrUnexpectedEOF branch
  (zseek.go:234-235) is unreachable under the previous point. The store
  cursor always equals `pos.phys`, so a clean EOF happens only at the
  physical end. That branch is an `assert false` rather than a modelled
  outcome.
- Integers are unbounded. The int64 positions of the source are not
  checked for overflow. Only the length prefix is bounded, to below 2^63,
  by `WellBehaved`.
- ZSeekFile.ZSeek.constructor: it requires a write threshold below 2^62
  (`BodyLimit`), which the source does not. Only then does `WellBehaved`
  promise that a flushed chunk's length fits the int64 prefix. The same
  bound is required by every scenario.
- The corrected end-marker update described under Findings. As written, a
  known end does not move when a byte is written, and a Seek after a write
  at a known end can be refused. These members hold of the corrected
  update, not of the source as written:
  - ZSeekFile.AcceptByte: a known end moves with the cursor.
  - ZSeekFile.ZSeek.PutByte: applies AcceptByte.
  - ZSeekFile.ZSeek.Accept: its end-marker clause.
  - ZSeekFile.ZSeek.AcceptNext: its end-marker clause.
  - ZSeekFile.ZSeek.Append: its end-marker clause.
  - ZSeekFile.ZSeek.Write: its end-marker clause.
  - ZSeekFile.ZSeek.Seek: its success after a write at a known end.
  - Scenarios.WriteAfterEnd: the seek that succeeds here is refused as
    written.
- ZSeekFile.ZSeek.Read:
  - it promises data only in a store with no empty chunk (`NoEmpty`), and
    EOF at the end only in a store that parses whole (`IsFull`).
  - A chunk that decompresses to nothing gives an early EOF in the source.
  - Flush never writes such a chunk, and every store a `ZSeek` writes
    satisfies both hypotheses (Commit, Flush and Write preserve them).
- ZSeekFile.ZSeek.Skip and ZSeekFile.ZSeek.Seek: success is promised only
  under the same two hypotheses, for the same reason.
- ZSeekFile.ZSeek.Reposition: success is promised only in a store with no
  empty chunk (`NoEmpty`), for the same reason. Where an empty chunk sits
  between the restart checkpoint and the target, the skip can stop early.
- Scenarios.ReadFull: a full read is promised only in a store with no
  empty chunk (`NoEmpty`), for the same reason.
- `io.CopyN` is modelled as chunked Reads of at most 8192 bytes, discarded.
  Its internal buffering is not modelled.
- Concurrency and the error values' messages are not modelled.

## Findings

| source | as written | input that shows it | evidently intended | confidence | as-written member | corrected member |
|---|---|---|---|---|---|---|
| zseek.go:121-127, 305-306 | Write advances `pos.virt` for each byte but never `end.virt`, and Flush moves only `end.phys`, so a logical end found earlier goes stale | on an empty store: Read(10) gives EOF and sets `end.virt` to 0; Write([65]) leaves it at 0 with the cursor at 1; Seek(0, SeekCur) then returns ErrInvalidSeek | a known logical end moves with every byte written, staying the stream's length | high, not executed | Findings.StaleEndRefusesSeek | Findings.AcceptByteKeepsEnd |

The class uses the corrected update (`AcceptByte` in `ZSeek.PutByte`). That
is what lets `Valid()` state that a known logical end is the stream length.
`Scenarios.WriteAfterEnd` shows the same call sequence succeeding.
