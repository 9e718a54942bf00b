/** Write's bookkeeping of the end marker, as the source has it and as it is used in
    the model. */
module Findings {
  import opened Chunks
  import opened ZSeekFile

  /** The cursor and end marker after one byte is accepted, as Write updates them:
    only the cursor's virtual offset moves, even once the logical end is known. */
  function AcceptByteAsWritten(pos: Position, end: Position): (moved: (Position, Position))
  {
    (pos.(virt := pos.virt + 1), end)
  }

  /** As written, a byte written at a known logical end leaves that end behind the
    cursor, so a Seek to the current offset is refused as past the end. */
  lemma StaleEndRefusesSeek(pos: Position, end: Position)
    requires 0 <= pos.virt && end.virt == pos.virt
    ensures var (p, e) := AcceptByteAsWritten(pos, end);
      e.virt != Unknown && e.virt < p.virt &&
      !InBounds(SeekTarget(0, SeekCur, p.virt, e.virt), e.virt)
  {
  }

  /** The concrete case: a read of an empty store has set the logical end to 0, then
    one byte is written. */
  lemma StaleEndExample()
    ensures var (p, e) := AcceptByteAsWritten(Position(0, 0), Position(0, 0));
      p.virt == 1 && e.virt == 0 && !InBounds(SeekTarget(0, SeekCur, p.virt, e.virt), e.virt)
  {
  }

  /** As corrected: a known logical end moves with the cursor, so it stays the length
    of the stream, and Seek to the current offset stays in bounds. */
  lemma AcceptByteKeepsEnd(pos: Position, end: Position, len: nat)
    requires pos.virt == len && (end.virt == Unknown || end.virt == len)
    ensures var (p, e) := AcceptByte(pos, end);
      p.virt == len + 1 && (e.virt == Unknown || e.virt == len + 1) && e.phys == end.phys &&
      InBounds(SeekTarget(0, SeekCur, p.virt, e.virt), e.virt)
  {
  }
}
