/** The checkpoint index: an append-only sequence of chunk starts, ordered in both
    coordinates, and the search for the last checkpoint not after a target. */
module Index {
  import opened Chunks

  /** Strictly increasing physical offsets, non-decreasing virtual offsets. */
  ghost predicate IndexOrdered(idx: seq<Position>)
  {
    forall i, j :: 0 <= i < j < |idx| ==> idx[i].phys < idx[j].phys && idx[i].virt <= idx[j].virt
  }

  /** Non-decreasing virtual offsets: what the binary search needs. */
  ghost predicate VirtSorted(idx: seq<Position>)
  {
    forall i, j :: 0 <= i < j < |idx| ==> idx[i].virt <= idx[j].virt
  }

  /** The index of the last checkpoint whose virtual offset is at most target, or -1
      when there is none: sort.Search for the first entry past target, minus one. */
  method SearchIndex(idx: seq<Position>, target: int) returns (i: int)
    requires VirtSorted(idx)
    ensures -1 <= i < |idx|
    ensures forall k :: 0 <= k <= i ==> idx[k].virt <= target
    ensures forall k :: i < k < |idx| ==> idx[k].virt > target
  {
    var lo, hi := 0, |idx|;
    while lo < hi
      invariant 0 <= lo <= hi <= |idx|
      invariant forall k :: 0 <= k < lo ==> idx[k].virt <= target
      invariant forall k :: hi <= k < |idx| ==> idx[k].virt > target
    {
      var mid := (lo + hi) / 2;
      if idx[mid].virt > target {
        hi := mid;
      } else {
        lo := mid + 1;
      }
    }
    i := lo - 1;
  }

  /** i is what sort.Search minus one gives for target: every entry up to i is at
      or before the target and every entry after it is past the target. */
  ghost predicate LastNotAfter(idx: seq<Position>, target: int, i: int)
  {
    -1 <= i < |idx| &&
    (forall k :: 0 <= k <= i ==> idx[k].virt <= target) &&
    (forall k :: i < k < |idx| ==> idx[k].virt > target)
  }

  /** The checkpoint Seek restarts from for search result i: the origin when i is -1,
      otherwise entry i. */
  function RestartPoint(idx: seq<Position>, i: int): (p: Position)
    requires -1 <= i < |idx|
    ensures i < 0 ==> p == Position(0, 0)
    ensures 0 <= i ==> p in idx
  {
    if i < 0 then Position(0, 0) else idx[i]
  }

  /** An entry is at or before the target exactly when it is at or before the
      search result. */
  lemma ResultBound(idx: seq<Position>, target: int, i: int, k: int)
    requires LastNotAfter(idx, target, i) && 0 <= k < |idx|
    ensures k <= i <==> idx[k].virt <= target
  {
  }

  /** The search result is determined by the index and the target: among checkpoints
      with equal virtual offsets, the last one is taken. */
  lemma LastNotAfterUnique(idx: seq<Position>, target: int, i: int, j: int)
    requires LastNotAfter(idx, target, i) && LastNotAfter(idx, target, j)
    ensures i == j && RestartPoint(idx, i) == RestartPoint(idx, j)
  {
    if 0 <= i {
      ResultBound(idx, target, j, i);
    }
    if 0 <= j {
      ResultBound(idx, target, i, j);
    }
  }

  /** An empty chunk at 0 followed by a chunk at 9 gives two checkpoints at virtual
      offset 0; a restart for target 0 takes the second one. */
  lemma TieTakesLast(i: int)
    requires LastNotAfter([Position(0, 0), Position(9, 0)], 0, i)
    ensures RestartPoint([Position(0, 0), Position(9, 0)], i) == Position(9, 0)
  {
    LastNotAfterUnique([Position(0, 0), Position(9, 0)], 0, i, 1);
  }

  /** Appending a checkpoint of the parse that lies past every indexed one keeps the
      index ordered. */
  lemma AppendCheckpoint(read: Reader, size: nat, idx: seq<Position>, x: Position)
    requires IndexOrdered(idx)
    requires forall i :: 0 <= i < |idx| ==> IsPoint(read, size, 0, 0, idx[i])
    requires IsPoint(read, size, 0, 0, x)
    requires |idx| == 0 || idx[|idx| - 1].phys < x.phys
    ensures IndexOrdered(idx + [x])
  {
    var r := idx + [x];
    forall i | 0 <= i < |idx|
      ensures idx[i].phys < x.phys && idx[i].virt <= x.virt
    {
      PointOrder(read, size, 0, 0, idx[i], x);
    }
    assert forall i :: 0 <= i < |idx| ==> r[i] == idx[i];
  }
}
