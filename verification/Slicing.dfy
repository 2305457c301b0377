/** How sfs_read and sfs_write cut a byte range into blocks and where in the caller's buffer they look for
    each piece (src/sfs.c:710-750, 801-847). */
module Slicing {
  import opened Words

  function FirstBlock(offset: nat): nat { offset / BLOCK_SIZE }

  function FirstOffset(offset: nat): nat { offset % BLOCK_SIZE }

  /** Bytes used in the last block. */
  function LastLen(offset: nat, size: nat): nat {
    if (offset + size) % BLOCK_SIZE == 0 then BLOCK_SIZE else (offset + size) % BLOCK_SIZE
  }

  function LastBlock(offset: nat, size: nat): int {
    (offset + size) / BLOCK_SIZE - if LastLen(offset, size) == BLOCK_SIZE then 1 else 0
  }

  function SliceA(offset: nat, size: nat, i: int): nat {
    if i == FirstBlock(offset) && FirstOffset(offset) != 0 then FirstOffset(offset) else 0
  }

  function SliceB(offset: nat, size: nat, i: int): nat {
    if i == LastBlock(offset, size) && LastLen(offset, size) != BLOCK_SIZE then LastLen(offset, size) else BLOCK_SIZE
  }

  predicate Covers(offset: nat, size: nat, i: int) {
    FirstBlock(offset) <= i <= LastBlock(offset, size)
  }

  /** The slices cut the byte range exactly: position x is in the range if and only if it lies in the slice of
      its block, every slice is nonempty and inside its block, and each begins where the one before ends. */
  lemma SlicesTileTheRange(offset: nat, size: nat, x: nat, i: int)
    requires size > 0
    ensures Covers(offset, size, FirstBlock(offset))
    ensures offset <= x < offset + size <==>
      && Covers(offset, size, x / BLOCK_SIZE)
      && SliceA(offset, size, x / BLOCK_SIZE) <= x % BLOCK_SIZE < SliceB(offset, size, x / BLOCK_SIZE)
    ensures Covers(offset, size, i) ==> SliceA(offset, size, i) < SliceB(offset, size, i) <= BLOCK_SIZE
    ensures Covers(offset, size, i) && Covers(offset, size, i + 1) ==>
      BLOCK_SIZE * i + SliceB(offset, size, i) == BLOCK_SIZE * (i + 1) + SliceA(offset, size, i + 1)
    ensures BLOCK_SIZE * FirstBlock(offset) + SliceA(offset, size, FirstBlock(offset)) == offset
    ensures BLOCK_SIZE * LastBlock(offset, size) + SliceB(offset, size, LastBlock(offset, size)) == offset + size
  {
    var end := offset + size;
    assert end == BLOCK_SIZE * (end / BLOCK_SIZE) + end % BLOCK_SIZE;
    assert offset == BLOCK_SIZE * (offset / BLOCK_SIZE) + offset % BLOCK_SIZE;
    assert x == BLOCK_SIZE * (x / BLOCK_SIZE) + x % BLOCK_SIZE;
  }

  /** The code copies block i whole, or from its start, or not at all. */
  datatype Copy = Whole | Start | Nothing

  function CopyKind(offset: nat, size: nat, i: int): Copy {
    if SliceA(offset, size, i) == 0 && SliceB(offset, size, i) == BLOCK_SIZE then Whole
    else if SliceA(offset, size, i) == 0 then Start
    else Nothing
  }

  /** The position in the caller's buffer the code uses for block i: the buffer pointer is moved back by the
      offset in the first block, then whole blocks are taken at 512 * i and partial ones at the slice start. */
  function CodePosition(offset: nat, size: nat, i: int): int {
    (if CopyKind(offset, size, i) == Whole then BLOCK_SIZE * i else SliceA(offset, size, i)) - FirstOffset(offset)
  }

  /** Where the bytes of block i belong in the caller's buffer. */
  function RightPosition(offset: nat, size: nat, i: int): int {
    BLOCK_SIZE * i + SliceA(offset, size, i) - offset
  }

  /** Every piece is copied, and to or from its place in the buffer. */
  ghost predicate CopiesRight(offset: nat, size: nat) {
    forall i :: Covers(offset, size, i) ==>
      CopyKind(offset, size, i) != Nothing && CodePosition(offset, size, i) == RightPosition(offset, size, i)
  }

  /** Every copy that is made stays inside the caller's buffer. */
  ghost predicate CopiesInBounds(offset: nat, size: nat) {
    forall i :: Covers(offset, size, i) && CopyKind(offset, size, i) != Nothing ==>
      && 0 <= CodePosition(offset, size, i)
      && CodePosition(offset, size, i) + SliceB(offset, size, i) - SliceA(offset, size, i) <= size
  }

  predicate Aligned(offset: nat, size: nat) {
    offset % BLOCK_SIZE == 0 && (size < BLOCK_SIZE || (offset == 0 && size % BLOCK_SIZE == 0))
  }

  predicate InBuffer(offset: nat, size: nat) {
    if offset % BLOCK_SIZE == 0 then size < BLOCK_SIZE || offset == 0
    else
      || FirstBlock(offset) == LastBlock(offset, size)
      || (offset < BLOCK_SIZE && (offset + size) % BLOCK_SIZE == 0)
  }

  /** The copy loops of sfs_read and sfs_write are right exactly on block-aligned requests that are shorter
      than a block, or start at 0 and are a whole number of blocks. */
  lemma CopiesRightIff(offset: nat, size: nat)
    requires size > 0
    ensures CopiesRight(offset, size) <==> Aligned(offset, size)
  {
    var first, last := FirstBlock(offset), LastBlock(offset, size);
    SlicesTileTheRange(offset, size, offset, first);
    if CopiesRight(offset, size) {
      assert Covers(offset, size, first) && Covers(offset, size, last);
    }
  }

  /** They stay inside the caller's buffer exactly on block-aligned requests that are shorter than a block or start
      at 0, and on unaligned ones that lie in one block, of which nothing is copied, or that begin in the first
      block and end at a block boundary. */
  lemma CopiesInBoundsIff(offset: nat, size: nat)
    requires size > 0
    ensures CopiesInBounds(offset, size) <==> InBuffer(offset, size)
  {
    var first, last := FirstBlock(offset), LastBlock(offset, size);
    var end := offset + size;
    SlicesTileTheRange(offset, size, offset, first);
    assert Covers(offset, size, first) && Covers(offset, size, last);
    assert end == BLOCK_SIZE * (end / BLOCK_SIZE) + end % BLOCK_SIZE;
    if InBuffer(offset, size) {
      forall i | Covers(offset, size, i) && CopyKind(offset, size, i) != Nothing
        ensures 0 <= CodePosition(offset, size, i)
        ensures CodePosition(offset, size, i) + SliceB(offset, size, i) - SliceA(offset, size, i) <= size {
        PieceInBuffer(offset, size, i);
      }
    } else if end % BLOCK_SIZE == 0 || offset % BLOCK_SIZE == 0 {
      // the last whole block is looked for past the end of the buffer
      var whole := end / BLOCK_SIZE - 1;
      assert Covers(offset, size, whole) && CopyKind(offset, size, whole) == Whole;
    } else {
      // the partial last block is looked for before the start of the buffer
      assert CopyKind(offset, size, last) == Start;
    }
  }

  /** The piece of block i of a request that stays in the buffer. */
  lemma PieceInBuffer(offset: nat, size: nat, i: int)
    requires size > 0 && InBuffer(offset, size) && Covers(offset, size, i)
    ensures CopyKind(offset, size, i) == Nothing <==> offset % BLOCK_SIZE != 0 && i == FirstBlock(offset)
    ensures CopyKind(offset, size, i) != Nothing ==>
      && SliceA(offset, size, i) == 0 < SliceB(offset, size, i) <= BLOCK_SIZE
      && 0 <= CodePosition(offset, size, i) && CodePosition(offset, size, i) + SliceB(offset, size, i) <= size
      && CodePosition(offset, size, i) ==
         if SliceB(offset, size, i) == BLOCK_SIZE then i * BLOCK_SIZE - offset % BLOCK_SIZE else 0
  {
    var end := offset + size;
    SlicesTileTheRange(offset, size, offset, i);
    assert end == BLOCK_SIZE * (end / BLOCK_SIZE) + end % BLOCK_SIZE;
  }
}
