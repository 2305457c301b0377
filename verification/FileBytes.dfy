/** What sfs_write and sfs_read do to the bytes of a file. */
module FileBytes {
  import opened Words
  import opened Inodes
  import opened Bytes
  import opened Slicing
  import opened Files

  /** Byte x of file n; holes read as zeros. */
  function FileByte(fs: Fs, n: Word, x: nat): Byte {
    BlockBytes(Content(fs, n, x / BLOCK_SIZE))[x % BLOCK_SIZE]
  }

  /** The bytes of inode j of a block, as struct sfs_fs_inode lays them out: 168 bytes, three to a block. */
  lemma InodeBytes(b: Block, j: nat)
    requires j < INODES_PER_BLOCK
    ensures 168 * (j + 1) <= 512 < 168 * (INODES_PER_BLOCK + 1)
    ensures var ino, bytes := AsInode(b, j), BlockBytes(b)[168 * j..168 * (j + 1)];
      && FromBytes(bytes[..8]) == ino.inumber
      && FromBytes(bytes[20..24]) == ino.links
      && FromBytes(bytes[48..56]) == ino.size
      && |ino.ptrs| == 14 && (forall k :: 0 <= k < 14 ==> FromBytes(bytes[56 + 8 * k..64 + 8 * k]) == ino.ptrs[k])
  {
    hide Unpack, FromBytes;
    var bytes := BlockBytes(b)[168 * j..168 * (j + 1)];
    InodeWord(b, j, 0);
    InodeWord(b, j, 2);
    InodeWord(b, j, 6);
    HighHalf(bytes[16..24]);
    assert bytes[16..24][4..] == bytes[20..24];
    forall k | 0 <= k < 14 ensures FromBytes(bytes[56 + 8 * k..64 + 8 * k]) == AsInode(b, j).ptrs[k] {
      InodeWord(b, j, 7 + k);
    }
  }

  lemma InodeWord(b: Block, j: nat, k: nat)
    requires j < INODES_PER_BLOCK && k < INODE_WORDS
    ensures FromBytes(BlockBytes(b)[168 * j..168 * (j + 1)][8 * k..8 * k + 8]) == b[INODE_WORDS * j + k]
  {
    hide Unpack, FromBytes;
    WordAtByte(b, INODE_WORDS * j + k);
    SliceOfSlice(BlockBytes(b), 168 * j, 168 * (j + 1), 8 * k, 8 * k + 8);
  }

  lemma SliceOfSlice(s: seq<Byte>, a: nat, b: nat, c: nat, d: nat)
    requires a <= b <= |s| && c <= d <= b - a
    ensures s[a..b][c..d] == s[a + c..a + d]
  {
    forall k | 0 <= k < d - c ensures s[a..b][c..d][k] == s[a + c..a + d][k] {
      assert s[a..b][c + k] == s[a + c + k];
    }
  }

  lemma HighHalf(bs: seq<Byte>)
    requires |bs| == 8
    ensures FromBytes(bs[4..]) == FromBytes(bs) / 0x1_0000_0000
  {
    hide FromBytes;
    assert bs == bs[..4] + bs[4..];
    FromBytesJoin(bs[..4], bs[4..]);
    FromBytesBounded(bs[..4]);
    assert Pow256(4) == 0x1_0000_0000;
  }

  /** A call of sfs_write: the caller's bytes, where they go, and what the uninitialised block on the stack of the
      function happens to hold. */
  datatype Request = Request(buf: seq<Byte>, offset: nat, scratch: Block) {
    /** It writes something, and its copies stay inside the buffer. */
    predicate Ok() { |buf| > 0 && InBuffer(offset, |buf|) }

    function First(): nat { FirstBlock(offset) }

    function Last(): int { LastBlock(offset, |buf|) }

    predicate Touches(i: int) { Covers(offset, |buf|, i) }

    predicate Holds(x: int) { offset <= x < offset + |buf| }
  }

  /** The block sfs_write stores as logical block i: a whole one from the buffer, or the old block with its first
      bytes replaced, or, when the range does not begin at the start of the block, the scratch block. */
  function BlockToWrite(fs: Fs, n: Word, q: Request, i: nat): Block
    requires q.Ok() && q.Touches(i)
  {
    PieceInBuffer(q.offset, |q.buf|, i);
    if CopyKind(q.offset, |q.buf|, i) == Nothing then q.scratch
    else
      var p, b := CodePosition(q.offset, |q.buf|, i), SliceB(q.offset, |q.buf|, i);
      BlockOf(q.buf[p..p + b] + BlockBytes(Content(fs, n, i))[b..])
  }

  /** All of them, from block i on. */
  function BlocksFrom(fs: Fs, n: Word, q: Request, i: nat): (blks: seq<Block>)
    requires q.Ok() && q.First() <= i <= q.Last() + 1
    ensures |blks| == q.Last() + 1 - i
    decreases q.Last() - i
  {
    if i > q.Last() then [] else [BlockToWrite(fs, n, q, i)] + BlocksFrom(fs, n, q, i + 1)
  }

  lemma {:induction false} BlocksFromAt(fs: Fs, n: Word, q: Request, i: nat, k: nat)
    requires q.Ok() && q.First() <= i <= k <= q.Last()
    ensures BlocksFrom(fs, n, q, i)[k - i] == BlockToWrite(fs, n, q, k)
    decreases k - i
  {
    hide BlockToWrite;
    if i < k {
      BlocksFromAt(fs, n, q, i + 1, k);
    }
  }

  lemma LastNotBeforeFirst(offset: nat, size: nat)
    requires size > 0
    ensures FirstBlock(offset) <= LastBlock(offset, size)
  {
    SlicesTileTheRange(offset, size, offset, 0);
  }

  /** fs' holds in file n the blocks sfs_write computed from fs, and otherwise what fs holds. */
  ghost predicate Stored(fs: Fs, fs': Fs, n: Word, q: Request)
    requires q.Ok()
  {
    forall k: nat :: k < MAX_IBLOCKS ==>
      Content(fs', n, k) == if q.Touches(k) then BlockToWrite(fs, n, q, k) else Content(fs, n, k)
  }

  lemma StoredAt(fs: Fs, fs': Fs, n: Word, q: Request, k: nat)
    requires q.Ok() && Stored(fs, fs', n, q) && k < MAX_IBLOCKS
    ensures Content(fs', n, k) == if q.Touches(k) then BlockToWrite(fs, n, q, k) else Content(fs, n, k)
  {
  }

  /** Byte x of file n as a write leaves it. */
  function WrittenByte(fs: Fs, n: Word, q: Request, x: nat): Byte
    requires q.Ok()
  {
    var k := x / BLOCK_SIZE;
    BlockBytes(if q.Touches(k) then BlockToWrite(fs, n, q, k) else Content(fs, n, k))[x % BLOCK_SIZE]
  }

  lemma StoredBytes(fs: Fs, fs': Fs, n: Word, q: Request, x: nat)
    requires q.Ok() && Stored(fs, fs', n, q) && x < MAX_IBLOCKS * BLOCK_SIZE
    ensures FileByte(fs', n, x) == WrittenByte(fs, n, q, x)
  {
    hide Content, Stored, BlockToWrite, BlockBytes;
    StoredAt(fs, fs', n, q, x / BLOCK_SIZE);
  }

  /** The bytes of ByteAfterWrite, as computed. */
  lemma WrittenByteIs(fs: Fs, n: Word, q: Request, x: nat)
    requires q.Ok()
    ensures WrittenByte(fs, n, q, x) ==
      if q.offset % BLOCK_SIZE != 0 && x / BLOCK_SIZE == q.First() then BlockBytes(q.scratch)[x % BLOCK_SIZE]
      else if !q.Holds(x) then FileByte(fs, n, x)
      else if q.offset % BLOCK_SIZE != 0 || Aligned(q.offset, |q.buf|) || x / BLOCK_SIZE < q.Last()
        then q.buf[x - q.offset]
      else q.buf[x % BLOCK_SIZE]
  {
    hide Content, Pack, Unpack;
    var k := x / BLOCK_SIZE;
    SlicesTileTheRange(q.offset, |q.buf|, x, k);
    if q.Touches(k) {
      PieceInBuffer(q.offset, |q.buf|, k);
      if CopyKind(q.offset, |q.buf|, k) != Nothing {
        var p, b := CodePosition(q.offset, |q.buf|, k), SliceB(q.offset, |q.buf|, k);
        UnpackPack(q.buf[p..p + b] + BlockBytes(Content(fs, n, k))[b..]);
      }
    }
  }

  /** One byte of the file after a write. An unaligned request puts the scratch block over its first block; an
      aligned one with a partial tail puts the start of the buffer there. */
  lemma ByteAfterWrite(fs: Fs, fs': Fs, n: Word, q: Request, x: nat)
    requires q.Ok() && Stored(fs, fs', n, q) && x < MAX_IBLOCKS * BLOCK_SIZE
    ensures FileByte(fs', n, x) ==
      if q.offset % BLOCK_SIZE != 0 && x / BLOCK_SIZE == q.First() then BlockBytes(q.scratch)[x % BLOCK_SIZE]
      else if !q.Holds(x) then FileByte(fs, n, x)
      else if q.offset % BLOCK_SIZE != 0 || Aligned(q.offset, |q.buf|) || x / BLOCK_SIZE < q.Last()
        then q.buf[x - q.offset]
      else q.buf[x % BLOCK_SIZE]
  {
    hide FileByte, WrittenByte, Stored;
    StoredBytes(fs, fs', n, q, x);
    WrittenByteIs(fs, n, q, x);
  }

  /** Exactly the bytes of the range change, to those of the buffer. */
  ghost predicate WritesRight(fs: Fs, fs': Fs, n: Word, q: Request) {
    forall x: nat :: x < MAX_IBLOCKS * BLOCK_SIZE ==>
      FileByte(fs', n, x) == if q.Holds(x) then q.buf[x - q.offset] else FileByte(fs, n, x)
  }

  /** On the aligned domain a write is right. */
  lemma AlignedWriteIsRight(fs: Fs, fs': Fs, n: Word, q: Request)
    requires q.Ok() && Aligned(q.offset, |q.buf|) && Stored(fs, fs', n, q)
    ensures WritesRight(fs, fs', n, q)
  {
    forall x: nat | x < MAX_IBLOCKS * BLOCK_SIZE
      ensures FileByte(fs', n, x) == if q.Holds(x) then q.buf[x - q.offset] else FileByte(fs, n, x) {
      ByteAfterWrite(fs, fs', n, q, x);
    }
  }

  /** The scratch block happens to hold what the first block of the range should become. */
  ghost predicate ScratchIsRight(fs: Fs, n: Word, q: Request) {
    forall x: nat :: x / BLOCK_SIZE == q.First() ==>
      BlockBytes(q.scratch)[x % BLOCK_SIZE] == if q.Holds(x) then q.buf[x - q.offset] else FileByte(fs, n, x)
  }

  lemma TailByte(fs: Fs, fs': Fs, n: Word, q: Request, j: nat)
    requires q.Ok() && Stored(fs, fs', n, q) && |q.buf| <= MAX_IBLOCKS * BLOCK_SIZE
    requires q.offset % BLOCK_SIZE == 0 && !Aligned(q.offset, |q.buf|) && j < |q.buf| % BLOCK_SIZE
    ensures q.offset == 0 && |q.buf| - |q.buf| % BLOCK_SIZE == BLOCK_SIZE * q.Last()
    ensures FileByte(fs', n, |q.buf| - |q.buf| % BLOCK_SIZE + j) == q.buf[..|q.buf| % BLOCK_SIZE][j]
    ensures q.buf[|q.buf| - |q.buf| % BLOCK_SIZE + j] == q.buf[|q.buf| - |q.buf| % BLOCK_SIZE..][j]
  {
    hide Content, FileByte, Stored;
    ByteAfterWrite(fs, fs', n, q, |q.buf| - |q.buf| % BLOCK_SIZE + j);
  }

  /** A write is right exactly when it is aligned; or it starts at 0 and the buffer happens to repeat its start in its
      last, partial block; or it is unaligned and the scratch block happens to hold the right bytes. */
  lemma WriteIsRightIff(fs: Fs, fs': Fs, n: Word, q: Request)
    requires q.Ok() && Stored(fs, fs', n, q) && q.offset + |q.buf| <= MAX_IBLOCKS * BLOCK_SIZE
    ensures WritesRight(fs, fs', n, q) <==>
      || Aligned(q.offset, |q.buf|)
      || (q.offset % BLOCK_SIZE == 0 && q.buf[|q.buf| - |q.buf| % BLOCK_SIZE..] == q.buf[..|q.buf| % BLOCK_SIZE])
      || (q.offset % BLOCK_SIZE != 0 && ScratchIsRight(fs, n, q))
  {
    hide Content, FileByte, Stored;
    if Aligned(q.offset, |q.buf|) {
      AlignedWriteIsRight(fs, fs', n, q);
    } else if q.offset % BLOCK_SIZE != 0 {
      UnalignedWrite(fs, fs', n, q);
    } else {
      TailWrite(fs, fs', n, q);
    }
  }

  lemma UnalignedWrite(fs: Fs, fs': Fs, n: Word, q: Request)
    requires q.Ok() && Stored(fs, fs', n, q) && q.offset + |q.buf| <= MAX_IBLOCKS * BLOCK_SIZE
    requires q.offset % BLOCK_SIZE != 0
    ensures WritesRight(fs, fs', n, q) <==> ScratchIsRight(fs, n, q)
  {
    hide Content, FileByte, Stored, Unpack;
    forall x: nat | x < MAX_IBLOCKS * BLOCK_SIZE
      ensures FileByte(fs', n, x) ==
        if x / BLOCK_SIZE == q.First() then BlockBytes(q.scratch)[x % BLOCK_SIZE]
        else if q.Holds(x) then q.buf[x - q.offset] else FileByte(fs, n, x) {
      ByteAfterWrite(fs, fs', n, q, x);
    }
  }

  lemma TailWrite(fs: Fs, fs': Fs, n: Word, q: Request)
    requires q.Ok() && Stored(fs, fs', n, q) && q.offset + |q.buf| <= MAX_IBLOCKS * BLOCK_SIZE
    requires q.offset % BLOCK_SIZE == 0 && !Aligned(q.offset, |q.buf|)
    ensures WritesRight(fs, fs', n, q) <==>
      q.buf[|q.buf| - |q.buf| % BLOCK_SIZE..] == q.buf[..|q.buf| % BLOCK_SIZE]
  {
    hide Content, FileByte, Stored;
    var head, tail := |q.buf| - |q.buf| % BLOCK_SIZE, |q.buf| % BLOCK_SIZE;
    if q.buf[head..] == q.buf[..tail] {
      forall x: nat | x < MAX_IBLOCKS * BLOCK_SIZE
        ensures FileByte(fs', n, x) == if q.Holds(x) then q.buf[x - q.offset] else FileByte(fs, n, x) {
        ByteAfterWrite(fs, fs', n, q, x);
        if head <= x < |q.buf| {
          TailByte(fs, fs', n, q, x - head);
        }
      }
    } else {
      var j :| 0 <= j < tail && q.buf[head..][j] != q.buf[..tail][j];
      TailByte(fs, fs', n, q, j);
      var x: nat := head + j;
      assert FileByte(fs', n, x) != q.buf[x - q.offset];
    }
  }

  /** The bytes a write leaves are those of the buffer in the range, and what they were elsewhere. */
  ghost predicate RightBytes(fs: Fs, n: Word, q: Request)
    requires q.Ok()
  {
    forall x: nat :: x < MAX_IBLOCKS * BLOCK_SIZE ==>
      WrittenByte(fs, n, q, x) == if q.Holds(x) then q.buf[x - q.offset] else FileByte(fs, n, x)
  }

  /** WritesRight of any file system that holds the result. */
  lemma WritesRightBytes(fs: Fs, fs': Fs, n: Word, q: Request)
    requires q.Ok() && Stored(fs, fs', n, q)
    ensures WritesRight(fs, fs', n, q) <==> RightBytes(fs, n, q)
  {
    hide FileByte, WrittenByte, Stored;
    forall x: nat | x < MAX_IBLOCKS * BLOCK_SIZE ensures FileByte(fs', n, x) == WrittenByte(fs, n, q, x) {
      StoredBytes(fs, fs', n, q, x);
    }
  }

  /** Whatever the buffer and the uninitialised block hold, only aligned writes are right. */
  lemma WriteIsAlwaysRightIff(fs: Fs, n: Word, offset: nat, size: nat)
    requires size > 0 && InBuffer(offset, size) && offset + size <= MAX_IBLOCKS * BLOCK_SIZE
    ensures (forall q: Request :: q.Ok() && q.offset == offset && |q.buf| == size ==> RightBytes(fs, n, q))
      <==> Aligned(offset, size)
  {
    hide FileByte, WrittenByte, InBuffer;
    if Aligned(offset, size) {
      forall q: Request | q.Ok() && q.offset == offset && |q.buf| == size ensures RightBytes(fs, n, q) {
        forall x: nat | x < MAX_IBLOCKS * BLOCK_SIZE
          ensures WrittenByte(fs, n, q, x) == if q.Holds(x) then q.buf[x - q.offset] else FileByte(fs, n, x) {
          WrittenByteIs(fs, n, q, x);
        }
      }
    } else {
      var q, x := UnluckyRequest(fs, n, offset, size);
      assert !RightBytes(fs, n, q);
    }
  }

  /** Ones in the first block of the buffer and zeros after it, or ones in the scratch block and zeros in the buffer. */
  lemma UnluckyRequest(fs: Fs, n: Word, offset: nat, size: nat) returns (q: Request, x: nat)
    requires size > 0 && InBuffer(offset, size) && offset + size <= MAX_IBLOCKS * BLOCK_SIZE && !Aligned(offset, size)
    ensures q.Ok() && q.offset == offset && |q.buf| == size
    ensures x < MAX_IBLOCKS * BLOCK_SIZE && q.Holds(x) && WrittenByte(fs, n, q, x) != q.buf[x - offset]
  {
    hide FileByte, WrittenByte, Pack, Unpack;
    var ones: seq<Byte> := seq(BLOCK_SIZE, _ => 1);
    UnpackPack(ones);
    if offset % BLOCK_SIZE != 0 {
      q, x := Request(seq(size, _ => 0), offset, BlockOf(ones)), offset;
    } else {
      q := Request(seq(size, p => if p < BLOCK_SIZE then 1 else 0), offset, ZERO_BLOCK);
      x := size - size % BLOCK_SIZE;
    }
    WrittenByteIs(fs, n, q, x);
  }

  /** A completed run over the blocks of BlocksFrom stores the write. */
  lemma RunStores(fs: Fs, fs1: Fs, ino: Inode, q: Request, w: Written)
    requires q.Ok() && Live(fs1, ino.inumber) && w.ok && q.First() <= q.Last()
    requires forall k: nat :: k < MAX_IBLOCKS ==> Content(fs1, ino.inumber, k) == Content(fs, ino.inumber, k)
    requires RunEffect(fs1, ino, q.First(), BlocksFrom(fs, ino.inumber, q, q.First()), w)
    ensures Stored(fs, w.fs, ino.inumber, q)
    ensures q.offset + |q.buf| <= MAX_IBLOCKS * BLOCK_SIZE
  {
    hide DiskInv, Content, BlockToWrite, Agrees;
    var n := ino.inumber;
    SlicesTileTheRange(q.offset, |q.buf|, 0, q.Last());
    forall k: nat | k < MAX_IBLOCKS
      ensures Content(w.fs, n, k) == if q.Touches(k) then BlockToWrite(fs, n, q, k) else Content(fs, n, k) {
      if q.Touches(k) {
        BlocksFromAt(fs, n, q, q.First(), k);
      }
    }
  }

  // ---------------------------------------------------------------- reading

  /** Byte p of the caller's buffer after sfs_read has done the blocks before i. The first block of an unaligned
      request is not copied; the partial last block of an aligned one lands on the start of the buffer. */
  function AfterRead(fs: Fs, n: Word, was: seq<Byte>, offset: nat, i: int, p: nat): Byte
    requires p < |was|
  {
    var first, last := FirstBlock(offset), LastBlock(offset, |was|);
    if offset % BLOCK_SIZE != 0 then
      if BLOCK_SIZE * (first + 1) <= offset + p < BLOCK_SIZE * i then FileByte(fs, n, offset + p) else was[p]
    else if i > last && !Aligned(offset, |was|) && p < |was| % BLOCK_SIZE && last >= 0 then
      FileByte(fs, n, BLOCK_SIZE * last + p)
    else if p < BLOCK_SIZE * (i - first) && (Aligned(offset, |was|) || p < BLOCK_SIZE * last) then
      FileByte(fs, n, offset + p)
    else was[p]
  }

  ghost predicate ReadUpTo(fs: Fs, n: Word, was: seq<Byte>, now: seq<Byte>, offset: nat, i: int) {
    |now| == |was| && forall p :: 0 <= p < |was| ==> now[p] == AfterRead(fs, n, was, offset, i, p)
  }

  /** The buffer after the whole of a successful read. */
  ghost predicate ReadInto(fs: Fs, n: Word, was: seq<Byte>, now: seq<Byte>, offset: nat) {
    ReadUpTo(fs, n, was, now, offset, LastBlock(offset, |was|) + 1)
  }

  lemma ByteOfBlock(fs: Fs, n: Word, i: nat, j: nat)
    requires j < BLOCK_SIZE
    ensures FileByte(fs, n, BLOCK_SIZE * i + j) == BlockBytes(Content(fs, n, i))[j]
  {
    hide Content, BlockBytes;
    var x := BLOCK_SIZE * i + j;
    assert x / BLOCK_SIZE == i && x % BLOCK_SIZE == j;
  }

  /** Copying the slice of block i, if it is copied, to the position the code uses takes the buffer one block on. */
  lemma ReadOneBlock(fs: Fs, n: Word, was: seq<Byte>, now: seq<Byte>, next: seq<Byte>, offset: nat, i: nat)
    requires |was| > 0 && InBuffer(offset, |was|) && Covers(offset, |was|, i)
    requires ReadUpTo(fs, n, was, now, offset, i) && |next| == |was|
    requires var pos, b := CodePosition(offset, |was|, i), SliceB(offset, |was|, i);
      if CopyKind(offset, |was|, i) == Nothing then next == now
      else forall p :: 0 <= p < |was| ==>
        next[p] == if pos <= p < pos + b then BlockBytes(Content(fs, n, i))[p - pos] else now[p]
    ensures ReadUpTo(fs, n, was, next, offset, i + 1)
  {
    hide Content, FileByte, BlockBytes;
    SlicesTileTheRange(offset, |was|, offset, i);
    PieceInBuffer(offset, |was|, i);
    CopiesRightIff(offset, |was|);
    var pos, b := CodePosition(offset, |was|, i), SliceB(offset, |was|, i);
    forall p | 0 <= p < |was| ensures next[p] == AfterRead(fs, n, was, offset, i + 1, p) {
      if CopyKind(offset, |was|, i) != Nothing && pos <= p < pos + b {
        ByteOfBlock(fs, n, i, p - pos);
      }
    }
  }

  /** The buffer holds the bytes of the range. */
  ghost predicate ReadsRight(fs: Fs, n: Word, now: seq<Byte>, offset: nat) {
    forall p :: 0 <= p < |now| ==> now[p] == FileByte(fs, n, offset + p)
  }

  /** On the aligned domain a read is right. */
  lemma AlignedReadIsRight(fs: Fs, n: Word, was: seq<Byte>, now: seq<Byte>, offset: nat)
    requires |was| > 0 && Aligned(offset, |was|) && ReadInto(fs, n, was, now, offset)
    ensures ReadsRight(fs, n, now, offset)
  {
    hide FileByte;
    SlicesTileTheRange(offset, |was|, offset, 0);
  }

  /** What makes a read right that is not aligned: the file repeats its start in the last, partial block and the
      buffer already held that block; or, on an unaligned request, the buffer already held the bytes of the first
      block. */
  ghost predicate ReadByLuck(fs: Fs, n: Word, was: seq<Byte>, offset: nat) {
    if offset % BLOCK_SIZE == 0 then
      var head := |was| - |was| % BLOCK_SIZE;
      forall p :: head <= p < |was| ==> was[p] == FileByte(fs, n, offset + p) == FileByte(fs, n, offset + p - head)
    else
      forall p :: 0 <= p < |was| && offset + p < BLOCK_SIZE * (FirstBlock(offset) + 1) ==>
        was[p] == FileByte(fs, n, offset + p)
  }

  /** A read is right exactly when it is aligned or lucky. */
  lemma ReadIsRightIff(fs: Fs, n: Word, was: seq<Byte>, now: seq<Byte>, offset: nat)
    requires |was| > 0 && InBuffer(offset, |was|) && ReadInto(fs, n, was, now, offset)
    ensures ReadsRight(fs, n, now, offset) <==> Aligned(offset, |was|) || ReadByLuck(fs, n, was, offset)
  {
    hide FileByte;
    if Aligned(offset, |was|) {
      AlignedReadIsRight(fs, n, was, now, offset);
    } else if offset % BLOCK_SIZE == 0 {
      TailRead(fs, n, was, now, offset);
    } else {
      UnalignedRead(fs, n, was, now, offset);
    }
  }

  lemma UnalignedRead(fs: Fs, n: Word, was: seq<Byte>, now: seq<Byte>, offset: nat)
    requires |was| > 0 && InBuffer(offset, |was|) && ReadInto(fs, n, was, now, offset) && offset % BLOCK_SIZE != 0
    ensures ReadsRight(fs, n, now, offset) <==> ReadByLuck(fs, n, was, offset)
  {
    hide FileByte;
    SlicesTileTheRange(offset, |was|, offset, LastBlock(offset, |was|));
    forall p | 0 <= p < |was|
      ensures now[p] == if offset + p < BLOCK_SIZE * (FirstBlock(offset) + 1) then was[p]
        else FileByte(fs, n, offset + p) {
      assert offset + p < BLOCK_SIZE * (LastBlock(offset, |was|) + 1);
    }
  }

  lemma TailRead(fs: Fs, n: Word, was: seq<Byte>, now: seq<Byte>, offset: nat)
    requires |was| > 0 && InBuffer(offset, |was|) && ReadInto(fs, n, was, now, offset)
    requires offset % BLOCK_SIZE == 0 && !Aligned(offset, |was|)
    ensures ReadsRight(fs, n, now, offset) <==> ReadByLuck(fs, n, was, offset)
  {
    hide FileByte;
    var tail := |was| % BLOCK_SIZE;
    var head := |was| - tail;
    assert offset == 0 && head == BLOCK_SIZE * LastBlock(offset, |was|) && head >= tail;
    forall p | 0 <= p < |was|
      ensures now[p] == if p < tail then FileByte(fs, n, head + p) else if p < head then FileByte(fs, n, p)
        else was[p] {
    }
    if ReadsRight(fs, n, now, offset) {
      forall p | head <= p < |was|
        ensures was[p] == FileByte(fs, n, offset + p) == FileByte(fs, n, offset + p - head) {
        assert now[p] == FileByte(fs, n, offset + p);
        assert now[p - head] == FileByte(fs, n, offset + (p - head));
      }
    } else if ReadByLuck(fs, n, was, offset) {
      forall p | 0 <= p < |was| ensures now[p] == FileByte(fs, n, offset + p) {
        assert p < tail ==> was[head + p] == FileByte(fs, n, head + p) == FileByte(fs, n, p);
      }
    }
  }

  /** So, whatever the buffer held before, only aligned reads are right. */
  lemma ReadIsAlwaysRightIff(fs: Fs, n: Word, offset: nat, size: nat)
    requires size > 0 && InBuffer(offset, size)
    ensures (forall was: seq<Byte>, now: seq<Byte> :: |was| == size && ReadInto(fs, n, was, now, offset) ==>
               ReadsRight(fs, n, now, offset))
      <==> Aligned(offset, size)
  {
    hide FileByte, ReadInto, ReadsRight, AfterRead;
    if Aligned(offset, size) {
      forall was: seq<Byte>, now: seq<Byte> | |was| == size && ReadInto(fs, n, was, now, offset)
        ensures ReadsRight(fs, n, now, offset) {
        AlignedReadIsRight(fs, n, was, now, offset);
      }
    } else {
      var was, now := UnluckyBuffer(fs, n, offset, size);
      ReadIsRightIff(fs, n, was, now, offset);
    }
  }

  lemma UnluckyBuffer(fs: Fs, n: Word, offset: nat, size: nat) returns (was: seq<Byte>, now: seq<Byte>)
    requires size > 0 && InBuffer(offset, size) && !Aligned(offset, size)
    ensures |was| == size && ReadInto(fs, n, was, now, offset) && !ReadByLuck(fs, n, was, offset)
  {
    hide FileByte;
    var tail := size % BLOCK_SIZE;
    var p := if offset % BLOCK_SIZE == 0 then size - tail else 0;
    var other: Byte := (FileByte(fs, n, offset + p) + 1) % 256;
    was := seq(size, _ => other);
    now := seq(size, q requires 0 <= q < size => AfterRead(fs, n, was, offset, LastBlock(offset, size) + 1, q));
    assert was[p] != FileByte(fs, n, offset + p);
  }
}
