/** Writing a run of consecutive file blocks, the loop of sfs_write (src/sfs.c:816-847). */
module Files {
  import opened Words
  import opened FreeList
  import opened Inodes

  /** Write blks at logical blocks i, i + 1, ... until one fails. */
  function WriteRun(fs: Fs, ino: Inode, i: nat, blks: seq<Block>): Written
    decreases blks
  {
    if blks == [] then Written(fs, ino, true)
    else
      var w := WriteBlock(fs, ino, i, blks[0]);
      if w.ok then WriteRun(w.fs, w.ino, i + 1, blks[1..]) else w
  }

  /** No write of the run trips over a stale indirect block. */
  predicate RunClean(fs: Fs, ino: Inode, i: nat, blks: seq<Block>)
    decreases blks
  {
    blks != [] ==>
      && Clean(fs, ino, i)
      && (var w := WriteBlock(fs, ino, i, blks[0]); w.ok ==> RunClean(w.fs, w.ino, i + 1, blks[1..]))
  }

  /** The effect of a run of writes on the whole file system. */
  ghost predicate RunEffect(fs: Fs, ino: Inode, i: nat, blks: seq<Block>, w: Written) {
    && DiskInv(w.fs) && Agrees(w.fs, w.ino)
    && w.fs.tb == fs.tb && w.fs.ihead == fs.ihead && w.fs.ilist == fs.ilist
    && w.ino == ino.(ptrs := w.ino.ptrs)
    && Conserves(fs, w.fs)
    && (forall m: Word :: m != ino.inumber ==> Ino(w.fs, m) == Ino(fs, m))
    && (forall m: Word, k: nat :: Live(fs, m) && k < MAX_IBLOCKS && (m != ino.inumber || k < i || i + |blks| <= k) ==>
          Content(w.fs, m, k) == Content(fs, m, k))
    && (w.ok ==> i + |blks| <= MAX_IBLOCKS || blks == [])
    && (forall k: nat :: w.ok && i <= k < i + |blks| ==> Content(w.fs, ino.inumber, k) == blks[k - i])
  }

  lemma RunStep(fs: Fs, ino: Inode, i: nat, blks: seq<Block>, first: Written, w: Written)
    requires Agrees(fs, ino) && blks != []
    requires WriteEffect(fs, ino, i, blks[0], first) && first.ok && i < MAX_IBLOCKS
    requires RunEffect(first.fs, first.ino, i + 1, blks[1..], w)
    ensures RunEffect(fs, ino, i, blks, w)
  {
    hide DiskInv, Content, Conserves;
    ConservesChain(fs, first.fs, w.fs);
    forall m: Word, k: nat | Live(fs, m) && k < MAX_IBLOCKS && (m != ino.inumber || k < i || i + |blks| <= k)
      ensures Content(w.fs, m, k) == Content(fs, m, k) {
      assert Live(first.fs, m);
      assert Content(first.fs, m, k) == Content(fs, m, k);
    }
    forall k: nat | w.ok && i <= k < i + |blks|
      ensures Content(w.fs, ino.inumber, k) == blks[k - i] {
      assert Live(first.fs, ino.inumber);
      if k == i {
        assert Content(first.fs, ino.inumber, k) == blks[0];
      } else {
        assert blks[1..][k - (i + 1)] == blks[k - i];
      }
    }
  }

  /** A run of writes, whatever the data, changes the contents of the blocks it covers and of no other block
      of any file; on success each covered block holds its data. */
  lemma {:induction false} WriteRunEffect(fs: Fs, ino: Inode, i: nat, blks: seq<Block>)
    requires DiskInv(fs) && Agrees(fs, ino) && RunClean(fs, ino, i, blks)
    ensures RunEffect(fs, ino, i, blks, WriteRun(fs, ino, i, blks))
    decreases blks
  {
    hide StoreOk, Owned, TableOk, Content, Target, WriteBlock, Free;
    if blks != [] {
      var w := WriteBlock(fs, ino, i, blks[0]);
      WriteBlockRefinesMap(fs, ino, i, blks[0], w);
      if w.ok {
        WriteRunEffect(w.fs, w.ino, i + 1, blks[1..]);
        RunStep(fs, ino, i, blks, w, WriteRun(fs, ino, i, blks));
      }
    }
  }

  // ---------------------------------------------------------------- when a run succeeds

  /** Holes of the file among the count blocks from i on. */
  function Holes(fs: Fs, n: Word, i: nat, count: nat): nat
    decreases count
  {
    if count == 0 then 0 else (if Hole(fs, n, i) then 1 else 0) + Holes(fs, n, i + 1, count - 1)
  }

  /** Blocks a run over the count blocks from i on has to allocate: one for each hole, and the indirect block if there
      is none yet and the run needs it. */
  function RunNeeds(fs: Fs, ino: Inode, i: nat, count: nat): nat {
    Holes(fs, ino.inumber, i, count) + if ino.ptrs[IND] == 0 && i + count > NDIR && count > 0 then 1 else 0
  }

  lemma {:induction false} SameHoles(fs: Fs, fs': Fs, n: Word, i: nat, count: nat)
    requires i + count <= MAX_IBLOCKS
    requires forall k: nat :: i <= k < i + count ==> (Hole(fs', n, k) <==> Hole(fs, n, k))
    ensures Holes(fs', n, i, count) == Holes(fs, n, i, count)
    decreases count
  {
    hide Hole;
    if count > 0 {
      SameHoles(fs, fs', n, i + 1, count - 1);
    }
  }

  lemma HoleNeeds(fs: Fs, ino: Inode, i: nat)
    requires Agrees(fs, ino) && i < MAX_IBLOCKS
    ensures Needed(fs, ino, i) ==
      (if Hole(fs, ino.inumber, i) then 1 else 0) + if i >= NDIR && ino.ptrs[IND] == 0 then 1 else 0
  {
  }

  /** What the first write of a run takes, and what is then left to take. */
  lemma FirstNeeds(fs: Fs, ino: Inode, i: nat, blk: Block, count: nat, w: Written)
    requires DiskInv(fs) && Agrees(fs, ino) && Clean(fs, ino, i) && i < MAX_IBLOCKS
    requires w == WriteBlock(fs, ino, i, blk) && i + 1 + count <= MAX_IBLOCKS
    ensures w.ok <==> Needed(fs, ino, i) <= |Free(fs.store)|
    ensures Needed(fs, ino, i) == RunNeeds(fs, ino, i, 1) <= RunNeeds(fs, ino, i, 1 + count)
    ensures w.ok ==> |Free(w.fs.store)| + Needed(fs, ino, i) == |Free(fs.store)|
    ensures w.ok ==> RunNeeds(fs, ino, i, 1 + count) == Needed(fs, ino, i) + RunNeeds(w.fs, w.ino, i + 1, count)
  {
    hide DiskInv, TableOk, Target, WriteBlock, Free, Hole, Needed, Clean, WriteEffect, Agrees;
    WriteBlockRefinesMap(fs, ino, i, blk, w);
    HoleNeeds(fs, ino, i);
    assert Holes(fs, ino.inumber, i, 1) == if Hole(fs, ino.inumber, i) then 1 else 0;
    if w.ok {
      WriteAllocates(fs, ino, i, blk, w);
      SameHoles(fs, w.fs, ino.inumber, i + 1, count);
    }
  }

  /** A run of writes succeeds exactly when it stays within the addressable blocks and as many blocks are free as it
      has to allocate. */
  lemma {:induction false} WriteRunOkIff(fs: Fs, ino: Inode, i: nat, blks: seq<Block>)
    requires DiskInv(fs) && Agrees(fs, ino) && RunClean(fs, ino, i, blks) && blks != []
    ensures WriteRun(fs, ino, i, blks).ok <==>
      i + |blks| <= MAX_IBLOCKS && RunNeeds(fs, ino, i, |blks|) <= |Free(fs.store)|
    decreases blks
  {
    hide StoreOk, Owned, TableOk, Target, WriteBlock, Free, Needed, Clean, RunNeeds;
    var w, rest := WriteBlock(fs, ino, i, blks[0]), blks[1..];
    WriteBlockRefinesMap(fs, ino, i, blks[0], w);
    if i + |blks| <= MAX_IBLOCKS {
      FirstNeeds(fs, ino, i, blks[0], |rest|, w);
    }
    if w.ok && rest != [] {
      WriteRunOkIff(w.fs, w.ino, i + 1, rest);
    }
  }

  /** A run that fails has written what came before: block k holds its data exactly if the free blocks last to k. */
  lemma {:induction false} WriteRunPrefix(fs: Fs, ino: Inode, i: nat, blks: seq<Block>, k: nat)
    requires DiskInv(fs) && Agrees(fs, ino) && RunClean(fs, ino, i, blks) && i <= k < i + |blks| && k < MAX_IBLOCKS
    ensures Content(WriteRun(fs, ino, i, blks).fs, ino.inumber, k) ==
      if RunNeeds(fs, ino, i, k - i + 1) <= |Free(fs.store)| then blks[k - i] else Content(fs, ino.inumber, k)
    decreases blks
  {
    hide StoreOk, Owned, TableOk, Content, Target, WriteBlock, Free, Needed, Clean, RunNeeds;
    var w, rest := WriteBlock(fs, ino, i, blks[0]), blks[1..];
    WriteBlockRefinesMap(fs, ino, i, blks[0], w);
    FirstNeeds(fs, ino, i, blks[0], k - i, w);
    if w.ok && k == i {
      WriteRunEffect(w.fs, w.ino, i + 1, rest);
    } else if w.ok {
      WriteRunPrefix(w.fs, w.ino, i + 1, rest, k);
    }
  }
}
