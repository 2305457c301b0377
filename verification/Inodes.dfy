/** The inode table, the inode free list and the mapping from a file's logical blocks to disk blocks,
    as values (src/fs.c:251-554, src/fs.h:44-76). */
module Inodes {
  import opened Words
  import opened FreeList

  const NDIR := 12
  const IND := 12
  const NIND := BLOCK_WORDS
  const N_BLOCKS := 14
  const MAX_IBLOCKS := NDIR + NIND
  const INODES_PER_BLOCK := 3

  type Ptrs = p: seq<Word> | |p| == N_BLOCKS witness Zeros(N_BLOCKS)

  datatype Inode = Inode(inumber: Word, links: nat, size: Word, ptrs: Ptrs)

  const NO_PTRS: Ptrs := Zeros(N_BLOCKS)
  const NULL_INODE := Inode(0, 0, 0, NO_PTRS)

  /** links is a 32-bit counter. */
  const LINK_MOD := 0x1_0000_0000

  function Inc(ino: Inode): Inode { ino.(links := (ino.links + 1) % LINK_MOD) }

  function Dec(ino: Inode): Inode { ino.(links := if ino.links == 0 then LINK_MOD - 1 else ino.links - 1) }

  function SetPtr(ino: Inode, i: nat, b: Word): Inode
    requires i < N_BLOCKS
  {
    ino.(ptrs := ino.ptrs[i := b])
  }

  const INODE_WORDS := 21

  type InodeBlock = s: seq<Inode> | |s| == INODES_PER_BLOCK witness seq(INODES_PER_BLOCK, i => NULL_INODE)

  /** Inode j of a block of words: struct sfs_fs_inode is 168 bytes, links being the high half of word 2. */
  function AsInode(b: Block, j: nat): Inode
    requires j < INODES_PER_BLOCK
  {
    var at := INODE_WORDS * j;
    Inode(b[at], b[at + 2] / 0x1_0000_0000, b[at + 6], b[at + 7..at + INODE_WORDS])
  }

  /** A block of words read as inodes. */
  function AsInodes(b: Block): InodeBlock {
    [AsInode(b, 0), AsInode(b, 1), AsInode(b, 2)]
  }

  lemma ZeroInode(j: nat)
    requires j < INODES_PER_BLOCK
    ensures AsInode(ZERO_BLOCK, j) == NULL_INODE
  {
    var b, at: nat := ZERO_BLOCK, INODE_WORDS * j;
    assert b[at] == 0 && b[at + 2] == 0 && b[at + 6] == 0;
    assert b[at + 7..at + INODE_WORDS] == NO_PTRS;
  }

  lemma ZeroInodes()
    ensures forall j :: 0 <= j < INODES_PER_BLOCK ==> AsInodes(ZERO_BLOCK)[j] == NULL_INODE
  {
    hide AsInode;
    ZeroInode(0);
    ZeroInode(1);
    ZeroInode(2);
  }

  /** The mounted file system: tb inode-table blocks, the data blocks with their free list, the head of the
      inode free list with the inodes on it in order, and the inodes seen through the cache.
      inodes also holds the three slots of the unused block after the table (src/fs.c:82). */
  datatype Fs = Fs(tb: nat, store: Store, ihead: Word, ilist: seq<Word>, inodes: seq<Inode>)

  /** First data block; block tb + 1 belongs neither to the table nor to the pool. */
  function Lo(fs: Fs): nat { fs.tb + 2 }

  function Count(fs: Fs): nat { INODES_PER_BLOCK * fs.tb }

  predicate Live(fs: Fs, n: Word) {
    1 <= n <= Count(fs) && n !in fs.ilist
  }

  function Ino(fs: Fs, n: Word): Inode {
    if 1 <= n <= |fs.inodes| then fs.inodes[n - 1] else NULL_INODE
  }

  /** sfs_fs_write_inode. */
  function SetIno(fs: Fs, ino: Inode): Fs {
    if 1 <= ino.inumber <= |fs.inodes| then fs.(inodes := fs.inodes[ino.inumber - 1 := ino]) else fs
  }

  /** The free inodes: each hides the next one's number in its size; the list ends at 0 or, as formatted,
      at the inode number just past the table. */
  predicate InodesLinked(inodes: seq<Inode>, count: nat, ihead: Word, ilist: seq<Word>)
    requires count <= |inodes|
    decreases ilist
  {
    if ilist == [] then ihead == 0 || ihead == count + 1
    else
      && ihead == ilist[0]
      && 2 <= ihead <= count
      && ihead !in ilist[1..]
      && InodesLinked(inodes, count, inodes[ihead - 1].size, ilist[1..])
  }

  /** Block numbers of inode blocks pass through a C int (src/fs.c:21). */
  const INT_LIMIT := 0x8000_0000

  predicate TableOk(fs: Fs) {
    && 1 <= fs.tb && fs.tb + 1 < INT_LIMIT
    && |fs.inodes| == Count(fs) + INODES_PER_BLOCK
    && InodesLinked(fs.inodes, Count(fs), fs.ihead, fs.ilist)
    && (forall k :: 0 <= k < Count(fs) ==> fs.inodes[k].inumber == k + 1)
  }

  /** The inode just past the table: the first of the unused block, whatever that block holds. */
  function PastEnd(fs: Fs): Inode {
    if Count(fs) < |fs.inodes| then fs.inodes[Count(fs)] else NULL_INODE
  }

  /** Its size, taken for the next inode of the free list, ends the list or leads back to it. */
  predicate EndsList(fs: Fs) {
    PastEnd(fs).size == 0 || PastEnd(fs).size == Count(fs) + 1
  }

  // ---------------------------------------------------------------- ownership

  /** A place that may hold a block number: pointer i of inode n (pointer 12 is the indirect block),
      or word j of inode n's indirect block. */
  datatype Ref = Direct(n: Word, i: nat) | IndSlot(n: Word, j: nat)

  function Target(fs: Fs, r: Ref): Word {
    if !Live(fs, r.n) then 0
    else match r
      case Direct(n, i) => if i <= IND then Ino(fs, n).ptrs[i] else 0
      case IndSlot(n, j) =>
        if j < NIND && Ino(fs, n).ptrs[IND] != 0 then Get(fs.store.blocks, Ino(fs, n).ptrs[IND])[j] else 0
  }

  /** Every block a live inode points to, directly or through its indirect block, is a data block, is not
      free, and is pointed to from one place only. */
  ghost predicate Owned(fs: Fs) {
    && (forall r :: Target(fs, r) != 0 ==>
      Lo(fs) <= Target(fs, r) < |fs.store.blocks| && Target(fs, r) !in Free(fs.store))
    && (forall r, q :: Target(fs, r) != 0 && Target(fs, r) == Target(fs, q) ==> r == q)
  }

  ghost predicate DiskInv(fs: Fs) {
    TableOk(fs) && StoreOk(fs.store, Lo(fs)) && Owned(fs)
  }

  /** Block x is free or some live inode leads to it: it is not lost. */
  ghost predicate Accounted(fs: Fs, x: Word) {
    x in Free(fs.store) || exists r :: Target(fs, r) == x
  }

  /** No block is lost and none comes from nowhere. */
  ghost predicate Conserves(fs: Fs, fs': Fs) {
    forall x: Word :: x != 0 ==> (Accounted(fs, x) <==> Accounted(fs', x))
  }

  /** The place where the number of the data block of logical block i of inode n is kept. */
  function Leaf(n: Word, i: nat): Ref {
    if i < NDIR then Direct(n, i) else IndSlot(n, i - NDIR)
  }

  predicate IsLeaf(r: Ref) { r.Direct? ==> r.i < NDIR }

  /** Logical block i of inode n; a hole reads as zeros. */
  function Content(fs: Fs, n: Word, i: nat): Block {
    var p := Target(fs, Leaf(n, i));
    if p == 0 then ZERO_BLOCK else Get(fs.store.blocks, p)
  }

  // ---------------------------------------------------------------- operations

  datatype Option<+T> = None | Some(value: T)

  /** sfs_fs_inode_block_read: None stands for the error return. */
  function ReadBlock(fs: Fs, ino: Inode, i: nat): Option<Block> {
    if i >= MAX_IBLOCKS || (i >= NDIR && ino.ptrs[IND] != 0 && ino.ptrs[IND] >= |fs.store.blocks|) then None
    else
      var p := if i < NDIR then ino.ptrs[i]
               else if ino.ptrs[IND] == 0 then 0
               else fs.store.blocks[ino.ptrs[IND]][i - NDIR];
      if p == 0 then Some(ZERO_BLOCK)
      else if fs.tb + 1 <= p < |fs.store.blocks| then Some(fs.store.blocks[p])
      else None
  }

  /** The file system, the caller's copy of the inode, and whether the write succeeded. */
  datatype Written = Written(fs: Fs, ino: Inode, ok: bool)

  /** Write block p. The guard of the callers lets the unused block after the table through (src/fs.c:82, 536),
      and the words written there are then read as the inodes past the table. */
  function PutBlock(fs: Fs, p: Word, blk: Block): Fs {
    fs.(store := fs.store.(blocks := Put(fs.store.blocks, p, blk)),
        inodes := if p == fs.tb + 1 && |fs.inodes| == Count(fs) + INODES_PER_BLOCK
                  then fs.inodes[..Count(fs)] + AsInodes(blk) else fs.inodes)
  }

  /** The last step of sfs_fs_inode_block_write: the range guard and the write (src/fs.c:536-553). */
  function StoreAt(fs: Fs, ino: Inode, p: Word, blk: Block): (w: Written)
    ensures |w.fs.inodes| == |fs.inodes|
  {
    if fs.tb + 1 <= p < |fs.store.blocks| then Written(PutBlock(fs, p, blk), ino, true)
    else Written(fs, ino, false)
  }

  /** Allocate a block and record it as pointer i of the inode (src/fs.c:502-512, 514-524). */
  function MapPointer(fs: Fs, ino: Inode, i: nat): Written
    requires i <= IND
  {
    var b := Next(fs.store);
    if b == 0 then Written(fs, ino, false)
    else
      var ino' := SetPtr(ino, i, b);
      Written(SetIno(fs.(store := Alloc(fs.store)), ino'), ino', true)
  }

  /** Allocate a block for an empty word of the indirect block (read_from_indirect, src/fs.c:430-438). */
  function MapSlot(fs: Fs, ino: Inode, j: nat): Written
    requires j < NIND
  {
    var b := Next(fs.store);
    if b == 0 then Written(fs, ino, false)
    else
      var arr := Get(fs.store.blocks, ino.ptrs[IND]);
      var st := Alloc(fs.store);
      Written(fs.(store := st.(blocks := Put(st.blocks, ino.ptrs[IND], SetWord(arr, j, b)))), ino, true)
  }

  /** Write word j of the indirect block's file block, allocating it when the word is 0. */
  function WriteSlot(fs: Fs, ino: Inode, j: nat, blk: Block): (w: Written)
    requires j < NIND
    ensures w.ino == ino && |w.fs.inodes| == |fs.inodes|
  {
    var p := Get(fs.store.blocks, ino.ptrs[IND])[j];
    if p != 0 then StoreAt(fs, ino, p, blk)
    else
      var m := MapSlot(fs, ino, j);
      if m.ok then StoreAt(m.fs, ino, Next(fs.store), blk) else m
  }

  /** sfs_fs_inode_block_write. */
  function WriteBlock(fs: Fs, ino: Inode, i: nat, blk: Block): (w: Written)
    ensures w.ok ==> i < MAX_IBLOCKS
    ensures |w.fs.inodes| == |fs.inodes| && w.ino == ino.(ptrs := w.ino.ptrs)
  {
    if i < NDIR then
      if ino.ptrs[i] != 0 then StoreAt(fs, ino, ino.ptrs[i], blk)
      else
        var m := MapPointer(fs, ino, i);
        if m.ok then StoreAt(m.fs, m.ino, m.ino.ptrs[i], blk) else m
    else if i < MAX_IBLOCKS then
      if ino.ptrs[IND] != 0 then WriteSlot(fs, ino, i - NDIR, blk)
      else
        var m := MapPointer(fs, ino, IND);
        if m.ok then WriteSlot(m.fs, m.ino, i - NDIR, blk) else m
    else Written(fs, ino, false)
  }

  /** The write would turn a free block into an indirect block. */
  predicate TakesIndirect(fs: Fs, ino: Inode, i: nat) {
    NDIR <= i < MAX_IBLOCKS && ino.ptrs[IND] == 0 && Next(fs.store) != 0
  }

  /** The code uses a fresh indirect block without clearing it, so its stale words become pointers.
      This is the condition under which they are harmless. */
  predicate Clean(fs: Fs, ino: Inode, i: nat) {
    TakesIndirect(fs, ino, i) ==> Get(fs.store.blocks, Next(fs.store)) == ZERO_BLOCK
  }

  /** Blocks a write has to allocate. */
  function Needed(fs: Fs, ino: Inode, i: nat): nat {
    if i < NDIR then (if ino.ptrs[i] == 0 then 1 else 0)
    else if ino.ptrs[IND] == 0 then 2
    else if i < MAX_IBLOCKS && Get(fs.store.blocks, ino.ptrs[IND])[i - NDIR] == 0 then 1 else 0
  }

  /** sfs_fs_inode_allocate: the head of the inode free list. */
  function TakeInode(fs: Fs): Fs {
    if fs.ihead == 0 then fs
    else fs.(ihead := Ino(fs, fs.ihead).size, ilist := if fs.ilist == [] then [] else fs.ilist[1..])
  }

  function FreeDirect(st: Store, ptrs: Ptrs, i: nat): Store
    requires i <= NDIR
    decreases NDIR - i
  {
    if i == NDIR then st
    else FreeDirect(if ptrs[i] != 0 then Release(st, ptrs[i]) else st, ptrs, i + 1)
  }

  /** The table's side of freeing an inode. */
  function Push(fs: Fs, ino: Inode): Fs {
    SetIno(fs, ino.(size := fs.ihead)).(ihead := ino.inumber, ilist := [ino.inumber] + fs.ilist)
  }

  /** sfs_fs_inode_deallocate: push the inode on the free list, then free its direct blocks. */
  function Deallocate(fs: Fs, ino: Inode): Fs {
    Push(fs, ino).(store := FreeDirect(fs.store, ino.ptrs, 0))
  }

  // ---------------------------------------------------------------- framing

  /** Writing a block that is not free leaves the free list alone. */
  lemma PutOutside(st: Store, lo: nat, x: Word, blk: Block)
    requires StoreOk(st, lo) && x !in Free(st)
    ensures var st' := st.(blocks := Put(st.blocks, x, blk)); StoreOk(st', lo) && Free(st') == Free(st)
  {
    NodesAreFree(st.blocks, st.chain);
    ListFrame(st.blocks, Put(st.blocks, x, blk), st.head, st.chain);
  }

  lemma {:induction false} InodeListFrame(inodes: seq<Inode>, inodes': seq<Inode>, count: nat, ihead: Word,
      ilist: seq<Word>)
    requires count <= |inodes| == |inodes'|
    requires InodesLinked(inodes, count, ihead, ilist)
    requires forall n :: n in ilist && 1 <= n <= count ==> inodes'[n - 1].size == inodes[n - 1].size
    ensures InodesLinked(inodes', count, ihead, ilist)
    decreases ilist
  {
    if ilist != [] {
      assert forall n :: n in ilist[1..] ==> n in ilist;
      assert ihead in ilist;
      InodeListFrame(inodes, inodes', count, inodes[ihead - 1].size, ilist[1..]);
    }
  }

  lemma {:induction false} FreeInodesInRange(inodes: seq<Inode>, count: nat, ihead: Word, ilist: seq<Word>)
    requires count <= |inodes| && InodesLinked(inodes, count, ihead, ilist)
    ensures forall n :: n in ilist ==> 2 <= n <= count
    ensures forall i, j :: 0 <= i < j < |ilist| ==> ilist[i] != ilist[j]
    decreases ilist
  {
    if ilist != [] {
      assert ilist == [ilist[0]] + ilist[1..];
      FreeInodesInRange(inodes, count, inodes[ihead - 1].size, ilist[1..]);
    }
  }

  /** Rewriting a live inode under its own number keeps the table well formed. */
  lemma SetLiveIno(fs: Fs, ino: Inode)
    requires TableOk(fs) && Live(fs, ino.inumber)
    ensures TableOk(SetIno(fs, ino))
    ensures forall m: Word :: m != ino.inumber ==> Ino(SetIno(fs, ino), m) == Ino(fs, m)
    ensures Ino(SetIno(fs, ino), ino.inumber) == ino
  {
    var fs' := SetIno(fs, ino);
    InodeListFrame(fs.inodes, fs'.inodes, Count(fs), fs.ihead, fs.ilist);
  }

  // ---------------------------------------------------------------- one new pointer

  /** fs' differs from fs in one pointer: r0, empty before, now holds the block b taken from the free set;
      the data of every file is where and what it was. */
  ghost predicate Maps(fs: Fs, fs': Fs, r0: Ref, b: Word) {
    && fs'.tb == fs.tb && fs'.ihead == fs.ihead && fs'.ilist == fs.ilist
    && |fs'.store.blocks| == |fs.store.blocks|
    && Target(fs, r0) == 0 && b in Free(fs.store)
    && Free(fs'.store) == Free(fs.store) - {b}
    && (forall r :: Target(fs', r) == if r == r0 then b else Target(fs, r))
    && (forall r :: IsLeaf(r) && Target(fs, r) != 0 ==>
          Get(fs'.store.blocks, Target(fs, r)) == Get(fs.store.blocks, Target(fs, r)))
  }

  lemma MapsKeepsOwned(fs: Fs, fs': Fs, r0: Ref, b: Word)
    requires StoreOk(fs.store, Lo(fs)) && Owned(fs) && Maps(fs, fs', r0, b)
    ensures Owned(fs')
  {
    forall r, q | Target(fs', r) != 0 && Target(fs', r) == Target(fs', q) ensures r == q {
      assert r != r0 ==> Target(fs', r) == Target(fs, r);
      assert q != r0 ==> Target(fs', q) == Target(fs, q);
    }
  }

  /** A block that is mapped stays accounted for. */
  lemma MapsConserves(fs: Fs, fs': Fs, r0: Ref, b: Word)
    requires Maps(fs, fs', r0, b)
    ensures Conserves(fs, fs')
  {
    hide Target, Free;
    forall x: Word | x != 0 ensures Accounted(fs, x) <==> Accounted(fs', x) {
      if x == b {
        assert Target(fs', r0) == x;
      } else {
        if r :| Target(fs, r) == x { assert Target(fs', r) == x; }
        if r :| Target(fs', r) == x { assert Target(fs, r) == x; }
      }
    }
  }

  lemma SameTargetsConserve(fs: Fs, fs': Fs)
    requires Free(fs'.store) == Free(fs.store) && forall r :: Target(fs', r) == Target(fs, r)
    ensures Conserves(fs, fs')
  {
    hide Target, Free;
    forall x: Word ensures Accounted(fs, x) <==> Accounted(fs', x) {
      if r :| Target(fs, r) == x { assert Target(fs', r) == x; }
      if r :| Target(fs', r) == x { assert Target(fs, r) == x; }
    }
  }

  lemma MapPointerMaps(fs: Fs, ino: Inode, i: nat)
    requires DiskInv(fs) && Live(fs, ino.inumber) && Ino(fs, ino.inumber) == ino
    requires i <= IND && ino.ptrs[i] == 0 && Next(fs.store) != 0
    requires i == IND ==> Get(fs.store.blocks, Next(fs.store)) == ZERO_BLOCK
    ensures var m := MapPointer(fs, ino, i);
      && m.ok && DiskInv(m.fs) && Maps(fs, m.fs, Direct(ino.inumber, i), Next(fs.store))
      && Ino(m.fs, ino.inumber) == m.ino
      && (forall k: Word :: k != ino.inumber ==> Ino(m.fs, k) == Ino(fs, k))
      && Get(m.fs.store.blocks, Next(fs.store)) == Get(fs.store.blocks, Next(fs.store))
  {
    hide StoreOk, Alloc, Next, InodesLinked, Free;
    var m := MapPointer(fs, ino, i);
    var n, b, fs' := ino.inumber, Next(fs.store), m.fs;
    AllocTakesOne(fs.store, Lo(fs));
    SetLiveIno(fs, m.ino);
    assert fs'.inodes == SetIno(fs, m.ino).inodes;
    forall r ensures Target(fs', r) == if r == Direct(n, i) then b else Target(fs, r) {
      if Live(fs, r.n) {
        var ind := Target(fs, Direct(r.n, IND));
        assert ind != 0 ==> ind !in Free(fs.store);
      }
    }
    MapsKeepsOwned(fs, fs', Direct(n, i), b);
  }

  /** The pointers after an empty word j of the indirect block took the number b: only that one changed. */
  lemma MapSlotTargets(fs: Fs, fs': Fs, n: Word, j: nat, b: Word)
    requires Owned(fs) && Live(fs, n) && j < NIND
    requires fs' == fs.(store := fs'.store) && |fs'.store.blocks| == |fs.store.blocks|
    requires var ind := Ino(fs, n).ptrs[IND];
      && ind != 0 && Get(fs.store.blocks, ind)[j] == 0
      && Get(fs'.store.blocks, ind) == SetWord(Get(fs.store.blocks, ind), j, b)
      && (forall x: Word :: x != ind && x < |fs.store.blocks| && x !in Free(fs.store) ==>
            Get(fs'.store.blocks, x) == Get(fs.store.blocks, x))
    ensures forall r :: Target(fs', r) == if r == IndSlot(n, j) then b else Target(fs, r)
    ensures forall r :: IsLeaf(r) && Target(fs, r) != 0 ==>
      Get(fs'.store.blocks, Target(fs, r)) == Get(fs.store.blocks, Target(fs, r))
  {
    hide Free;
    var ind := Ino(fs, n).ptrs[IND];
    assert Target(fs, Direct(n, IND)) == ind;
    forall r ensures Target(fs', r) == if r == IndSlot(n, j) then b else Target(fs, r) {
      if Live(fs, r.n) {
        var other := Target(fs, Direct(r.n, IND));
        assert r.n != n && other != 0 ==> other != ind;
      }
    }
    forall r | IsLeaf(r) && Target(fs, r) != 0
      ensures Get(fs'.store.blocks, Target(fs, r)) == Get(fs.store.blocks, Target(fs, r)) {
      assert r != Direct(n, IND);
    }
  }

  lemma MapSlotMaps(fs: Fs, ino: Inode, j: nat)
    requires DiskInv(fs) && Live(fs, ino.inumber) && Ino(fs, ino.inumber) == ino
    requires j < NIND && ino.ptrs[IND] != 0 && Get(fs.store.blocks, ino.ptrs[IND])[j] == 0 && Next(fs.store) != 0
    ensures var m := MapSlot(fs, ino, j);
      && m.ok && DiskInv(m.fs) && Maps(fs, m.fs, IndSlot(ino.inumber, j), Next(fs.store))
      && m.fs.inodes == fs.inodes
  {
    hide StoreOk, Alloc, Next, Free, InodesLinked;
    var m := MapSlot(fs, ino, j);
    var n, b, fs', ind := ino.inumber, Next(fs.store), m.fs, ino.ptrs[IND];
    AllocTakesOne(fs.store, Lo(fs));
    assert Target(fs, Direct(n, IND)) == ind;
    PutOutside(Alloc(fs.store), Lo(fs), ind, SetWord(Get(fs.store.blocks, ind), j, b));
    MapSlotTargets(fs, fs', n, j, b);
    MapsKeepsOwned(fs, fs', IndSlot(n, j), b);
  }

  // ---------------------------------------------------------------- writing a file block

  /** The write touched no other file block than block i of inode n, and that one only on success. */
  ghost predicate WritesOnly(fs: Fs, fs': Fs, n: Word, i: nat, blk: Block, ok: bool) {
    forall m: Word, k: nat {:trigger Content(fs', m, k)} :: Live(fs, m) && k < MAX_IBLOCKS ==>
      Content(fs', m, k) == if ok && m == n && k == i then blk else Content(fs, m, k)
  }

  lemma MapsKeepsContent(fs: Fs, fs': Fs, r0: Ref, b: Word, m: Word, k: nat)
    requires Maps(fs, fs', r0, b) && Leaf(m, k) != r0
    ensures Content(fs', m, k) == Content(fs, m, k)
  {
  }

  lemma StoreAtWrites(fs: Fs, ino: Inode, i: nat, blk: Block)
    requires DiskInv(fs) && i < MAX_IBLOCKS && Target(fs, Leaf(ino.inumber, i)) != 0
    ensures var p := Target(fs, Leaf(ino.inumber, i)); var w := StoreAt(fs, ino, p, blk);
      && w.ok && DiskInv(w.fs) && w.fs.inodes == fs.inodes && Free(w.fs.store) == Free(fs.store)
      && WritesOnly(fs, w.fs, ino.inumber, i, blk, true)
      && (forall r :: Target(w.fs, r) == Target(fs, r))
  {
    hide StoreOk, Free, InodesLinked;
    var leaf := Leaf(ino.inumber, i);
    var p := Target(fs, leaf);
    var w := StoreAt(fs, ino, p, blk);
    PutOutside(fs.store, Lo(fs), p, blk);
    assert w.fs.store == fs.store.(blocks := Put(fs.store.blocks, p, blk));
    forall r ensures Target(w.fs, r) == Target(fs, r) {
      if Live(fs, r.n) {
        var ind := Target(fs, Direct(r.n, IND));
        assert Direct(r.n, IND) != leaf;
        assert ind != 0 ==> ind != p;
      }
    }
    forall m: Word, k: nat | Live(fs, m) && k < MAX_IBLOCKS
      ensures Content(w.fs, m, k) == if m == ino.inumber && k == i then blk else Content(fs, m, k) {
      var q := Target(fs, Leaf(m, k));
      assert Leaf(m, k) == leaf ==> m == ino.inumber && k == i;
      assert q == p ==> Leaf(m, k) == leaf;
    }
  }

  /** Everything sfs_fs_inode_block_write promises about its result. */
  ghost predicate WriteEffect(fs: Fs, ino: Inode, i: nat, blk: Block, w: Written) {
    && DiskInv(w.fs)
    && w.fs.tb == fs.tb && w.fs.ihead == fs.ihead && w.fs.ilist == fs.ilist
    && |w.fs.store.blocks| == |fs.store.blocks|
    && w.ino == ino.(ptrs := w.ino.ptrs)
    && Ino(w.fs, ino.inumber) == w.ino
    && (forall m: Word :: m != ino.inumber ==> Ino(w.fs, m) == Ino(fs, m))
    && WritesOnly(fs, w.fs, ino.inumber, i, blk, w.ok)
    && Conserves(fs, w.fs)
  }

  /** Mapping a block for (n, i) and then storing into it writes (n, i) only. */
  lemma ComposeWrites(fs: Fs, mid: Fs, fs': Fs, r0: Ref, b: Word, n: Word, i: nat, blk: Block)
    requires Maps(fs, mid, r0, b) && r0 == Leaf(n, i) && i < MAX_IBLOCKS
    requires WritesOnly(mid, fs', n, i, blk, true)
    ensures WritesOnly(fs, fs', n, i, blk, true)
  {
    forall m: Word, k: nat | Live(fs, m) && k < MAX_IBLOCKS
      ensures Content(fs', m, k) == if m == n && k == i then blk else Content(fs, m, k) {
      if m != n || k != i {
        MapsKeepsContent(fs, mid, r0, b, m, k);
      }
      assert Live(mid, m);
    }
  }

  /** Taking a fresh indirect block and then writing a slot of it writes (n, i) only. */
  lemma ComposeIndirect(fs: Fs, mid: Fs, fs': Fs, b: Word, n: Word, i: nat, blk: Block, ok: bool)
    requires Maps(fs, mid, Direct(n, IND), b)
    requires WritesOnly(mid, fs', n, i, blk, ok)
    ensures WritesOnly(fs, fs', n, i, blk, ok)
  {
    forall m: Word, k: nat | Live(fs, m) && k < MAX_IBLOCKS
      ensures Content(fs', m, k) == if ok && m == n && k == i then blk else Content(fs, m, k) {
      MapsKeepsContent(fs, mid, Direct(n, IND), b, m, k);
      assert Live(mid, m);
    }
  }

  lemma NothingFree(fs: Fs)
    requires DiskInv(fs)
    ensures Next(fs.store) == 0 <==> |Free(fs.store)| == 0
    ensures |Free(Alloc(fs.store))| == if Next(fs.store) == 0 then 0 else |Free(fs.store)| - 1
  {
    AllocTakesOne(fs.store, Lo(fs));
  }

  predicate Agrees(fs: Fs, ino: Inode) {
    Live(fs, ino.inumber) && Ino(fs, ino.inumber) == ino
  }

  lemma FailedWrite(fs: Fs, ino: Inode, i: nat, blk: Block)
    requires DiskInv(fs) && Agrees(fs, ino)
    ensures WriteEffect(fs, ino, i, blk, Written(fs, ino, false))
  {
  }

  lemma Overwrite(fs: Fs, ino: Inode, i: nat, blk: Block, w: Written)
    requires DiskInv(fs) && Agrees(fs, ino) && i < MAX_IBLOCKS && Target(fs, Leaf(ino.inumber, i)) != 0
    requires w == StoreAt(fs, ino, Target(fs, Leaf(ino.inumber, i)), blk)
    ensures w.ok && WriteEffect(fs, ino, i, blk, w)
  {
    hide Target, Free;
    StoreAtWrites(fs, ino, i, blk);
    SameTargetsConserve(fs, w.fs);
  }

  /** A hole filled by mapping its leaf to b and then storing the data. */
  lemma FillHole(fs: Fs, ino: Inode, i: nat, blk: Block, b: Word, m: Written, w: Written)
    requires DiskInv(fs) && Agrees(fs, ino) && i < MAX_IBLOCKS
    requires DiskInv(m.fs) && Agrees(m.fs, m.ino) && m.ino == ino.(ptrs := m.ino.ptrs)
    requires Maps(fs, m.fs, Leaf(ino.inumber, i), b)
    requires forall k: Word :: k != ino.inumber ==> Ino(m.fs, k) == Ino(fs, k)
    requires w == StoreAt(m.fs, m.ino, b, blk)
    ensures w.ok && WriteEffect(fs, ino, i, blk, w)
  {
    hide Target, Free, Conserves;
    assert Target(m.fs, Leaf(ino.inumber, i)) == b;
    StoreAtWrites(m.fs, m.ino, i, blk);
    ComposeWrites(fs, m.fs, w.fs, Leaf(ino.inumber, i), b, ino.inumber, i, blk);
    MapsConserves(fs, m.fs, Leaf(ino.inumber, i), b);
    SameTargetsConserve(m.fs, w.fs);
    ConservesChain(fs, m.fs, w.fs);
  }

  lemma ConservesChain(a: Fs, b: Fs, c: Fs)
    requires Conserves(a, b)
    ensures Conserves(a, c) <==> Conserves(b, c)
  {
    hide Accounted;
  }

  /** A write below an indirect block that was itself just taken from the free set. */
  lemma BelowNewIndirect(fs: Fs, ino: Inode, i: nat, blk: Block, b: Word, m: Written, w: Written)
    requires DiskInv(fs) && Agrees(fs, ino) && Agrees(m.fs, m.ino) && m.ino == SetPtr(ino, IND, b)
    requires Maps(fs, m.fs, Direct(ino.inumber, IND), b)
    requires forall k: Word :: k != ino.inumber ==> Ino(m.fs, k) == Ino(fs, k)
    requires WriteEffect(m.fs, m.ino, i, blk, w) && w.ino.ptrs == m.ino.ptrs
    ensures WriteEffect(fs, ino, i, blk, w)
  {
    hide Target, Free, Conserves;
    ComposeIndirect(fs, m.fs, w.fs, b, ino.inumber, i, blk, w.ok);
    MapsConserves(fs, m.fs, Direct(ino.inumber, IND), b);
    ConservesChain(fs, m.fs, w.fs);
  }

  lemma FillSlotHole(fs: Fs, ino: Inode, j: nat, blk: Block, w: Written)
    requires DiskInv(fs) && Agrees(fs, ino) && j < NIND && ino.ptrs[IND] != 0
    requires Get(fs.store.blocks, ino.ptrs[IND])[j] == 0 && Next(fs.store) != 0
    requires w == StoreAt(MapSlot(fs, ino, j).fs, ino, Next(fs.store), blk)
    ensures w.ok && WriteEffect(fs, ino, NDIR + j, blk, w)
  {
    MapSlotMaps(fs, ino, j);
    FillHole(fs, ino, NDIR + j, blk, Next(fs.store), MapSlot(fs, ino, j), w);
  }

  lemma OverwriteSlot(fs: Fs, ino: Inode, j: nat, blk: Block, w: Written)
    requires DiskInv(fs) && Agrees(fs, ino) && j < NIND && ino.ptrs[IND] != 0
    requires Get(fs.store.blocks, ino.ptrs[IND])[j] != 0
    requires w == StoreAt(fs, ino, Get(fs.store.blocks, ino.ptrs[IND])[j], blk)
    ensures w.ok && WriteEffect(fs, ino, NDIR + j, blk, w)
  {
    assert Target(fs, Leaf(ino.inumber, NDIR + j)) == Get(fs.store.blocks, ino.ptrs[IND])[j];
    Overwrite(fs, ino, NDIR + j, blk, w);
  }

  lemma WriteSlotEffect(fs: Fs, ino: Inode, j: nat, blk: Block, w: Written)
    requires DiskInv(fs) && Agrees(fs, ino) && j < NIND && ino.ptrs[IND] != 0
    requires w == WriteSlot(fs, ino, j, blk)
    ensures WriteEffect(fs, ino, NDIR + j, blk, w)
    ensures w.ok <==> Needed(fs, ino, NDIR + j) <= |Free(fs.store)|
  {
    NothingFree(fs);
    if Get(fs.store.blocks, ino.ptrs[IND])[j] != 0 {
      OverwriteSlot(fs, ino, j, blk, w);
      return;
    } else if Next(fs.store) != 0 {
      FillSlotHole(fs, ino, j, blk, w);
      return;
    } else {
      FailedWrite(fs, ino, NDIR + j, blk);
    }
  }

  lemma WriteDirectEffect(fs: Fs, ino: Inode, i: nat, blk: Block, w: Written)
    requires DiskInv(fs) && Agrees(fs, ino) && i < NDIR
    requires w == WriteBlock(fs, ino, i, blk)
    ensures WriteEffect(fs, ino, i, blk, w)
    ensures w.ok <==> Needed(fs, ino, i) <= |Free(fs.store)|
  {
    NothingFree(fs);
    assert Target(fs, Leaf(ino.inumber, i)) == ino.ptrs[i];
    if ino.ptrs[i] != 0 {
      Overwrite(fs, ino, i, blk, w);
    } else if Next(fs.store) != 0 {
      MapPointerMaps(fs, ino, i);
      FillHole(fs, ino, i, blk, Next(fs.store), MapPointer(fs, ino, i), w);
    } else {
      FailedWrite(fs, ino, i, blk);
    }
  }

  /** MapPointerMaps for the indirect pointer: the new indirect block names nothing yet. */
  lemma NewIndirectMaps(fs: Fs, ino: Inode) returns (m: Written)
    requires DiskInv(fs) && Agrees(fs, ino) && ino.ptrs[IND] == 0
    requires Next(fs.store) != 0 && Get(fs.store.blocks, Next(fs.store)) == ZERO_BLOCK
    ensures m == MapPointer(fs, ino, IND) && m.ok && m.ino == SetPtr(ino, IND, Next(fs.store))
    ensures DiskInv(m.fs) && Agrees(m.fs, m.ino)
    ensures Maps(fs, m.fs, Direct(ino.inumber, IND), Next(fs.store))
    ensures forall k: Word :: k != ino.inumber ==> Ino(m.fs, k) == Ino(fs, k)
    ensures forall j :: 0 <= j < NIND ==> Get(m.fs.store.blocks, m.ino.ptrs[IND])[j] == 0
    ensures |Free(m.fs.store)| == |Free(fs.store)| - 1
  {
    m := MapPointer(fs, ino, IND);
    MapPointerMaps(fs, ino, IND);
  }

  lemma NewIndirectWrite(fs: Fs, ino: Inode, i: nat, blk: Block)
    requires TakesIndirect(fs, ino, i)
    ensures var m := MapPointer(fs, ino, IND); WriteBlock(fs, ino, i, blk) == WriteSlot(m.fs, m.ino, i - NDIR, blk)
  {
  }

  lemma NewIndirectEffect(fs: Fs, ino: Inode, i: nat, blk: Block, w: Written)
    requires DiskInv(fs) && Agrees(fs, ino) && TakesIndirect(fs, ino, i) && Clean(fs, ino, i)
    requires w == WriteBlock(fs, ino, i, blk)
    ensures WriteEffect(fs, ino, i, blk, w)
    ensures w.ok <==> 2 <= |Free(fs.store)|
  {
    hide StoreOk, Owned, TableOk, WriteEffect, Maps, DiskInv, Next, Free, WriteBlock, WriteSlot, MapPointer;
    NewIndirectWrite(fs, ino, i, blk);
    var m := NewIndirectMaps(fs, ino);
    WriteSlotEffect(m.fs, m.ino, i - NDIR, blk, w);
    BelowNewIndirect(fs, ino, i, blk, Next(fs.store), m, w);
  }

  /** File contents are a map from (inode, logical block) to blocks: a write through any of the direct,
      indirect and allocating paths changes that one entry and no other of any live inode, keeps every
      block owned once, and fails exactly when the index is past 75 or too few blocks are free. */
  lemma WriteBlockRefinesMap(fs: Fs, ino: Inode, i: nat, blk: Block, w: Written)
    requires DiskInv(fs) && Agrees(fs, ino) && Clean(fs, ino, i)
    requires w == WriteBlock(fs, ino, i, blk)
    ensures WriteEffect(fs, ino, i, blk, w)
    ensures w.ok <==> i < 76 && Needed(fs, ino, i) <= |Free(fs.store)|
  {
    hide DiskInv, WriteEffect, Free, Next, WriteSlot, StoreAt;
    if i < NDIR {
      WriteDirectEffect(fs, ino, i, blk, w);
    } else if i >= MAX_IBLOCKS {
      FailedWrite(fs, ino, i, blk);
    } else if ino.ptrs[IND] != 0 {
      WriteSlotEffect(fs, ino, i - NDIR, blk, w);
    } else if Next(fs.store) != 0 {
      NewIndirectEffect(fs, ino, i, blk, w);
    } else {
      NothingFree(fs);
      FailedWrite(fs, ino, i, blk);
    }
  }

  lemma PointerInRange(fs: Fs, ino: Inode)
    requires DiskInv(fs) && Agrees(fs, ino)
    ensures ino.ptrs[IND] != 0 ==> Lo(fs) <= ino.ptrs[IND] < |fs.store.blocks|
    ensures ino.ptrs[IND] < |fs.store.blocks|
  {
    assert Target(fs, Direct(ino.inumber, IND)) == ino.ptrs[IND];
  }

  /** No pointer of a live inode names the unused block after the table. */
  lemma LeafInRange(fs: Fs, ino: Inode, i: nat)
    requires DiskInv(fs) && Agrees(fs, ino) && i < MAX_IBLOCKS
    ensures i < NDIR ==> ino.ptrs[i] != fs.tb + 1
    ensures i >= NDIR && ino.ptrs[IND] != 0 ==> Get(fs.store.blocks, ino.ptrs[IND])[i - NDIR] != fs.tb + 1
  {
    assert Target(fs, Leaf(ino.inumber, i)) != fs.tb + 1;
  }

  /** What ReadBlock returns is the file's content: the range guard never fires. */
  lemma ReadBlockReadsContent(fs: Fs, ino: Inode, i: nat)
    requires DiskInv(fs) && Agrees(fs, ino)
    ensures ReadBlock(fs, ino, i) == if i < 76 then Some(Content(fs, ino.inumber, i)) else None
  {
    PointerInRange(fs, ino);
    if i < MAX_IBLOCKS {
      var p := Target(fs, Leaf(ino.inumber, i));
      assert p != 0 ==> Lo(fs) <= p < |fs.store.blocks|;
    }
  }

  /** The pointer to logical block i: pointer i, or word i - 12 of the block that pointer 12 names. */
  predicate PointsTo(fs: Fs, ino: Inode, i: nat, p: Word) {
    || (i < 12 && p == ino.ptrs[i])
    || (12 <= i < 76 && 0 < ino.ptrs[12] < |fs.store.blocks| && p == fs.store.blocks[ino.ptrs[12]][i - 12])
  }

  /** Whatever inode a caller hands in, reading and writing through a pointer succeed together, exactly if it is a block
      of the disk behind the inode table; a write that fails there changes nothing. */
  lemma GuardedIff(fs: Fs, ino: Inode, i: nat, p: Word, blk: Block)
    requires PointsTo(fs, ino, i, p) && p != 0
    ensures ReadBlock(fs, ino, i) != None <==> fs.tb + 1 <= p < |fs.store.blocks|
    ensures WriteBlock(fs, ino, i, blk).ok <==> fs.tb + 1 <= p < |fs.store.blocks|
    ensures !WriteBlock(fs, ino, i, blk).ok ==> WriteBlock(fs, ino, i, blk).fs == fs
    ensures WriteBlock(fs, ino, i, blk).ok ==> Get(WriteBlock(fs, ino, i, blk).fs.store.blocks, p) == blk
  {
  }

  // ---------------------------------------------------------------- how much a write allocates

  /** Logical block k of inode n has no block. */
  predicate Hole(fs: Fs, n: Word, k: nat) { Target(fs, Leaf(n, k)) == 0 }

  /** count blocks were allocated, and no hole of inode n was filled or made, except at i. */
  ghost predicate Allocates(fs: Fs, fs': Fs, n: Word, i: nat, count: nat) {
    && |Free(fs'.store)| + count == |Free(fs.store)|
    && (forall k: nat :: k < MAX_IBLOCKS && k != i ==> (Hole(fs', n, k) <==> Hole(fs, n, k)))
  }

  lemma OverwriteAllocates(fs: Fs, ino: Inode, i: nat, blk: Block)
    requires DiskInv(fs) && i < MAX_IBLOCKS && Target(fs, Leaf(ino.inumber, i)) != 0
    ensures Allocates(fs, StoreAt(fs, ino, Target(fs, Leaf(ino.inumber, i)), blk).fs, ino.inumber, i, 0)
  {
    hide Target, Free;
    StoreAtWrites(fs, ino, i, blk);
  }

  lemma FillAllocates(fs: Fs, ino: Inode, i: nat, blk: Block, b: Word, m: Written)
    requires DiskInv(m.fs) && i < MAX_IBLOCKS && m.ino.inumber == ino.inumber
    requires Maps(fs, m.fs, Leaf(ino.inumber, i), b) && b != 0
    ensures Allocates(fs, StoreAt(m.fs, m.ino, b, blk).fs, ino.inumber, i, 1)
  {
    hide Target, Free;
    assert Target(m.fs, Leaf(ino.inumber, i)) == b;
    OverwriteAllocates(m.fs, m.ino, i, blk);
  }

  lemma DirectAllocates(fs: Fs, ino: Inode, i: nat, blk: Block, w: Written)
    requires DiskInv(fs) && Agrees(fs, ino) && i < NDIR && w == WriteBlock(fs, ino, i, blk) && w.ok
    ensures Allocates(fs, w.fs, ino.inumber, i, Needed(fs, ino, i))
    ensures w.ino.ptrs[IND] == ino.ptrs[IND]
  {
    hide Free, StoreOk, TableOk, Maps, Allocates;
    assert Target(fs, Leaf(ino.inumber, i)) == ino.ptrs[i];
    if ino.ptrs[i] != 0 {
      OverwriteAllocates(fs, ino, i, blk);
    } else {
      MapPointerMaps(fs, ino, i);
      FillAllocates(fs, ino, i, blk, Next(fs.store), MapPointer(fs, ino, i));
    }
  }

  lemma SlotAllocates(fs: Fs, ino: Inode, j: nat, blk: Block, w: Written)
    requires DiskInv(fs) && Agrees(fs, ino) && j < NIND && ino.ptrs[IND] != 0
    requires w == WriteSlot(fs, ino, j, blk) && w.ok
    ensures Allocates(fs, w.fs, ino.inumber, NDIR + j, Needed(fs, ino, NDIR + j))
  {
    hide Free, StoreOk, TableOk, Maps, Allocates;
    assert Target(fs, Leaf(ino.inumber, NDIR + j)) == Get(fs.store.blocks, ino.ptrs[IND])[j];
    if Get(fs.store.blocks, ino.ptrs[IND])[j] != 0 {
      OverwriteAllocates(fs, ino, NDIR + j, blk);
    } else {
      MapSlotMaps(fs, ino, j);
      FillAllocates(fs, ino, NDIR + j, blk, Next(fs.store), MapSlot(fs, ino, j));
    }
  }

  lemma NewIndirectAllocates(fs: Fs, ino: Inode, i: nat, blk: Block, w: Written)
    requires DiskInv(fs) && Agrees(fs, ino) && TakesIndirect(fs, ino, i) && Clean(fs, ino, i)
    requires w == WriteBlock(fs, ino, i, blk) && w.ok
    ensures Allocates(fs, w.fs, ino.inumber, i, Needed(fs, ino, i)) && w.ino.ptrs[IND] != 0
  {
    hide StoreOk, Owned, TableOk, DiskInv, Next, Free, WriteBlock, WriteSlot, MapPointer;
    NewIndirectWrite(fs, ino, i, blk);
    var m := NewIndirectMaps(fs, ino);
    SlotAllocates(m.fs, m.ino, i - NDIR, blk, w);
    forall k: nat | k < MAX_IBLOCKS ensures Hole(m.fs, ino.inumber, k) <==> Hole(fs, ino.inumber, k) {
      assert Leaf(ino.inumber, k) != Direct(ino.inumber, IND);
    }
  }

  /** A write that succeeds allocates exactly the blocks it needs, and fills no other hole. */
  lemma WriteAllocates(fs: Fs, ino: Inode, i: nat, blk: Block, w: Written)
    requires DiskInv(fs) && Agrees(fs, ino) && Clean(fs, ino, i) && w == WriteBlock(fs, ino, i, blk) && w.ok
    ensures Allocates(fs, w.fs, ino.inumber, i, Needed(fs, ino, i))
    ensures w.ino.ptrs[IND] == 0 <==> ino.ptrs[IND] == 0 && i < NDIR
  {
    hide DiskInv, Free, Next, WriteSlot, StoreAt, Allocates;
    if i < NDIR {
      DirectAllocates(fs, ino, i, blk, w);
    } else if ino.ptrs[IND] != 0 {
      SlotAllocates(fs, ino, i - NDIR, blk, w);
    } else {
      NewIndirectAllocates(fs, ino, i, blk, w);
    }
  }

  // ---------------------------------------------------------------- the uncleared indirect block

  /** The words found in the new indirect block, apart from the one the write itself allocates there: the stale
      words of the block taken, or the data, when the stale word makes the data land in the indirect block. */
  function LeftWords(fs: Fs, i: nat, blk: Block): Block
    requires NDIR <= i < MAX_IBLOCKS
  {
    var a := Next(fs.store);
    var stale := Get(fs.store.blocks, a);
    if stale[i - NDIR] == a && a != 0 then blk else stale
  }

  /** A data block that is lost: neither free nor any file's. */
  ghost predicate Lost(fs: Fs, x: Word) {
    Lo(fs) <= x < |fs.store.blocks| && !Accounted(fs, x)
  }

  /** As pointers of one file the words name lost blocks only, each once. */
  ghost predicate Harmless(fs: Fs, arr: Block) {
    && (forall k :: 0 <= k < NIND && arr[k] != 0 ==> Lost(fs, arr[k]))
    && (forall k, l :: 0 <= k < l < NIND && arr[k] != 0 ==> arr[k] != arr[l])
  }

  /** fs' is fs with the free block a made the indirect block of ino; it holds arr, and the blocks taken are no
      longer free. */
  ghost predicate HasNewIndirect(fs: Fs, ino: Inode, fs': Fs, a: Word, arr: Block, taken: set<Word>) {
    && TableOk(fs') && fs'.tb == fs.tb && fs'.ihead == fs.ihead && fs'.ilist == fs.ilist
    && Ino(fs', ino.inumber) == SetPtr(ino, IND, a)
    && (forall m: Word :: m != ino.inumber ==> Ino(fs', m) == Ino(fs, m))
    && StoreOk(fs'.store, Lo(fs)) && |fs'.store.blocks| == |fs.store.blocks|
    && Get(fs'.store.blocks, a) == arr
    && a in taken && taken <= Free(fs.store) && Free(fs'.store) == Free(fs.store) - taken
    && (forall r :: Target(fs, r) != 0 ==> Get(fs'.store.blocks, Target(fs, r)) == Get(fs.store.blocks, Target(fs, r)))
  }

  function TargetAfter(fs: Fs, ino: Inode, r: Ref, a: Word, arr: Block): Word {
    if r == Direct(ino.inumber, IND) then a
    else if r.IndSlot? && r.n == ino.inumber && r.j < NIND then arr[r.j]
    else Target(fs, r)
  }

  lemma NewTargets(fs: Fs, ino: Inode, fs': Fs, a: Word, arr: Block, taken: set<Word>)
    requires DiskInv(fs) && Agrees(fs, ino) && ino.ptrs[IND] == 0 && HasNewIndirect(fs, ino, fs', a, arr, taken)
    ensures Lo(fs) <= a < |fs.store.blocks| && forall r :: Target(fs, r) != a
    ensures forall r :: Target(fs', r) == TargetAfter(fs, ino, r, a, arr)
  {
    hide StoreOk, TableOk, Free;
    assert InRange(Free(fs.store), Lo(fs), |fs.store.blocks|) by { Unfold(fs); }
    forall r ensures Target(fs', r) == TargetAfter(fs, ino, r, a, arr) {
      assert Live(fs', r.n) <==> Live(fs, r.n);
      if Live(fs, r.n) && r.n != ino.inumber {
        assert Target(fs, Direct(r.n, IND)) == Ino(fs, r.n).ptrs[IND];
      }
    }
  }

  lemma Unfold(fs: Fs)
    requires StoreOk(fs.store, Lo(fs))
    ensures InRange(Free(fs.store), Lo(fs), |fs.store.blocks|)
  {
  }

  /** The disk is sound afterwards if and only if the words of the new indirect block are blocks that nobody
      else has. */
  lemma SoundIff(fs: Fs, ino: Inode, fs': Fs, a: Word, arr: Block, taken: set<Word>)
    requires DiskInv(fs) && Agrees(fs, ino) && ino.ptrs[IND] == 0 && HasNewIndirect(fs, ino, fs', a, arr, taken)
    ensures DiskInv(fs') <==>
      && (forall k :: 0 <= k < NIND && arr[k] != 0 ==>
            && Lo(fs) <= arr[k] < |fs.store.blocks| && arr[k] !in Free(fs.store) - taken && arr[k] != a
            && (forall r :: Target(fs, r) != arr[k]))
      && (forall k, l :: 0 <= k < l < NIND && arr[k] != 0 ==> arr[k] != arr[l])
  {
    hide StoreOk, TableOk, Free, Target;
    var n := ino.inumber;
    NewTargets(fs, ino, fs', a, arr, taken);
    if DiskInv(fs') {
      forall k | 0 <= k < NIND && arr[k] != 0
        ensures Lo(fs) <= arr[k] < |fs.store.blocks| && arr[k] !in Free(fs.store) - taken && arr[k] != a
        ensures forall r :: Target(fs, r) != arr[k]
      {
        var slot := IndSlot(n, k);
        assert Target(fs', slot) == arr[k];
        assert Target(fs', Direct(n, IND)) == a;
        forall r ensures Target(fs, r) != arr[k] {
          if Target(fs, r) != 0 {
            NoOldSlots(fs, ino, r);
            assert Target(fs', r) == Target(fs, r) && r != slot;
          }
        }
      }
      forall k, l | 0 <= k < l < NIND && arr[k] != 0 ensures arr[k] != arr[l] {
        assert Target(fs', IndSlot(n, k)) == arr[k] && Target(fs', IndSlot(n, l)) == arr[l];
      }
    }
  }

  lemma NoOldSlots(fs: Fs, ino: Inode, r: Ref)
    requires Agrees(fs, ino) && ino.ptrs[IND] == 0 && Target(fs, r) != 0
    ensures r.n == ino.inumber ==> r.Direct? && r.i != IND
  {
  }

  lemma MappedIndirect(fs: Fs, ino: Inode)
    requires DiskInv(fs) && Agrees(fs, ino) && ino.ptrs[IND] == 0 && Next(fs.store) != 0
    ensures var a := Next(fs.store);
      HasNewIndirect(fs, ino, MapPointer(fs, ino, IND).fs, a, Get(fs.store.blocks, a), {a})
  {
    hide StoreOk, Alloc, Next, InodesLinked, Free, Target;
    AllocTakesOne(fs.store, Lo(fs));
    SetLiveIno(fs, SetPtr(ino, IND, Next(fs.store)));
  }

  /** The same with the store changed further. */
  lemma MovedOn(fs: Fs, ino: Inode, mid: Fs, a: Word, stale: Block, st: Store, arr: Block, taken: set<Word>)
    requires HasNewIndirect(fs, ino, mid, a, stale, {a})
    requires StoreOk(st, Lo(fs)) && |st.blocks| == |fs.store.blocks| && Get(st.blocks, a) == arr
    requires a in taken && taken <= Free(fs.store) && Free(st) == Free(fs.store) - taken
    requires forall r :: Target(fs, r) != 0 ==> Get(st.blocks, Target(fs, r)) == Get(mid.store.blocks, Target(fs, r))
    ensures HasNewIndirect(fs, ino, mid.(store := st), a, arr, taken)
  {
    hide StoreOk, Free, Target;
  }

  /** The outcome unless the stale word at the wanted index names somebody's block: the words left are those of
      LeftWords, and a data block is allocated exactly when the stale word is 0 and a block is to be had. */
  ghost predicate Outcome(fs: Fs, ino: Inode, i: nat, blk: Block, w: Written, b: Word)
    requires NDIR <= i < MAX_IBLOCKS
  {
    var a, left, j := Next(fs.store), LeftWords(fs, i, blk), i - NDIR;
    && w.ino == SetPtr(ino, IND, a) && w.ok == (b != 0 || Get(fs.store.blocks, a)[j] != 0)
    && if b == 0 then HasNewIndirect(fs, ino, w.fs, a, left, {a})
       else
         && left[j] == 0 && b != a && b in Free(fs.store) && Lo(fs) <= b < |fs.store.blocks|
         && HasNewIndirect(fs, ino, w.fs, a, SetWord(left, j, b), {a, b})
  }

  lemma StaleWordEmpty(fs: Fs, ino: Inode, i: nat, blk: Block, w: Written) returns (b: Word)
    requires DiskInv(fs) && Agrees(fs, ino) && TakesIndirect(fs, ino, i) && w == WriteBlock(fs, ino, i, blk)
    requires Get(fs.store.blocks, Next(fs.store))[i - NDIR] == 0
    ensures Outcome(fs, ino, i, blk, w, b)
  {
    hide Owned, TableOk, StoreOk, Alloc, Next, Free, WriteBlock, InodesLinked, Target;
    var a, j := Next(fs.store), i - NDIR;
    var m := MapPointer(fs, ino, IND);
    NewIndirectWrite(fs, ino, i, blk);
    MappedIndirect(fs, ino);
    AllocTakesOne(fs.store, Lo(fs));
    var st1 := Alloc(fs.store);
    b := Next(st1);
    AllocTakesOne(st1, Lo(fs));
    if b != 0 {
      var st' := TakeSecond(st1, Lo(fs), a, j, blk);
      OwnedNotFree(fs);
      MovedOn(fs, ino, m.fs, a, Get(fs.store.blocks, a), st', SetWord(Get(fs.store.blocks, a), j, b), {a, b});
    }
  }

  lemma OwnedNotFree(fs: Fs)
    requires DiskInv(fs)
    ensures forall r :: Target(fs, r) != 0 ==> Target(fs, r) !in Free(fs.store)
  {
  }

  /** The pool's side of allocating block b for word j of the new indirect block a and storing data in it. */
  lemma TakeSecond(st1: Store, lo: nat, a: Word, j: nat, blk: Block) returns (st': Store)
    requires StoreOk(st1, lo) && Next(st1) != 0 && lo <= a < |st1.blocks| && a !in Free(st1) && j < NIND
    ensures var b := Next(st1);
      && st' == Alloc(st1).(blocks := Put(Put(Alloc(st1).blocks, a, SetWord(Get(st1.blocks, a), j, b)), b, blk))
      && lo <= b < |st1.blocks| && |st'.blocks| == |st1.blocks| && b in Free(st1) && b != a
      && StoreOk(st', lo) && Free(st') == Free(st1) - {b}
      && Get(st'.blocks, a) == SetWord(Get(st1.blocks, a), j, b)
      && (forall x: Word :: x !in Free(st1) && x != a ==> Get(st'.blocks, x) == Get(st1.blocks, x))
  {
    hide Free, Alloc, Next, StoreOk;
    AllocTakesOne(st1, lo);
    var b := Next(st1);
    var st2, arr := Alloc(st1), SetWord(Get(st1.blocks, a), j, b);
    PutOutside(st2, lo, a, arr);
    PutOutside(st2.(blocks := Put(st2.blocks, a, arr)), lo, b, blk);
    st' := st2.(blocks := Put(Put(st2.blocks, a, arr), b, blk));
  }

  /** The stale word at the wanted index is a lost block or the indirect block itself: the data goes there. */
  lemma StaleWordHarmless(fs: Fs, ino: Inode, i: nat, blk: Block, w: Written)
    requires DiskInv(fs) && Agrees(fs, ino) && TakesIndirect(fs, ino, i) && w == WriteBlock(fs, ino, i, blk)
    requires var p := Get(fs.store.blocks, Next(fs.store))[i - NDIR]; p != 0 && (p == Next(fs.store) || Lost(fs, p))
    ensures Outcome(fs, ino, i, blk, w, 0)
  {
    hide Owned, TableOk, StoreOk, Alloc, Next, Free, WriteBlock, InodesLinked, Target;
    var a, stale := Next(fs.store), Get(fs.store.blocks, Next(fs.store));
    var p := stale[i - NDIR];
    var m := MapPointer(fs, ino, IND);
    NewIndirectWrite(fs, ino, i, blk);
    MappedIndirect(fs, ino);
    AllocTakesOne(fs.store, Lo(fs));
    var st1 := Alloc(fs.store);
    PutOutside(st1, Lo(fs), p, blk);
    OwnedNotFree(fs);
    assert w == StoreAt(m.fs, m.ino, p, blk);
    MovedOn(fs, ino, m.fs, a, stale, st1.(blocks := Put(st1.blocks, p, blk)), LeftWords(fs, i, blk), {a});
  }

  /** The stale word names a block that is free or somebody's, or no data block at all: the disk is unsound. */
  lemma StaleWordHarmful(fs: Fs, ino: Inode, i: nat, blk: Block, w: Written)
    requires DiskInv(fs) && Agrees(fs, ino) && TakesIndirect(fs, ino, i) && w == WriteBlock(fs, ino, i, blk)
    requires var p := Get(fs.store.blocks, Next(fs.store))[i - NDIR]; p != 0 && p != Next(fs.store) && !Lost(fs, p)
    ensures !DiskInv(w.fs)
  {
    hide TableOk, Alloc, Next, WriteBlock, InodesLinked, Separate, Linked;
    var n, a, stale, j := ino.inumber, Next(fs.store), Get(fs.store.blocks, Next(fs.store)), i - NDIR;
    var p := stale[j];
    var m := MapPointer(fs, ino, IND);
    NewIndirectWrite(fs, ino, i, blk);
    MappedIndirect(fs, ino);
    NewTargets(fs, ino, m.fs, a, stale, {a});
    assert w == StoreAt(m.fs, m.ino, p, blk);
    var slot := IndSlot(n, j);
    assert Target(m.fs, slot) == p;
    assert Target(w.fs, slot) == p;
    if Lo(fs) <= p < |fs.store.blocks| && DiskInv(w.fs) {
      AllocTakesOne(fs.store, Lo(fs));
      if p in Free(fs.store) {
        OverwritesFree(Alloc(fs.store), w.fs.store, p, blk);
      } else {
        var r :| Target(fs, r) == p;
        NoOldSlots(fs, ino, r);
        assert Target(m.fs, r) == p;
        OtherTargetStays(fs, m.fs, w, p, blk, r);
      }
    }
  }

  /** Overwriting a block of the free list does not take it off the list. */
  lemma OverwritesFree(st: Store, st': Store, p: Word, blk: Block)
    requires p in Free(st) && st' == st.(blocks := Put(st.blocks, p, blk))
    ensures p in Free(st')
  {
    NodesAreFree(st'.blocks, st.chain);
    if p !in st.chain {
      ListFrame(st.blocks, st'.blocks, st.head, st.chain);
    }
  }

  lemma OtherTargetStays(fs: Fs, mid: Fs, w: Written, p: Word, blk: Block, r: Ref)
    requires Owned(fs) && Target(fs, r) == p == Target(mid, r) && p != 0 && p != mid.tb + 1
    requires w.fs == PutBlock(mid, p, blk) && |mid.store.blocks| == |fs.store.blocks|
    requires r.IndSlot? ==> Ino(mid, r.n) == Ino(fs, r.n)
    ensures Target(w.fs, r) == p
  {
    hide Free;
    if r.IndSlot? {
      assert Target(fs, Direct(r.n, IND)) == Ino(fs, r.n).ptrs[IND];
    }
  }

  lemma NewIndirectOutcome(fs: Fs, ino: Inode, i: nat, blk: Block, w: Written) returns (b: Word)
    requires DiskInv(fs) && Agrees(fs, ino) && TakesIndirect(fs, ino, i) && w == WriteBlock(fs, ino, i, blk)
    requires DiskInv(w.fs) || Harmless(fs, LeftWords(fs, i, blk))
    ensures Outcome(fs, ino, i, blk, w, b)
  {
    hide DiskInv, Free, Next, WriteBlock, Outcome, HasNewIndirect, Lost;
    var p := Get(fs.store.blocks, Next(fs.store))[i - NDIR];
    b := 0;
    if p == 0 {
      b := StaleWordEmpty(fs, ino, i, blk, w);
    } else if p == Next(fs.store) || Lost(fs, p) {
      StaleWordHarmless(fs, ino, i, blk, w);
    } else {
      StaleWordHarmful(fs, ino, i, blk, w);
    }
  }

  /** The disk is sound after creating an indirect block if and only if every word left in it names a lost block,
      each once. */
  lemma NewIndirectSoundIff(fs: Fs, ino: Inode, i: nat, blk: Block)
    requires DiskInv(fs) && Agrees(fs, ino) && TakesIndirect(fs, ino, i)
    ensures DiskInv(WriteBlock(fs, ino, i, blk).fs) <==> Harmless(fs, LeftWords(fs, i, blk))
  {
    hide DiskInv, Free, Next, WriteBlock, HasNewIndirect, LeftWords, Harmless;
    var w, left := WriteBlock(fs, ino, i, blk), LeftWords(fs, i, blk);
    if DiskInv(w.fs) || Harmless(fs, left) {
      var b := NewIndirectOutcome(fs, ino, i, blk, w);
      OutcomeSoundIff(fs, ino, i, blk, w, b);
    }
  }

  lemma OutcomeSoundIff(fs: Fs, ino: Inode, i: nat, blk: Block, w: Written, b: Word)
    requires DiskInv(fs) && Agrees(fs, ino) && TakesIndirect(fs, ino, i) && Outcome(fs, ino, i, blk, w, b)
    ensures DiskInv(w.fs) <==> Harmless(fs, LeftWords(fs, i, blk))
  {
    hide StoreOk, TableOk, Free, Next, LeftWords, Target;
    var a, left, j := Next(fs.store), LeftWords(fs, i, blk), i - NDIR;
    if b == 0 {
      SoundIff(fs, ino, w.fs, a, left, {a});
    } else {
      var arr := SetWord(left, j, b);
      SoundIff(fs, ino, w.fs, a, arr, {a, b});
      assert arr[j] == b && forall k :: 0 <= k < NIND && k != j ==> arr[k] == left[k];
      OwnedNotFree(fs);
      if Harmless(fs, left) {
        forall k | 0 <= k < NIND && arr[k] != 0
          ensures arr[k] !in Free(fs.store) - {a, b} && arr[k] != a && forall r :: Target(fs, r) != arr[k] {
          assert k != j ==> Lost(fs, left[k]);
        }
      }
    }
  }

  /** Creating an indirect block does everything a block write promises, and nothing else, if and only if all words
      left in the new indirect block are 0: the block taken is clean, or the stale word at the wanted index is
      that block's own number and the data are zeros. */
  lemma NewIndirectEffectIff(fs: Fs, ino: Inode, i: nat, blk: Block)
    requires DiskInv(fs) && Agrees(fs, ino) && TakesIndirect(fs, ino, i)
    ensures WriteEffect(fs, ino, i, blk, WriteBlock(fs, ino, i, blk)) <==>
      Clean(fs, ino, i) || (blk == ZERO_BLOCK && Get(fs.store.blocks, Next(fs.store))[i - NDIR] == Next(fs.store))
  {
    hide Free, Next, WriteBlock, HasNewIndirect, Harmless, StoreOk, Owned, TableOk, Target;
    var w, left := WriteBlock(fs, ino, i, blk), LeftWords(fs, i, blk);
    if WriteEffect(fs, ino, i, blk, w) {
      NewIndirectSoundIff(fs, ino, i, blk);
      var b := NewIndirectOutcome(fs, ino, i, blk, w);
      NothingLeft(fs, ino, i, blk, w, b);
    } else if Clean(fs, ino, i) {
      NewIndirectEffect(fs, ino, i, blk, w);
    } else if left == ZERO_BLOCK {
      SelfIndirect(fs, ino, i, blk, w);
    }
  }

  /** A lost block that a stale word names would come back from nowhere. */
  lemma NothingLeft(fs: Fs, ino: Inode, i: nat, blk: Block, w: Written, b: Word)
    requires DiskInv(fs) && Agrees(fs, ino) && TakesIndirect(fs, ino, i) && Outcome(fs, ino, i, blk, w, b)
    requires Harmless(fs, LeftWords(fs, i, blk)) && Conserves(fs, w.fs)
    ensures LeftWords(fs, i, blk) == ZERO_BLOCK
  {
    hide StoreOk, TableOk, Free, Next, Target, Owned, LeftWords;
    var a, left, j := Next(fs.store), LeftWords(fs, i, blk), i - NDIR;
    var arr, taken := if b == 0 then left else SetWord(left, j, b), if b == 0 then {a} else {a, b};
    NewTargets(fs, ino, w.fs, a, arr, taken);
    forall k | 0 <= k < NIND ensures left[k] == 0 {
      assert left[k] == arr[k] || left[k] == 0;
      assert left[k] != 0 ==> Lost(fs, left[k]);
      assert Target(w.fs, IndSlot(ino.inumber, k)) == arr[k];
    }
  }

  /** The data, all zeros, land in the new indirect block itself. */
  lemma SelfIndirect(fs: Fs, ino: Inode, i: nat, blk: Block, w: Written)
    requires DiskInv(fs) && Agrees(fs, ino) && TakesIndirect(fs, ino, i) && w == WriteBlock(fs, ino, i, blk)
    requires blk == ZERO_BLOCK && Get(fs.store.blocks, Next(fs.store))[i - NDIR] == Next(fs.store)
    ensures WriteEffect(fs, ino, i, blk, w)
  {
    hide Free, Next, WriteBlock, StoreOk, TableOk, Target, Conserves, Owned;
    var n, a := ino.inumber, Next(fs.store);
    StaleWordHarmless(fs, ino, i, blk, w);
    OutcomeSoundIff(fs, ino, i, blk, w, 0);
    NewTargets(fs, ino, w.fs, a, ZERO_BLOCK, {a});
    NoSlotsYet(fs, ino, Direct(n, IND));
    assert Maps(fs, w.fs, Direct(n, IND), a) by {
      forall r ensures Target(w.fs, r) == if r == Direct(n, IND) then a else Target(fs, r) {
        NoSlotsYet(fs, ino, r);
      }
    }
    MapsConserves(fs, w.fs, Direct(n, IND), a);
    forall m: Word, k: nat | Live(fs, m) && k < MAX_IBLOCKS
      ensures Content(w.fs, m, k) == if m == n && k == i then blk else Content(fs, m, k) {
      MapsKeepsContent(fs, w.fs, Direct(n, IND), a, m, k);
      NoSlotsYet(fs, ino, Leaf(n, i));
    }
  }

  lemma NoSlotsYet(fs: Fs, ino: Inode, r: Ref)
    requires Agrees(fs, ino) && ino.ptrs[IND] == 0
    ensures r.n == ino.inumber && (r.IndSlot? || r.i == IND) ==> Target(fs, r) == 0
  {
  }

  /** A family of failing inputs: the pool's head node is empty and links to a next node. The head node itself
      becomes the indirect block, its word 0 still names the next node, and so the file's logical block 12
      is a block of the free list. */
  lemma ConsumedNodeAliasesFreeList(fs: Fs, ino: Inode, i: nat)
    requires DiskInv(fs) && Agrees(fs, ino) && TakesIndirect(fs, ino, i)
    requires var head := Get(fs.store.blocks, fs.store.head);
      FirstUsed(head, 1) == BLOCK_WORDS && head[0] != 0
    ensures var m := MapPointer(fs, ino, IND);
      Target(m.fs, Leaf(ino.inumber, NDIR)) == m.fs.store.head && m.fs.store.head in Free(m.fs.store)
    ensures !Owned(MapPointer(fs, ino, IND).fs)
  {
    var m := MapPointer(fs, ino, IND);
    AllocTakesOne(fs.store, Lo(fs));
    NodesAreFree(m.fs.store.blocks, m.fs.store.chain);
    assert Target(m.fs, Leaf(ino.inumber, NDIR)) == m.fs.store.head;
  }

  // ---------------------------------------------------------------- allocating and freeing inodes

  /** Every file of fs but the excepted one has in fs' the same inode and the same contents. */
  ghost predicate SameFiles(fs: Fs, fs': Fs, except: Word) {
    && (forall m: Word :: Live(fs, m) && m != except ==> Live(fs', m) && Ino(fs', m) == Ino(fs, m))
    && (forall m: Word, k: nat :: Live(fs, m) && m != except && k < MAX_IBLOCKS ==>
          Content(fs', m, k) == Content(fs, m, k))
  }

  function DirectBlocks(ptrs: Ptrs, i: nat): set<Word> {
    set k | i <= k < NDIR && ptrs[k] != 0 :: ptrs[k]
  }

  lemma {:induction false} FreeDirectAddsAll(st: Store, lo: nat, ptrs: Ptrs, i: nat)
    requires StoreOk(st, lo) && i <= NDIR
    requires forall k :: i <= k < NDIR && ptrs[k] != 0 ==> lo <= ptrs[k] < |st.blocks| && ptrs[k] !in Free(st)
    requires forall k, l :: i <= k < l < NDIR && ptrs[k] != 0 ==> ptrs[k] != ptrs[l]
    ensures var st' := FreeDirect(st, ptrs, i);
      && StoreOk(st', lo) && |st'.blocks| == |st.blocks|
      && Free(st') == Free(st) + DirectBlocks(ptrs, i)
      && (forall x :: 0 <= x < |st.blocks| && x !in Free(st') ==> st'.blocks[x] == st.blocks[x])
    decreases NDIR - i
  {
    hide StoreOk, Release, Free;
    if i < NDIR {
      if ptrs[i] != 0 {
        ReleaseAddsOne(st, lo, ptrs[i]);
        FreeDirectAddsAll(Release(st, ptrs[i]), lo, ptrs, i + 1);
        assert DirectBlocks(ptrs, i) == {ptrs[i]} + DirectBlocks(ptrs, i + 1);
      } else {
        FreeDirectAddsAll(st, lo, ptrs, i + 1);
        assert DirectBlocks(ptrs, i) == DirectBlocks(ptrs, i + 1);
      }
    } else {
      assert DirectBlocks(ptrs, i) == {};
    }
  }

  lemma LiveNumber(fs: Fs, n: Word)
    requires DiskInv(fs) && Live(fs, n)
    ensures Ino(fs, n).inumber == n
  {
  }

  /** Changing an inode's other fields but not its pointers changes no file's contents. */
  lemma UpdateIno(fs: Fs, ino: Inode)
    requires DiskInv(fs) && Live(fs, ino.inumber) && ino.ptrs == Ino(fs, ino.inumber).ptrs
    ensures DiskInv(SetIno(fs, ino)) && Agrees(SetIno(fs, ino), ino)
    ensures SameFiles(fs, SetIno(fs, ino), ino.inumber)
    ensures forall m: Word, k: nat :: Content(SetIno(fs, ino), m, k) == Content(fs, m, k)
    ensures Conserves(fs, SetIno(fs, ino))
  {
    hide Conserves;
    var fs' := SetIno(fs, ino);
    SetLiveIno(fs, ino);
    assert forall r :: Target(fs', r) == Target(fs, r);
    SameTargetsConserve(fs, fs');
  }

  lemma NewInodeTable(fs: Fs, ino: Inode)
    requires TableOk(fs) && fs.ilist != [] && ino.inumber == fs.ihead
    ensures var fs' := SetIno(TakeInode(fs), ino);
      && TableOk(fs') && fs'.store == fs.store && fs'.tb == fs.tb
      && 2 <= ino.inumber && !Live(fs, ino.inumber) && Agrees(fs', ino)
      && (forall m: Word :: Live(fs', m) <==> Live(fs, m) || m == ino.inumber)
      && (forall m: Word :: m != ino.inumber ==> Ino(fs', m) == Ino(fs, m))
  {
    var fs', n := SetIno(TakeInode(fs), ino), ino.inumber;
    FreeInodesInRange(fs.inodes, Count(fs), fs.ihead, fs.ilist);
    assert fs.ilist == [n] + fs.ilist[1..];
    InodeListFrame(fs.inodes, fs'.inodes, Count(fs), Ino(fs, n).size, fs.ilist[1..]);
  }

  /** An inode off the free list is a new, empty file once its caller has rewritten it: its stale block
      pointers must be cleared, since a freed inode still names blocks that are in the pool. */
  lemma NewInode(fs: Fs, ino: Inode)
    requires DiskInv(fs) && fs.ilist != [] && ino.inumber == fs.ihead && ino.ptrs == NO_PTRS
    ensures var fs' := SetIno(TakeInode(fs), ino);
      && DiskInv(fs') && fs'.store == fs.store && fs'.tb == fs.tb
      && 2 <= ino.inumber && !Live(fs, ino.inumber) && Agrees(fs', ino)
      && (forall m: Word :: Live(fs', m) <==> Live(fs, m) || m == ino.inumber)
      && SameFiles(fs, fs', 0)
      && (forall k: nat :: Content(fs', ino.inumber, k) == ZERO_BLOCK)
      && Conserves(fs, fs')
  {
    hide StoreOk, Free, TableOk, TakeInode, SetIno, Conserves;
    NewInodeTable(fs, ino);
    assert forall r :: Target(SetIno(TakeInode(fs), ino), r) == Target(fs, r);
    SameTargetsConserve(fs, SetIno(TakeInode(fs), ino));
  }

  /** The formatted free list ends at the inode number just past the table. Allocating then "succeeds" with whatever
      the unused block holds, and the list stays well formed exactly if that inode's size ends it. */
  lemma TakePastTheTable(fs: Fs)
    requires DiskInv(fs) && fs.ilist == [] && fs.ihead != 0
    ensures fs.ihead == Count(fs) + 1 && Ino(fs, fs.ihead) == PastEnd(fs)
    ensures TakeInode(fs) == fs.(ihead := PastEnd(fs).size)
    ensures DiskInv(TakeInode(fs)) <==> EndsList(fs)
    ensures SameFiles(fs, TakeInode(fs), 0) && Conserves(fs, TakeInode(fs))
  {
    hide Conserves;
    assert forall r :: Target(TakeInode(fs), r) == Target(fs, r);
    SameTargetsConserve(fs, TakeInode(fs));
  }

  ghost predicate Freed(fs: Fs, n: Word, ptrs: Ptrs, fs': Fs) {
    && DiskInv(fs') && fs'.tb == fs.tb && fs'.ilist == [n] + fs.ilist
    && |fs'.store.blocks| == |fs.store.blocks|
    && SameFiles(fs, fs', n)
    && (forall m: Word :: m != n ==> Ino(fs', m) == Ino(fs, m))
    && Free(fs'.store) == Free(fs.store) + DirectBlocks(ptrs, 0)
    && (forall r :: Target(fs', r) == if r.n == n then 0 else Target(fs, r))
  }

  lemma PointersAreOwned(fs: Fs, n: Word)
    requires Owned(fs) && Live(fs, n)
    ensures var ptrs := Ino(fs, n).ptrs;
      && (forall k :: 0 <= k < NDIR && ptrs[k] != 0 ==>
        Lo(fs) <= ptrs[k] < |fs.store.blocks| && ptrs[k] !in Free(fs.store))
      && (forall k, l :: 0 <= k < l < NDIR && ptrs[k] != 0 ==> ptrs[k] != ptrs[l])
      && (forall x, r :: x in DirectBlocks(ptrs, 0) && Target(fs, r) == x ==> r.n == n)
  {
    var ptrs := Ino(fs, n).ptrs;
    assert forall k :: 0 <= k < NDIR ==> Target(fs, Direct(n, k)) == ptrs[k];
    forall k, l | 0 <= k < l < NDIR && ptrs[k] != 0 ensures ptrs[k] != ptrs[l] {
      assert Target(fs, Direct(n, k)) == ptrs[k] && Target(fs, Direct(n, l)) == ptrs[l];
    }
    forall x, r | x in DirectBlocks(ptrs, 0) && Target(fs, r) == x ensures r.n == n {
      var k :| 0 <= k < NDIR && ptrs[k] != 0 && ptrs[k] == x;
      assert Target(fs, Direct(n, k)) == x;
    }
  }

  lemma PushKeepsTable(fs: Fs, ino: Inode)
    requires TableOk(fs) && Live(fs, ino.inumber) && 2 <= ino.inumber
    ensures TableOk(Push(fs, ino))
    ensures forall m: Word :: m != ino.inumber ==> Ino(Push(fs, ino), m) == Ino(fs, m)
  {
    var fs' := Push(fs, ino);
    assert fs'.ilist[1..] == fs.ilist;
    InodeListFrame(fs.inodes, fs'.inodes, Count(fs), fs.ihead, fs.ilist);
  }

  /** What sfs_fs_inode_deallocate promises: the inode goes on the free list, its direct blocks go back to the
      pool through up to twelve list insertions, and no other file is touched. */
  lemma DeallocateFrees(fs: Fs, ino: Inode)
    requires DiskInv(fs) && Live(fs, ino.inumber) && 2 <= ino.inumber && ino.ptrs == Ino(fs, ino.inumber).ptrs
    ensures Freed(fs, ino.inumber, ino.ptrs, Deallocate(fs, ino))
  {
    PointersAreOwned(fs, ino.inumber);
    FreeDirectAddsAll(fs.store, Lo(fs), ino.ptrs, 0);
    PushKeepsTable(fs, ino);
    var st := FreeDirect(fs.store, ino.ptrs, 0);
    DropOwner(fs, Push(fs, ino).(store := st), ino.inumber, ino.ptrs);
    AssembleFreed(fs, ino, Push(fs, ino), st);
  }

  lemma AssembleFreed(fs: Fs, ino: Inode, pushed: Fs, st: Store)
    requires TableOk(pushed) && StoreOk(st, Lo(fs)) && |st.blocks| == |fs.store.blocks|
    requires pushed.tb == fs.tb && pushed.ilist == [ino.inumber] + fs.ilist
    requires forall m: Word :: m != ino.inumber ==> Ino(pushed, m) == Ino(fs, m)
    requires Free(st) == Free(fs.store) + DirectBlocks(ino.ptrs, 0)
    requires Owned(pushed.(store := st)) && SameFiles(fs, pushed.(store := st), ino.inumber)
    requires forall r :: Target(pushed.(store := st), r) == if r.n == ino.inumber then 0 else Target(fs, r)
    ensures Freed(fs, ino.inumber, ino.ptrs, pushed.(store := st))
  {
  }

  /** Once inode n is off the live list its blocks may be free; all others stay owned once. */
  lemma DropOwner(fs: Fs, fs': Fs, n: Word, ptrs: Ptrs)
    requires DiskInv(fs) && Live(fs, n) && ptrs == Ino(fs, n).ptrs
    requires fs'.tb == fs.tb && fs'.ilist == [n] + fs.ilist && |fs'.store.blocks| == |fs.store.blocks|
    requires forall m: Word :: m != n ==> Ino(fs', m) == Ino(fs, m)
    requires Free(fs'.store) == Free(fs.store) + DirectBlocks(ptrs, 0)
    requires forall x :: 0 <= x < |fs.store.blocks| && x !in Free(fs'.store) ==>
      fs'.store.blocks[x] == fs.store.blocks[x]
    ensures Owned(fs') && SameFiles(fs, fs', n)
    ensures forall r :: Target(fs', r) == if r.n == n then 0 else Target(fs, r)
  {
    PointersAreOwned(fs, n);
    assert forall m: Word :: Live(fs', m) <==> Live(fs, m) && m != n;
    forall r ensures Target(fs', r) == if r.n == n then 0 else Target(fs, r) {
      if Live(fs, r.n) && r.n != n {
        var ind := Target(fs, Direct(r.n, IND));
        assert ind != 0 ==> ind !in Free(fs'.store);
      }
    }
    forall m: Word, k: nat | Live(fs, m) && m != n && k < MAX_IBLOCKS
      ensures Content(fs', m, k) == Content(fs, m, k) {
      var q := Target(fs, Leaf(m, k));
      assert q != 0 ==> q !in Free(fs'.store);
    }
  }

  /** Freeing an inode gives all of its blocks back exactly when it has no indirect block; otherwise the indirect
      block at least is lost: neither free nor anybody's. */
  lemma DeallocateConservesIffNoIndirect(fs: Fs, ino: Inode)
    requires DiskInv(fs) && Live(fs, ino.inumber) && 2 <= ino.inumber && ino.ptrs == Ino(fs, ino.inumber).ptrs
    ensures Conserves(fs, Deallocate(fs, ino)) <==> ino.ptrs[IND] == 0
  {
    hide StoreOk, TableOk, Free, Deallocate;
    var n, fs', ptrs := ino.inumber, Deallocate(fs, ino), ino.ptrs;
    DeallocateFrees(fs, ino);
    assert forall k :: 0 <= k <= IND ==> Target(fs, Direct(n, k)) == ptrs[k];
    if ptrs[IND] == 0 {
      forall x: Word | x != 0 ensures Accounted(fs, x) <==> Accounted(fs', x) {
        if x in DirectBlocks(ptrs, 0) {
          var k :| 0 <= k < NDIR && ptrs[k] != 0 && ptrs[k] == x;
          assert Target(fs, Direct(n, k)) == x;
        }
        if r :| Target(fs, r) == x {
          if r.n == n {
            assert r.Direct? && r.i < NDIR && ptrs[r.i] == x;
          } else {
            assert Target(fs', r) == x;
          }
        }
        if r :| Target(fs', r) == x {
          assert Target(fs, r) == x;
        }
      }
    } else {
      IndirectIsLost(fs, fs', n, ptrs);
    }
  }

  lemma IndirectIsLost(fs: Fs, fs': Fs, n: Word, ptrs: Ptrs)
    requires DiskInv(fs) && Live(fs, n) && ptrs == Ino(fs, n).ptrs && ptrs[IND] != 0 && Freed(fs, n, ptrs, fs')
    ensures Accounted(fs, ptrs[IND]) && !Accounted(fs', ptrs[IND]) && !Conserves(fs, fs')
  {
    hide StoreOk, TableOk, Free;
    var ind := ptrs[IND];
    assert Target(fs, Direct(n, IND)) == ind;
    forall k | 0 <= k < NDIR ensures ptrs[k] != ind {
      assert Target(fs, Direct(n, k)) == ptrs[k];
    }
    forall r ensures Target(fs', r) != ind {
      assert r != Direct(n, IND) ==> Target(fs, r) != ind;
    }
  }

  /** Such a disk exists: the pool is an empty node 3 linking to the empty node 4, and a file with no indirect
      block yet writes its logical block 12. */
  lemma UncleanExample() returns (fs: Fs, ino: Inode)
    ensures DiskInv(fs) && Agrees(fs, ino) && TakesIndirect(fs, ino, NDIR) && 2 <= |Free(fs.store)|
    ensures !Clean(fs, ino, NDIR)
    ensures FirstUsed(Get(fs.store.blocks, fs.store.head), 1) == BLOCK_WORDS
      && Get(fs.store.blocks, fs.store.head)[0] != 0
  {
    hide StoreOk, Free, Next, InodesLinked;
    var z, node := ZERO_BLOCK, SetWord(ZERO_BLOCK, 0, 4);
    var blocks: seq<Block> := [z, z, z, node, z];
    ino := Inode(2, 1, 0, NO_PTRS);
    var inodes := [Inode(1, 1, 0, NO_PTRS), ino, Inode(3, 0, 0, NO_PTRS), NULL_INODE, NULL_INODE, NULL_INODE];
    fs := Fs(1, Store(3, [3, 4], blocks), 3, [3], inodes);
    ExampleStore(blocks, node);
    ExampleList(inodes);
    assert forall r :: Target(fs, r) == 0;
    assert Get(blocks, 3)[0] == 4 && ZERO_BLOCK[0] == 0;
  }

  lemma ExampleList(inodes: seq<Inode>)
    requires |inodes| == 6 && inodes[2].size == 0
    ensures InodesLinked(inodes, 3, 3, [3])
  {
    assert [3][1..] == [];
  }

  lemma ExampleStore(blocks: seq<Block>, node: Block)
    requires node == SetWord(ZERO_BLOCK, 0, 4)
    requires |blocks| == 5 && blocks[3] == node && blocks[4] == ZERO_BLOCK
    ensures StoreOk(Store(3, [3, 4], blocks), 3) && Free(Store(3, [3, 4], blocks)) == {3, 4}
    ensures FirstUsed(node, 1) == BLOCK_WORDS && Next(Store(3, [3, 4], blocks)) == 3
  {
    var tail: seq<Word> := [4];
    assert tail[1..] == [] && [3, 4][1..] == tail;
    assert Slots(ZERO_BLOCK) == {} && Slots(node) == {};
    assert FreeOf(blocks, tail) == {4} + Slots(blocks[4]) + FreeOf(blocks, []);
    assert Linked(blocks, 4, tail) && Separate(blocks, tail);
    assert FreeOf(blocks, [3, 4]) == {3} + Slots(node) + FreeOf(blocks, tail);
  }
}
