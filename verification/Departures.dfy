/** Runs from a fresh file system that lead to the places where the code departs from its intent: the failing inputs
    of the other modules do occur. */
module Departures {
  import opened Words
  import opened FreeList
  import opened Inodes
  import opened Files
  import opened Mounted
  import opened System
  import opened Formatting
  import Dir = Directory
  import Fd = Descriptors

  // ---------------------------------------------------------------- out of inodes

  function Creates(names: seq<FileName>): (ops: seq<Op>)
    ensures |ops| == |names|
    decreases names
  {
    if names == [] then [] else [Create(names[0], false, 0)] + Creates(names[1..])
  }

  /** A disk that was zero, but perhaps for the unused block after the table, and was just formatted. */
  ghost predicate FreshDisk(data: seq<Block>, d: Disk) {
    NewDisk(data, d) && forall x :: 0 <= x < |data| && x != TableBlocks(|data|) + 1 ==> data[x] == ZERO_BLOCK
  }

  /** The inode that its unused block makes. */
  function EndInode(data: seq<Block>): Inode
    requires |data| >= 3
  {
    AsInode(data[TableBlocks(|data|) + 1], 0)
  }

  lemma FreshIsNew(data: seq<Block>, d: Disk)
    requires FreshDisk(data, d)
    ensures NewDisk(data, d) && 3 <= |data| <= MAX_BLOCKS && FirstData(|data|) <= |data|
  {
    NodeArithmetic(FreeCount(|data|));
  }

  lemma FreshIsSound(data: seq<Block>, d: Disk)
    requires FreshDisk(data, d)
    ensures SysInv(Start(data, d)) && ZeroTail(data) && TailOk(data) && PastEnd(Start(data, d).fs) == EndInode(data)
  {
    hide Indexed, FreshTable, SysInv, InodesFrom, TailOk, AsInode, PastEnd;
    ZeroTailOk(data);
    FormattedIsSoundIff(data, d);
    FormattedInodes(data, d);
  }

  /** What the inode free list ends with: 0, or the number just past the table. */
  function ListEnd(fs: Fs): Word {
    if fs.ilist == [] then fs.ihead else Ino(fs, fs.ilist[|fs.ilist| - 1]).size
  }

  predicate AllNew(fs: Fs, names: seq<FileName>) {
    && (forall i :: 0 <= i < |names| ==> Dir.Lookup(SFS_DIR, fs, names[i]) == 0)
    && (forall i, j :: 0 <= i < j < |names| ==> names[i] != names[j])
  }

  /** Creating a new name takes one inode off the list, whether or not the entry finds room. */
  lemma CreateTakesInode(s: Sys, name: FileName)
    requires SysInv(s) && Permitted(s, [Create(name, false, 0)]) && Dir.Lookup(SFS_DIR, s.fs, name) == 0
    requires s.fs.ilist != []
    ensures var (s', ret) := Step(s, Create(name, false, 0));
      && (ret.Opened? || ret == Failed)
      && s'.fs.ilist == s.fs.ilist[1..] && ListEnd(s'.fs) == ListEnd(s.fs)
  {
    hide DiskInv, Content, Dir.DirOk, Fd.PoolOk, Fd.Settled, Fd.Opens, Dir.Lookup, Dir.Link, Dir.LinkClean, Refs,
         LinksOk, Dir.NewInos, Dir.Inos;
    var fs1, file, n := WithNewFile(s.fs), NewFile(s.fs), s.fs.ihead;
    NewFileIsLinkable(s);
    NewListed(s.fs, file);
    var l := Dir.Link(SFS_DIR, fs1, name, file);
    Dir.LinkAddsOneEntry(SFS_DIR, fs1, name, file, l);
  }

  lemma NewListed(fs: Fs, file: Inode)
    requires DiskInv(fs) && fs.ilist != [] && file.inumber == fs.ihead
    ensures var fs' := SetIno(TakeInode(fs), file);
      && fs.ihead == fs.ilist[0] && fs'.ilist == fs.ilist[1..]
      && (forall m: Word :: m in fs'.ilist ==> m != Dir.ROOT && m != file.inumber && Ino(fs', m) == Ino(fs, m))
      && ListEnd(fs') == ListEnd(fs)
  {
    hide StoreOk, Owned;
    NewInodeTable(fs, file);
    FreeInodesInRange(fs.inodes, Count(fs), fs.ihead, fs.ilist);
    assert fs.ilist == [fs.ihead] + fs.ilist[1..];
    var fs' := SetIno(TakeInode(fs), file);
    forall m: Word | m in fs'.ilist ensures m != Dir.ROOT && m != file.inumber && Ino(fs', m) == Ino(fs, m) {
      assert m in fs.ilist[1..] && m in fs.ilist;
    }
  }

  lemma {:induction false} CreatesExhaust(s: Sys, names: seq<FileName>, name: FileName)
    requires SysInv(s) && Permitted(s, Creates(names)) && AllNew(s.fs, names) && |names| == |s.fs.ilist|
    requires Dir.Lookup(SFS_DIR, s.fs, name) == 0 && name !in names
    ensures var s' := Run(s, Creates(names));
      && SysInv(s') && s'.fs.ilist == [] && s'.fs.ihead == ListEnd(s.fs) && Dir.Lookup(SFS_DIR, s'.fs, name) == 0
      && SameEnd(s.fs, s'.fs)
    decreases names
  {
    hide SysInv, Step, Enabled, StepClean, Dir.Lookup, PastEnd;
    if names != [] {
      var op, rest := Create(names[0], false, 0), names[1..];
      var s1 := Step(s, op).0;
      assert Creates(names)[0] == op && Creates(names)[1..] == Creates(rest);
      OneStep(s, op);
      StepKeepsInv(s, op);
      NamesAfterStep(s, op);
      EndStays(s, op);
      CreateTakesInode(s, names[0]);
      assert names == [names[0]] + rest;
      CreatesExhaust(s1, rest, name);
    }
  }

  lemma OneStep(s: Sys, op: Op)
    requires Enabled(s, op) && StepClean(s, op)
    ensures Permitted(s, [op])
  {
    hide Step, Enabled, StepClean;
    assert [op][1..] == [];
  }

  lemma EmptyDirectory(data: seq<Block>, d: Disk)
    requires FreshDisk(data, d)
    ensures var fs := Start(data, d).fs;
      && Dir.Len(SFS_DIR, fs) == 0 && (forall name: FileName :: Dir.Lookup(SFS_DIR, fs, name) == 0)
      && Ino(fs, Dir.ROOT) == Inode(Dir.ROOT, 1, 0, NO_PTRS)
  {
    hide Indexed, FreshTable, InodesFrom;
    FormattedTable(data, d);
  }

  lemma FreshList(data: seq<Block>, d: Disk)
    requires FreshDisk(data, d)
    ensures var fs := Start(data, d).fs;
      && fs.ihead == 2 && |fs.ilist| == Count(fs) - 1 && Count(fs) >= 3 && ListEnd(fs) == Count(fs) + 1
      && (forall i :: 0 <= i < |fs.ilist| ==> fs.ilist[i] == 2 + i)
      && (forall n: Word :: 2 <= n <= Count(fs) ==> Ino(fs, n) == Inode(n, 0, n + 1, NO_PTRS))
  {
    hide Indexed, FreshTable;
    FormattedInodes(data, d);
  }

  lemma NothingMapped(data: seq<Block>, d: Disk)
    requires FreshDisk(data, d)
    ensures forall q :: Target(Start(data, d).fs, q) == 0
  {
    hide Indexed, FreshTable, InodesFrom;
    FormattedTable(data, d);
  }

  // ---------------------------------------------------------------- the fresh file system

  lemma Prepend(s: Sys, op: Op, ops: seq<Op>)
    requires Enabled(s, op) && StepClean(s, op) && Permitted(Step(s, op).0, ops)
    ensures Permitted(s, [op] + ops) && Run(s, [op] + ops) == Run(Step(s, op).0, ops)
  {
    hide Step, Enabled, StepClean;
    assert ([op] + ops)[1..] == ops;
  }

  lemma EmptyRun(s: Sys)
    ensures Permitted(s, []) && Run(s, []) == s
  {
  }

  /** An empty root directory, all other inodes on the free list in order, nothing mapped, nothing open. */
  ghost predicate Blank(s: Sys) {
    && SysInv(s) && Dir.Len(SFS_DIR, s.fs) == 0 && Ino(s.fs, Dir.ROOT) == Inode(Dir.ROOT, 1, 0, NO_PTRS)
    && s.fs.ihead == 2 && |s.fs.ilist| == Count(s.fs) - 1 && Count(s.fs) >= 3 && ListEnd(s.fs) == Count(s.fs) + 1
    && (forall n: Word :: 2 <= n <= Count(s.fs) ==> Ino(s.fs, n) == Inode(n, 0, n + 1, NO_PTRS))
    && (forall i :: 0 <= i < |s.fs.ilist| ==> s.fs.ilist[i] == 2 + i)
    && (forall q :: Target(s.fs, q) == 0)
    && |s.pool.slabs| == 1 && s.orphans == {}
  }

  lemma FreshIsBlank(data: seq<Block>, d: Disk)
    requires FreshDisk(data, d)
    ensures Blank(Start(data, d))
  {
    hide SysInv, FreshDisk, NewFs, Target, ListEnd, Dir.Len;
    FreshIsSound(data, d);
    EmptyDirectory(data, d);
    FreshList(data, d);
    NothingMapped(data, d);
  }

  // ---------------------------------------------------------------- creates need no hypothesis

  /** Slots 1 to e of the first node are used; the others name different blocks, all zero. */
  ghost predicate SlotsReady(st: Store, e: nat) {
    && 0 < st.head < |st.blocks|
    && (forall j :: 1 <= j <= e && j < BLOCK_WORDS ==> st.blocks[st.head][j] == 0)
    && (forall j :: e < j < BLOCK_WORDS ==>
          var x := st.blocks[st.head][j]; 0 < x < |st.blocks| && x != st.head && st.blocks[x] == ZERO_BLOCK)
    && (forall j, l :: e < j < l < BLOCK_WORDS ==> st.blocks[st.head][j] != st.blocks[st.head][l])
  }

  /** The list is one empty node. */
  ghost predicate LoneNode(st: Store) {
    0 < st.head < |st.blocks| && st.blocks[st.head] == ZERO_BLOCK
  }

  /** On a fresh disk with a list of 64 or more blocks the first node is full, and its slots name the first data
      blocks. */
  lemma LargeNode(data: seq<Block>, d: Disk)
    requires FreshDisk(data, d) && FreeCount(|data|) >= 64
    ensures var st, h, dd := Start(data, d).fs.store, Head(|data|), FirstData(|data|);
      && st.head == h && 0 < h < dd && dd + SLOTS_PER_NODE <= |st.blocks| && st.chain != [] && st.chain[0] == h
      && (forall j :: 1 <= j < BLOCK_WORDS ==> st.blocks[h][j] == dd + j - 1)
      && (forall x :: dd <= x < dd + SLOTS_PER_NODE ==> st.blocks[x] == ZERO_BLOCK)
  {
    hide Separate, FreeOf, FreshTable, InodesFrom, GoodSize, FullNode, TailOk;
    FreshIsSound(data, d);
    FormattedFree(data, d);
    FirstSlots(|data|);
  }

  lemma FirstSlots(blocks: nat)
    requires 3 <= blocks <= MAX_BLOCKS && FreeCount(blocks) >= 64
    ensures FullCount(blocks) >= 1 && NodeCount(FreeCount(blocks)) >= FullCount(blocks)
    ensures Head(blocks) + FullCount(blocks) <= FirstData(blocks) && FirstData(blocks) + SLOTS_PER_NODE <= blocks
    ensures forall j :: 1 <= j < BLOCK_WORDS ==> FullNode(blocks, 0)[j] == FirstData(blocks) + j - 1
  {
    var f, dd := FreeCount(blocks), FirstData(blocks);
    NodeArithmetic(f);
    assert f - NodeCount(f) >= SLOTS_PER_NODE;
    var node := FullNode(blocks, 0);
    forall j | 1 <= j < BLOCK_WORDS ensures node[j] == dd + j - 1 {
      assert node[1..] == Counting(dd, SLOTS_PER_NODE);
      assert node[1..][j - 1] == node[j];
    }
  }

  lemma SmallNode(data: seq<Block>, d: Disk)
    requires FreshDisk(data, d) && FreeCount(|data|) < 64
    ensures LoneNode(Start(data, d).fs.store)
  {
    hide FreshTable, InodesFrom, FullNode;
    AllInList(FreeCount(|data|));
  }

  /** The blocks for the directory's growth past len blocks come from the slots of the first node, unless it has its
      indirect block already, or there are none. */
  ghost predicate PoolGrows(fs: Fs, root: Inode, len: nat) {
    || root.ptrs[IND] != 0
    || fs.store.head == 0
    || (len <= IND && (forall i :: len <= i <= IND ==> root.ptrs[i] == 0) && SlotsReady(fs.store, len))
    || (len == 0 && root.ptrs == NO_PTRS && LoneNode(fs.store))
  }

  /** Files were created from an empty directory on: every entry is used. */
  ghost predicate Growing(s: Sys) {
    && SysInv(s) && 0 !in Dir.Inos(SFS_DIR, s.fs) && |s.pool.slabs| <= 1 + Dir.Len(SFS_DIR, s.fs)
    && PoolGrows(s.fs, Ino(s.fs, Dir.ROOT), Dir.Len(SFS_DIR, s.fs))
  }

  lemma IndirectStays(fs: Fs, ino: Inode, i: nat, blk: Block)
    requires ino.ptrs[IND] != 0
    ensures WriteBlock(fs, ino, i, blk).ino.ptrs[IND] == ino.ptrs[IND]
  {
  }

  lemma NoPoolStays(fs: Fs, ino: Inode, i: nat, blk: Block)
    requires fs.store.head == 0
    ensures WriteBlock(fs, ino, i, blk).fs.store.head == 0
  {
  }

  lemma UsesSlot(st: Store, e: nat)
    requires SlotsReady(st, e) && e + 1 < BLOCK_WORDS
    ensures Next(st) == st.blocks[st.head][e + 1] != 0 && Get(st.blocks, Next(st)) == ZERO_BLOCK
    ensures forall blk: Block :: SlotsReady(Alloc(st).(blocks := Put(Alloc(st).blocks, Next(st), blk)), e + 1)
  {
    var node := st.blocks[st.head];
    FirstUsedIs(node, 1, e + 1);
  }

  lemma {:induction false} FirstUsedIs(node: Block, i: nat, k: nat)
    requires i <= k < BLOCK_WORDS && node[k] != 0 && forall j :: i <= j < k ==> node[j] == 0
    ensures FirstUsed(node, i) == k
    decreases k - i
  {
    if i < k {
      FirstUsedIs(node, i + 1, k);
    }
  }

  lemma TakesLoneNode(st: Store)
    requires LoneNode(st)
    ensures Next(st) == st.head && Alloc(st).head == 0
  {
    assert FirstUsed(ZERO_BLOCK, 1) == BLOCK_WORDS;
  }

  /** Whatever block is written after the last, the pool then serves the directory as before, and no stale indirect
      block is met. */
  lemma GrowsOn(fs: Fs, len: nat, blk: Block)
    requires DiskInv(fs) && Agrees(fs, Ino(fs, Dir.ROOT)) && PoolGrows(fs, Ino(fs, Dir.ROOT), len)
    ensures Clean(fs, Ino(fs, Dir.ROOT), len)
    ensures var w := WriteBlock(fs, Ino(fs, Dir.ROOT), len, blk);
      PoolGrows(w.fs, w.ino, if w.ok then len + 1 else len)
  {
    hide StoreOk, Owned, TableOk, Alloc, Next, WriteBlock, SlotsReady, LoneNode;
    var root := Ino(fs, Dir.ROOT);
    var w := WriteBlock(fs, root, len, blk);
    if root.ptrs[IND] != 0 {
      IndirectStays(fs, root, len, blk);
    } else if fs.store.head == 0 {
      NoPoolStays(fs, root, len, blk);
      NextOfNone(fs.store);
    } else if len == 0 && LoneNode(fs.store) && root.ptrs == NO_PTRS {
      TakesLoneNode(fs.store);
      DirectWrite(fs, root, 0, blk, w);
    } else {
      UsesSlot(fs.store, len);
      if len < IND {
        DirectWrite(fs, root, len, blk, w);
      } else {
        GetsIndirect(fs, root, len, blk, w);
      }
    }
  }

  lemma NextOfNone(st: Store)
    requires st.head == 0
    ensures Next(st) == 0
  {
  }

  lemma GetsIndirect(fs: Fs, ino: Inode, i: nat, blk: Block, w: Written)
    requires TakesIndirect(fs, ino, i) && w == WriteBlock(fs, ino, i, blk)
    ensures w.ino.ptrs[IND] == Next(fs.store) != 0
  {
    hide Next, Alloc, WriteSlot;
    NewIndirectWrite(fs, ino, i, blk);
  }

  /** What sfs_dir_link does to the pool and to the directory's pointers. */
  lemma LinkWrites(fs: Fs, name: FileName, ino: Inode) returns (blk: Block, w: Written)
    requires DiskInv(fs) && Dir.DirOk(SFS_DIR, fs) && Agrees(fs, ino) && 2 <= ino.inumber && Dir.LinkClean(SFS_DIR, fs)
    ensures w == WriteBlock(fs, Ino(fs, Dir.ROOT), Dir.BlockNo(SFS_DIR, Dir.FirstEmpty(SFS_DIR, fs, 0)), blk)
    ensures Agrees(fs, Ino(fs, Dir.ROOT))
    ensures var l := Dir.Link(SFS_DIR, fs, name, ino);
      l.ok == w.ok && l.fs.store == w.fs.store && Ino(l.fs, Dir.ROOT).ptrs == w.ino.ptrs
  {
    hide StoreOk, Owned, Alloc, Next, Dir.PutEntry, Dir.Entry, Content, WriteBlock, InodesLinked;
    Dir.RootIsLive(fs);
    var h := Dir.FirstEmpty(SFS_DIR, fs, 0);
    var was := if h < Dir.Len(SFS_DIR, fs) then Content(fs, Dir.ROOT, Dir.BlockNo(SFS_DIR, h)) else ZERO_BLOCK;
    blk := Dir.PutEntry(SFS_DIR, was, Dir.SlotOf(SFS_DIR, h), [ino.inumber] + name);
    w := WriteBlock(fs, Ino(fs, Dir.ROOT), Dir.BlockNo(SFS_DIR, h), blk);
    Dir.RootWrite(fs, Dir.BlockNo(SFS_DIR, h), blk, w);
  }

  lemma AllUsed(fs: Fs)
    requires Dir.DirOk(SFS_DIR, fs) && 0 !in Dir.Inos(SFS_DIR, fs)
    ensures var len := Dir.Len(SFS_DIR, fs);
      Dir.FirstEmpty(SFS_DIR, fs, 0) == len && Dir.BlockNo(SFS_DIR, len) == len <= MAX_IBLOCKS
  {
    hide Dir.Entry;
    forall k | 0 <= k < Dir.Len(SFS_DIR, fs) ensures Dir.Used(SFS_DIR, fs, k) {
      assert Dir.Inos(SFS_DIR, fs)[k] in Dir.Inos(SFS_DIR, fs);
    }
    Dir.FirstEmptyIs(SFS_DIR, fs, Dir.Len(SFS_DIR, fs));
  }

  /** The disk's and the directory's side of a create. */
  lemma GrowingLink(s: Sys, name: FileName)
    requires Growing(s) && s.fs.ilist != [] && Dir.Lookup(SFS_DIR, s.fs, name) == 0
    ensures Dir.LinkClean(SFS_DIR, WithNewFile(s.fs)) && Dir.Len(SFS_DIR, s.fs) <= MAX_IBLOCKS
    ensures var l := Dir.Link(SFS_DIR, WithNewFile(s.fs), name, NewFile(s.fs));
      var len := Dir.Len(SFS_DIR, s.fs) + if l.ok then 1 else 0;
      Dir.Len(SFS_DIR, l.fs) == len && 0 !in Dir.Inos(SFS_DIR, l.fs) && PoolGrows(l.fs, Ino(l.fs, Dir.ROOT), len)
  {
    hide DiskInv, Content, Dir.DirOk, Dir.Lookup, Dir.Link, Refs, LinksOk, WithNewFile, NewFile, WriteBlock, Clean,
         Dir.FirstEmpty, Dir.BlockNo, Dir.Inos;
    var fs1, file := WithNewFile(s.fs), NewFile(s.fs);
    NewFileIsLinkable(s);
    SameRoot(s.fs);
    StoreOfNewFile(s.fs);
    var inos: seq<Word> := Dir.Inos(SFS_DIR, fs1);
    assert |inos| == Dir.Len(SFS_DIR, fs1) == Dir.Len(SFS_DIR, s.fs);
    AllUsed(fs1);
    Dir.RootIsLive(fs1);
    GrowsOn(fs1, |inos|, ZERO_BLOCK);
    var blk, w := LinkWrites(fs1, name, file);
    GrowsOn(fs1, |inos|, blk);
    var l := Dir.Link(SFS_DIR, fs1, name, file);
    Dir.LinkAddsOneEntry(SFS_DIR, fs1, name, file, l);
    assert Dir.NewInos(SFS_DIR, fs1, |inos|, file.inumber) == inos + [file.inumber];
    assert |Dir.Inos(SFS_DIR, l.fs)| == Dir.Len(SFS_DIR, l.fs);
  }

  lemma GrowingCreate(s: Sys, name: FileName)
    requires Growing(s) && s.fs.ilist != [] && Dir.Lookup(SFS_DIR, s.fs, name) == 0
    ensures var op := Create(name, false, 0); Enabled(s, op) && StepClean(s, op) && Growing(Step(s, op).0)
  {
    hide DiskInv, Content, Dir.DirOk, Fd.PoolOk, Fd.Settled, Fd.Opens, Dir.Lookup, Dir.Link, Refs, LinksOk, Dir.Inos,
         WithNewFile, NewFile, PoolGrows, Dir.Len, Dir.LinkClean;
    GrowingLink(s, name);
    OneMoreSlab(s.pool);
    NewFileIsLinkable(s);
    StepKeepsInv(s, Create(name, false, 0));
  }

  /** On a fresh disk files can be created until the inodes run out: no create meets stale data or too large a
      descriptor number. */
  lemma {:induction false} CreatesPermitted(s: Sys, names: seq<FileName>)
    requires Growing(s) && AllNew(s.fs, names) && |names| <= |s.fs.ilist|
    ensures Permitted(s, Creates(names))
    decreases names
  {
    hide Growing, Step, Enabled, StepClean, AllNew;
    if names != [] {
      var op, rest := Create(names[0], false, 0), names[1..];
      assert Creates(names)[0] == op && Creates(names)[1..] == Creates(rest);
      GrowingStep(s, names);
      CreatesPermitted(Step(s, op).0, rest);
    }
  }

  lemma GrowingStep(s: Sys, names: seq<FileName>)
    requires Growing(s) && AllNew(s.fs, names) && 0 < |names| <= |s.fs.ilist|
    ensures var op := Create(names[0], false, 0); var s' := Step(s, op).0;
      && Enabled(s, op) && StepClean(s, op)
      && Growing(s') && AllNew(s'.fs, names[1..]) && |s'.fs.ilist| == |s.fs.ilist| - 1
  {
    hide Growing, Step, Enabled, StepClean, Dir.Lookup, SysInv, Permitted, Run;
    var op := Create(names[0], false, 0);
    GrowingCreate(s, names[0]);
    GrowingIsSound(s);
    OneStep(s, op);
    NamesAfterStep(s, op);
    CreateTakesInode(s, names[0]);
  }

  lemma GrowingIsSound(s: Sys)
    requires Growing(s)
    ensures SysInv(s)
  {
  }

  lemma FreshGrows(data: seq<Block>, d: Disk)
    requires FreshDisk(data, d)
    ensures Growing(Start(data, d))
  {
    hide SysInv, FreshDisk, NewFs, Target, ListEnd, Dir.Len, Start;
    FreshIsNew(data, d);
    FreshIsBlank(data, d);
    if FreeCount(|data|) >= 64 {
      LargeNode(data, d);
    } else {
      SmallNode(data, d);
    }
  }

  // ---------------------------------------------------------------- past the end of the table

  /** On every fresh disk, once a file was created for each inode but the root's, creating one more aborts exactly if
      the inode in the unused block has number 0; a number of the table makes it go on with that inode, which is
      live. */
  lemma FullTable(data: seq<Block>, d: Disk, s: Sys, names: seq<FileName>, name: FileName)
    requires FreshDisk(data, d) && s == Start(data, d) && |names| == Count(s.fs) - 1
    requires (forall i, j :: 0 <= i < j < |names| ==> names[i] != names[j]) && name !in names
    ensures Permitted(s, Creates(names))
    ensures var s', n := Run(s, Creates(names)), EndInode(data).inumber; var ret := Step(s', Create(name, false, 0)).1;
      && (ret == Aborted <==> n == 0)
      && (1 <= n <= Count(s.fs) ==> Live(s'.fs, n) && Ino(WithNewFile(s'.fs), n) == Inode(n, 1, 0, NO_PTRS))
  {
    hide FreshDisk, Start, Run, Step, Permitted, Creates, Blank, Growing, EndInode, PastEnd, WithNewFile;
    FreshIsSound(data, d);
    FreshIsBlank(data, d);
    FreshGrows(data, d);
    BlankRunsOut(s, names, name);
  }

  lemma BlankRunsOut(s: Sys, names: seq<FileName>, name: FileName)
    requires Blank(s) && Growing(s) && |names| == Count(s.fs) - 1
    requires (forall i, j :: 0 <= i < j < |names| ==> names[i] != names[j]) && name !in names
    ensures Permitted(s, Creates(names))
    ensures var s', n := Run(s, Creates(names)), PastEnd(s.fs).inumber; var ret := Step(s', Create(name, false, 0)).1;
      && (ret == Aborted <==> n == 0)
      && (1 <= n <= Count(s.fs) ==> Live(s'.fs, n) && Ino(WithNewFile(s'.fs), n) == Inode(n, 1, 0, NO_PTRS))
  {
    hide SysInv, Growing, Run, Permitted, Step, Dir.Lookup, ListEnd, Creates, Target, Dir.Len, PastEnd, WithNewFile,
         NewFile;
    forall nm: FileName ensures Dir.Lookup(SFS_DIR, s.fs, nm) == 0 {
      Dir.LookupNone(SFS_DIR, s.fs, nm);
    }
    CreatesPermitted(s, names);
    CreatesExhaust(s, names, name);
    var s' := Run(s, Creates(names));
    SoundDisk(s');
    CreateAbortsIff(s', name, false, 0);
    if 1 <= PastEnd(s.fs).inumber <= Count(s.fs) {
      CreatePastTheTable(s', name, false, 0);
    }
  }

  lemma SoundDisk(s: Sys)
    requires SysInv(s)
    ensures DiskInv(s.fs)
  {
  }

  // ---------------------------------------------------------------- a directory entry that finds no room

  /** The only free block was mapped by r: nothing is left, and nothing else is mapped. */
  lemma UsesUp(fs: Fs, fs': Fs, h: Word, r: Ref)
    requires DiskInv(fs') && Conserves(fs, fs') && h != 0
    requires (forall x :: x in Free(fs.store) ==> x == h) && forall q :: Target(fs, q) == 0
    requires Target(fs', r) != 0
    ensures Free(fs'.store) == {} && forall q :: Target(fs', q) != 0 ==> q == r
  {
    hide StoreOk, TableOk, Free, Target;
    assert 0 !in Free(fs'.store) by { NoZero(fs'); }
    forall x: Word | x != 0 && Accounted(fs', x) ensures x == h {
      assert Accounted(fs, x);
    }
    assert Accounted(fs', Target(fs', r));
    forall q | Target(fs', q) != 0 ensures q == r {
      assert Accounted(fs', Target(fs', q));
    }
    forall x: Word ensures x !in Free(fs'.store) {
      assert x in Free(fs'.store) ==> Accounted(fs', x);
    }
  }

  lemma NoZero(fs: Fs)
    requires DiskInv(fs)
    ensures 0 !in Free(fs.store)
  {
    hide Free;
  }

  lemma OneFreeBlock(data: seq<Block>, d: Disk)
    requires FreshDisk(data, d) && FreeCount(|data|) < 64
    ensures Free(Start(data, d).fs.store) == {Head(|data|)}
  {
    hide Free, Indexed, FreshTable, TailOk, InodesFrom, FreshDisk, NewFs, ZeroTail, SysInv, PastEnd, EndInode,
         FormattedDisk;
    FreshIsNew(data, d);
    FreshIsSound(data, d);
    FormattedFreeBlocks(data, d);
    AllInList(FreeCount(|data|));
    StartStore(data, d);
    assert forall x: Word :: x in Free(Start(data, d).fs.store) <==> x == Head(|data|);
  }

  lemma StartStore(data: seq<Block>, d: Disk)
    requires NewDisk(data, d)
    ensures Start(data, d).fs.store == Store(d.super.head, ListOf(d.data, d.super.head), d.data)
  {
  }

  /** The directory after entry n was added to an empty one. */
  lemma FirstEntry(fs: Fs, fs': Fs, n: Word)
    requires Dir.Len(SFS_DIR, fs) == 0 && n != 0 && DiskInv(fs')
    requires Dir.Inos(SFS_DIR, fs') == Dir.NewInos(SFS_DIR, fs, 0, n)
    ensures Dir.Inos(SFS_DIR, fs') == [n] && Target(fs', Direct(Dir.ROOT, 0)) != 0
  {
    hide DiskInv, Content, Target, Dir.Entry;
    assert Dir.Used(SFS_DIR, fs', 0);
    Dir.UsedEntryIsMapped(SFS_DIR, fs', 0);
  }

  lemma CreateOnEmpty(s: Sys, name: FileName)
    requires SysInv(s) && s.fs.ilist != [] && Dir.Len(SFS_DIR, s.fs) == 0 && Free(s.fs.store) != {}
    requires Ino(s.fs, Dir.ROOT).ptrs == NO_PTRS && |Fd.Ready(s.pool).slabs| * Fd.SLOTS <= FD_LIMIT
    ensures var op := Create(name, false, 0); var (s', ret) := Step(s, op); var n := s.fs.ihead;
      && Enabled(s, op) && StepClean(s, op) && ret.Opened? && s'.orphans == s.orphans
      && s'.pool == Fd.Open(s.pool, n, 0).0
      && Ino(s'.fs, n) == Inode(n, 2, 0, NO_PTRS)
        && (forall m: Word :: m != Dir.ROOT && m != n ==> Ino(s'.fs, m) == Ino(s.fs, m))
      && s'.fs == Dir.Link(SFS_DIR, WithNewFile(s.fs), name, NewFile(s.fs)).fs
      && Dir.Inos(SFS_DIR, s'.fs) == [n] && Target(s'.fs, Direct(Dir.ROOT, 0)) != 0
  {
    hide DiskInv, Content, Dir.DirOk, Fd.PoolOk, Fd.Settled, Fd.Opens, Dir.Link, Refs, LinksOk, Free, Dir.Inos,
         Dir.NewInos, Target, Dir.Entry;
    var fs1, file, n := WithNewFile(s.fs), NewFile(s.fs), s.fs.ihead;
    Dir.LookupNone(SFS_DIR, s.fs, name);
    NewFileIsLinkable(s);
    SameRoot(s.fs);
    assert Dir.Len(SFS_DIR, fs1) == 0 && Dir.FirstEmpty(SFS_DIR, fs1, 0) == 0;
    CreateFailsIff(s, name, false, 0);
    var l := Dir.Link(SFS_DIR, fs1, name, file);
    Dir.LinkAddsOneEntry(SFS_DIR, fs1, name, file, l);
    FirstEntry(fs1, l.fs, n);
  }

  lemma SameRoot(fs: Fs)
    requires DiskInv(fs) && fs.ilist != []
    ensures Ino(fs, fs.ihead).inumber == fs.ihead
    ensures forall m: Word :: m != fs.ihead ==> Ino(WithNewFile(fs), m) == Ino(fs, m)
    ensures fs.ihead != Dir.ROOT
  {
    hide StoreOk, Owned;
    FreeInodesInRange(fs.inodes, Count(fs), fs.ihead, fs.ilist);
    NewInodeTable(fs, NewFile(fs));
  }

  lemma CreateWithoutRoom(s: Sys, name: FileName, n: Word)
    requires SysInv(s) && s.fs.ilist != [] && Dir.Lookup(SFS_DIR, s.fs, name) == 0
    requires n != 0 && Dir.Inos(SFS_DIR, s.fs) == [n] && Free(s.fs.store) == {}
    requires Ino(s.fs, Dir.ROOT).ptrs[1] == 0 && |Fd.Ready(s.pool).slabs| * Fd.SLOTS <= FD_LIMIT
    ensures var op := Create(name, false, 0); var (s', ret) := Step(s, op);
      Enabled(s, op) && StepClean(s, op) && ret == Failed && s'.orphans == s.orphans + {s.fs.ihead}
  {
    hide DiskInv, Content, Dir.DirOk, Fd.PoolOk, Fd.Settled, Fd.Opens, Dir.Link, Refs, LinksOk, Free, Target, Dir.Entry,
         Dir.Lookup, WithNewFile, NewFile, Step;
    var fs1 := WithNewFile(s.fs);
    NewFileIsLinkable(s);
    SameRoot(s.fs);
    assert Dir.Inos(SFS_DIR, fs1)[0] == n;
    Dir.FirstEmptyIs(SFS_DIR, fs1, 1);
    CreateFailsIff(s, name, false, 0);
  }

  /** The state after the first create. */
  lemma FirstFile(s: Sys, a: FileName) returns (s': Sys)
    requires Blank(s) && Free(s.fs.store) != {}
    ensures var op := Create(a, false, 0);
      && s' == Step(s, op).0 && Step(s, op).1.Opened? && Enabled(s, op) && StepClean(s, op) && SysInv(s')
      && Conserves(s.fs, s'.fs) && s'.orphans == {} && s'.pool == Fd.Open(s.pool, 2, 0).0
      && Dir.Inos(SFS_DIR, s'.fs) == [2] && Target(s'.fs, Direct(Dir.ROOT, 0)) != 0
      && (forall nm: Dir.Name :: Dir.Lookup(SFS_DIR, s'.fs, nm) == if nm == a then 2 else 0)
      && Ino(s'.fs, 2) == Inode(2, 2, 0, NO_PTRS)
      && s'.fs == Dir.Link(SFS_DIR, WithNewFile(s.fs), a, NewFile(s.fs)).fs
      && s'.fs.ilist == s.fs.ilist[1..]
  {
    hide SysInv, Step, Enabled, StepClean, Dir.Lookup, Free, Target, Conserves, Dir.Inos, NewFile, WithNewFile, ListEnd,
         Dir.Len;
    var op := Create(a, false, 0);
    s' := Step(s, op).0;
    forall nm: Dir.Name ensures Dir.Lookup(SFS_DIR, s.fs, nm) == 0 {
      Dir.LookupNone(SFS_DIR, s.fs, nm);
    }
    CreateOnEmpty(s, a);
    StepKeepsInv(s, op);
    StepConservesIff(s, op);
    NamesAfterStep(s, op);
    EmptyRun(s');
    Prepend(s, op, []);
    CreateTakesInode(s, a);
  }

  /** On a fresh disk of at most 32 blocks there is one free block, and inodes for two files. The first file's entry
      takes the block. The second file finds no room for its entry, and its inode is left behind. */
  lemma SmallDiskRun(data: seq<Block>, d: Disk, s: Sys, a: FileName, b: FileName)
    requires FreshDisk(data, d) && s == Start(data, d) && |data| <= 32 && a != b
    ensures var (s1, ret1) := Step(s, Create(a, false, 0)); var (s2, ret2) := Step(s1, Create(b, false, 0));
      && Permitted(s, [Create(a, false, 0), Create(b, false, 0)])
      && ret1.Opened?
      && ret2 == Failed && s2.orphans == {3}
  {
    hide FreshDisk, Start, Free, Blank, Step, Permitted, NewFs;
    FreshIsBlank(data, d);
    SmallTable(data, d);
    FreshIsNew(data, d);
    OneFreeBlock(data, d);
    assert s.fs == Start(data, d).fs;
    TwoCreates(s, Head(|data|), a, b);
  }

  /** Two failing inputs: a disk of 4 blocks that was zero, and the same with a 1 at the start of block 2. Both run
      out of inodes with two files. Creating a third aborts on the first disk; on the second one it empties the root
      directory. */
  lemma RootIsEmptied(data: seq<Block>, d: Disk, s: Sys, a: FileName, b: FileName, c: FileName)
    requires FreshDisk(data, d) && s == Start(data, d) && |data| == 4 && a != b && a != c && b != c
    ensures var s2 := Run(s, [Create(a, false, 0), Create(b, false, 0)]);
      && Permitted(s, [Create(a, false, 0), Create(b, false, 0)])
      && Dir.Lookup(SFS_DIR, s2.fs, a) == 2
      && (data[2][0] == 0 ==> Step(s2, Create(c, false, 0)).1 == Aborted)
      && (data[2][0] == 1 ==>
            Ino(WithNewFile(s2.fs), Dir.ROOT).size == 0 && Dir.Lookup(SFS_DIR, WithNewFile(s2.fs), a) == 0)
  {
    hide FreshDisk, Start, Free, Blank, Step, Permitted, NewFs, Run, PastEnd, WithNewFile, Growing;
    FreshIsBlank(data, d);
    SmallTable(data, d);
    FreshIsNew(data, d);
    OneFreeBlock(data, d);
    assert s.fs == Start(data, d).fs;
    TwoCreates(s, Head(|data|), a, b);
    assert Creates([a, b]) == [Create(a, false, 0), Create(b, false, 0)];
    var s2 := Run(s, Creates([a, b]));
    FullTable(data, d, s, [a, b], c);
    if data[2][0] == 1 {
      Dir.LookupNone(SFS_DIR, WithNewFile(s2.fs), a);
    }
  }

  lemma TwoCreates(s: Sys, h: Word, a: FileName, b: FileName)
    requires Blank(s) && Free(s.fs.store) == {h} && h != 0 && a != b
    ensures var op1, op2 := Create(a, false, 0), Create(b, false, 0);
      var (s1, ret1) := Step(s, op1); var (s2, ret2) := Step(s1, op2);
      && Permitted(s, [op1, op2]) && Run(s, [op1, op2]) == s2 && ret1.Opened? && ret2 == Failed && s2.orphans == {3}
      && Dir.Lookup(SFS_DIR, s2.fs, a) == 2
  {
    hide SysInv, Step, Enabled, StepClean, Dir.Lookup, Free, Target, Conserves, Dir.Inos, NewFile, WithNewFile, ListEnd,
         Dir.Len, Run, Permitted, Dir.Link;
    var op1, op2 := Create(a, false, 0), Create(b, false, 0);
    var s1 := FirstFile(s, a);
    SecondInode(s, s1);
    RootPointers(s, s1, h);
    CreateWithoutRoom(s1, b, 2);
    NamesAfterStep(s1, op2);
    EmptyRun(Step(s1, op2).0);
    Prepend(s1, op2, []);
    Prepend(s, op1, [op2] + []);
    assert [op1] + ([op2] + []) == [op1, op2];
  }

  lemma SecondInode(s: Sys, s': Sys)
    requires Blank(s) && SysInv(s') && s'.fs.ilist == s.fs.ilist[1..]
    ensures s'.fs.ilist != [] && s'.fs.ihead == s.fs.ilist[1]
  {
    hide StoreOk, Owned, Target, ListEnd;
  }

  lemma RootPointers(s: Sys, s': Sys, h: Word)
    requires Blank(s) && Free(s.fs.store) == {h} && h != 0 && SysInv(s') && Conserves(s.fs, s'.fs)
    requires Target(s'.fs, Direct(Dir.ROOT, 0)) != 0
    ensures Free(s'.fs.store) == {} && Ino(s'.fs, Dir.ROOT).ptrs[1] == 0
  {
    hide StoreOk, Owned, Target, ListEnd, Free, Conserves, LinksOk, Dir.DirOk, TableOk;
    UsesUp(s.fs, s'.fs, h, Direct(Dir.ROOT, 0));
    Dir.RootIsLive(s'.fs);
    assert Target(s'.fs, Direct(Dir.ROOT, 1)) == Ino(s'.fs, Dir.ROOT).ptrs[1] by { RootTarget(s'.fs); }
  }

  lemma RootTarget(fs: Fs)
    requires Live(fs, Dir.ROOT)
    ensures Target(fs, Direct(Dir.ROOT, 1)) == Ino(fs, Dir.ROOT).ptrs[1]
  {
  }

  lemma SmallTable(data: seq<Block>, d: Disk)
    requires FreshDisk(data, d) && |data| <= 32
    ensures Count(Start(data, d).fs) == 3 && FreeCount(|data|) < 64
  {
  }

  // ---------------------------------------------------------------- one step at a time

  /** The free list begins with node h, which holds these words; block x holds stale. */
  ghost predicate PoolIs(st: Store, h: Word, node: Block, x: Word, stale: Block) {
    && st.head == h && st.chain != [] && st.chain[0] == h && 0 < h < |st.blocks| && st.blocks[h] == node
    && x != h && x < |st.blocks| && st.blocks[x] == stale
  }

  lemma TakeSlot(st: Store, h: Word, node: Block, x: Word, stale: Block, i: nat)
    requires PoolIs(st, h, node, x, stale) && FirstUsed(node, 1) == i < BLOCK_WORDS
    ensures Next(st) == node[i] && PoolIs(Alloc(st), h, SetWord(node, i, 0), x, stale)
  {
  }

  lemma PutOther(st: Store, h: Word, node: Block, x: Word, stale: Block, p: Word, blk: Block)
    requires PoolIs(st, h, node, x, stale) && p != h && p < |st.blocks|
    ensures PoolIs(st.(blocks := Put(st.blocks, p, blk)), h, node, x, if p == x then blk else stale)
  {
  }

  /** Writing a direct block that is a hole, or one that is there. */
  lemma DirectWrite(fs: Fs, ino: Inode, i: nat, blk: Block, w: Written)
    requires DiskInv(fs) && Agrees(fs, ino) && i < NDIR && w == WriteBlock(fs, ino, i, blk)
    requires ino.ptrs[i] == 0 ==> Next(fs.store) != 0
    ensures w.ok && Ino(w.fs, ino.inumber) == w.ino
      && (forall m: Word :: m != ino.inumber ==> Ino(w.fs, m) == Ino(fs, m))
    ensures ino.ptrs[i] == 0 ==>
      && w.fs.store == Alloc(fs.store).(blocks := Put(Alloc(fs.store).blocks, Next(fs.store), blk))
      && w.ino == SetPtr(ino, i, Next(fs.store))
    ensures ino.ptrs[i] != 0 ==>
      w.fs.store == fs.store.(blocks := Put(fs.store.blocks, ino.ptrs[i], blk)) && w.ino == ino
        && ino.ptrs[i] !in Free(fs.store)
  {
    hide StoreOk, TableOk, Next, Alloc, Free;
    WriteBlockRefinesMap(fs, ino, i, blk, w);
    AllocTakesOne(fs.store, Lo(fs));
    assert Target(fs, Direct(ino.inumber, i)) == ino.ptrs[i];
  }

  /** The inode, and the file system, as sfs_write leaves them before its first block. */
  function Sized(s: Sys, n: Word, end: Word): Inode { Extended(Ino(s.fs, n), end) }

  /** A write of one block through an open descriptor. */
  lemma OneBlock(s: Sys, fd: nat, n: Word, end: Word, i: nat, blk: Block)
    requires SysInv(s) && OpenAt(s, fd) == n != 0
    ensures var op := Write(fd, end, i, [blk]); var ino := Sized(s, n, end); var fs := SetIno(s.fs, ino);
      var w := WriteBlock(fs, ino, i, blk); var s' := Step(s, op).0;
      && Enabled(s, op) && (StepClean(s, op) <==> Clean(fs, ino, i))
      && DiskInv(fs) && Agrees(fs, ino) && ino.inumber == n && fs.store == s.fs.store && 2 <= n
      && (forall m: Word :: m != n ==> Ino(fs, m) == Ino(s.fs, m))
      && s' == s.(fs := w.fs)
  {
    hide Content, Dir.DirOk, Fd.PoolOk, Fd.Settled, Fd.Opens, Dir.Lookup, WriteBlock, Refs, LinksOk, StoreOk, Owned,
         TableOk;
    assert IsOpen(s, fd) && Fd.Deref(s.pool.slabs, Fd.GetFromFd(s.pool, fd)).shared.n == n;
    OpenIsLive(s, fd);
    LiveNumberOfOpen(s, fd);
    var ino := Sized(s, n, end);
    UpdateIno(s.fs, ino);
    SetLiveIno(s.fs, ino);
    OneBlockRun(SetIno(s.fs, ino), ino, i, blk);
  }

  lemma OneBlockRun(fs: Fs, ino: Inode, i: nat, blk: Block)
    ensures WriteRun(fs, ino, i, [blk]).fs == WriteBlock(fs, ino, i, blk).fs
    ensures RunClean(fs, ino, i, [blk]) <==> Clean(fs, ino, i)
  {
    hide WriteBlock, Clean;
    var w := WriteBlock(fs, ino, i, blk);
    assert [blk][1..] == [];
    assert RunClean(w.fs, w.ino, i + 1, []) && WriteRun(w.fs, w.ino, i + 1, []) == Written(w.fs, w.ino, true);
  }

  // ---------------------------------------------------------------- runs on larger disks

  /** The list begins with node h; its first two slots name dd and x; block x is zero. */
  ghost predicate FullFirst(st: Store, h: Word, dd: Word, x: Word, node: Block) {
    && PoolIs(st, h, node, x, ZERO_BLOCK)
    && 0 < dd < |st.blocks| && dd != h && dd != x && 0 < x && node[1] == dd && node[2] == x
  }

  lemma LargePool(data: seq<Block>, d: Disk) returns (h: Word, dd: Word, x: Word, node: Block)
    requires FreshDisk(data, d) && FreeCount(|data|) >= 64
    ensures FullFirst(Start(data, d).fs.store, h, dd, x, node)
  {
    hide FreshDisk, NewFs, Start;
    FreshIsNew(data, d);
    LargeNode(data, d);
    h, dd, x := Head(|data|), FirstData(|data|), FirstData(|data|) + 1;
    node := Start(data, d).fs.store.blocks[h];
  }

  /** One file, inode 2, with one name and one descriptor; dd is the directory's only block. */
  ghost predicate HasFile(s: Sys, a: FileName, fd: nat, dd: Word) {
    && SysInv(s) && Dir.Inos(SFS_DIR, s.fs) == [2] && |s.pool.slabs| <= 2
    && (forall nm: Dir.Name :: Dir.Lookup(SFS_DIR, s.fs, nm) == if nm == a then 2 else 0)
    && OpenAt(s, fd) == 2 && Ino(s.fs, 2).links == 2 && Ino(s.fs, Dir.ROOT).ptrs[0] == dd != 0
  }

  lemma FirstOfMany(s: Sys, a: FileName, h: Word, dd: Word, x: Word, node: Block) returns (s': Sys, fd: nat)
    requires Blank(s) && FullFirst(s.fs.store, h, dd, x, node)
    ensures var op := Create(a, false, 0);
      && s' == Step(s, op).0 && Enabled(s, op) && StepClean(s, op)
      && HasFile(s', a, fd, dd) && Ino(s'.fs, 2) == Inode(2, 2, 0, NO_PTRS)
      && PoolIs(s'.fs.store, h, SetWord(node, 1, 0), x, ZERO_BLOCK)
  {
    hide SysInv, Step, Enabled, StepClean, Dir.Lookup, Free, Target, Conserves, Dir.Inos, NewFile, WithNewFile, ListEnd,
         Dir.Len, Dir.Link, Alloc, Next, PoolIs;
    HeadIsFree(s.fs.store, h, dd, x, node);
    s' := FirstFile(s, a);
    fd := Step(s, Create(a, false, 0)).1.fd;
    DescriptorsAfterStep(s, Create(a, false, 0));
    OneMoreSlab(s.pool);
    FirstLink(s, a, h, dd, x, node);
  }

  lemma OneMoreSlab(pool: Fd.Pool)
    ensures forall n, flags :: |Fd.Open(pool, n, flags).0.slabs| <= |pool.slabs| + 1
  {
  }

  lemma FirstLink(s: Sys, a: FileName, h: Word, dd: Word, x: Word, node: Block)
    requires Blank(s) && FullFirst(s.fs.store, h, dd, x, node)
    ensures var fs' := Dir.Link(SFS_DIR, WithNewFile(s.fs), a, NewFile(s.fs)).fs;
      Ino(fs', Dir.ROOT).ptrs[0] == dd && PoolIs(fs'.store, h, SetWord(node, 1, 0), x, ZERO_BLOCK)
  {
    hide DiskInv, Dir.DirOk, LinksOk, Dir.Lookup, Free, Target, Conserves, Dir.Inos, NewFile, WithNewFile, ListEnd,
         Dir.Link, Alloc, Next, WriteBlock;
    var fs1 := WithNewFile(s.fs);
    HeadIsFree(s.fs.store, h, dd, x, node);
    NewFileIsLinkable(s);
    SameRoot(s.fs);
    StoreOfNewFile(s.fs);
    var blk, w := LinkWrites(fs1, a, NewFile(s.fs));
    DirectWrite(fs1, Ino(fs1, Dir.ROOT), 0, blk, w);
    PutOther(Alloc(s.fs.store), h, SetWord(node, 1, 0), x, ZERO_BLOCK, dd, blk);
  }

  lemma HeadIsFree(st: Store, h: Word, dd: Word, x: Word, node: Block)
    requires FullFirst(st, h, dd, x, node)
    ensures Free(st) != {} && Next(st) == dd
    ensures |Alloc(st).blocks| == |st.blocks| && PoolIs(Alloc(st), h, SetWord(node, 1, 0), x, ZERO_BLOCK)
  {
    NodesAreFree(st.blocks, st.chain);
    assert st.chain[0] in st.chain;
    TakeSlot(st, h, node, x, ZERO_BLOCK, 1);
  }

  lemma WriteKeepsFile(s: Sys, a: FileName, fd: nat, dd: Word, end: Word, i: nat, blk: Block)
    requires HasFile(s, a, fd, dd) && StepClean(s, Write(fd, end, i, [blk]))
    ensures HasFile(Step(s, Write(fd, end, i, [blk])).0, a, fd, dd)
    ensures var ino := Sized(s, 2, end); var w := WriteBlock(SetIno(s.fs, ino), ino, i, blk);
      Step(s, Write(fd, end, i, [blk])).0.fs == w.fs && Ino(w.fs, 2) == w.ino
  {
    hide DiskInv, Content, Dir.DirOk, Fd.PoolOk, Fd.Settled, Fd.Opens, Dir.Lookup, WriteBlock, Refs, LinksOk, Dir.Inos,
         Step, Clean, StepClean, Enabled;
    var op := Write(fd, end, i, [blk]);
    OneBlock(s, fd, 2, end, i, blk);
    StepKeepsInv(s, op);
    NamesAfterStep(s, op);
    DescriptorsAfterStep(s, op);
    var ino := Sized(s, 2, end);
    var fs := SetIno(s.fs, ino);
    WriteBlockRefinesMap(fs, ino, i, blk, WriteBlock(fs, ino, i, blk));
    RootUntouched(s.fs, fs, ino, i, blk, WriteBlock(fs, ino, i, blk));
  }

  lemma RootUntouched(fs0: Fs, fs: Fs, ino: Inode, i: nat, blk: Block, w: Written)
    requires DiskInv(fs0) && Dir.DirOk(SFS_DIR, fs0) && Live(fs0, ino.inumber) && 2 <= ino.inumber
    requires fs == SetIno(fs0, ino) && ino.ptrs == Ino(fs0, ino.inumber).ptrs && WriteEffect(fs, ino, i, blk, w)
    ensures Dir.Inos(SFS_DIR, w.fs) == Dir.Inos(SFS_DIR, fs0) && Ino(w.fs, Dir.ROOT) == Ino(fs0, Dir.ROOT)
  {
    hide DiskInv, Content, Conserves, Dir.Inos;
    Dir.RootIsLive(fs0);
    UpdateIno(fs0, ino);
    forall k: nat | k < MAX_IBLOCKS ensures Content(w.fs, Dir.ROOT, k) == Content(fs0, Dir.ROOT, k) {
      assert Live(fs, Dir.ROOT);
      assert Content(w.fs, Dir.ROOT, k) == Content(fs, Dir.ROOT, k);
    }
    Dir.EntriesKept(SFS_DIR, fs0, w.fs);
  }

  /** No names; the file is kept by its descriptor alone. */
  ghost predicate Unnamed(s: Sys, fd: nat, dd: Word) {
    && SysInv(s) && Dir.Inos(SFS_DIR, s.fs) == [0] && |s.pool.slabs| <= 2
    && (forall nm: Dir.Name :: Dir.Lookup(SFS_DIR, s.fs, nm) == 0)
    && OpenAt(s, fd) == 2 && Ino(s.fs, 2).links == 1 && Ino(s.fs, Dir.ROOT).ptrs[0] == dd != 0
  }

  lemma UnlinkFile(s: Sys, a: FileName, fd: nat, dd: Word) returns (s': Sys, blk: Block)
    requires HasFile(s, a, fd, dd)
    ensures s' == Step(s, Unlink(a)).0 && Enabled(s, Unlink(a)) && StepClean(s, Unlink(a)) && Unnamed(s', fd, dd)
    ensures Ino(s'.fs, 2).ptrs == Ino(s.fs, 2).ptrs
    ensures s'.fs.store == s.fs.store.(blocks := Put(s.fs.store.blocks, dd, blk)) && dd !in Free(s.fs.store)
  {
    hide DiskInv, Content, Dir.DirOk, Fd.PoolOk, Fd.Settled, Fd.Opens, Refs, LinksOk, Dir.Inos, Dir.Unlink,
         Dir.LosesBlocks, Dir.Entry, Free;
    s' := Step(s, Unlink(a)).0;
    StepKeepsInv(s, Unlink(a));
    NamesAfterStep(s, Unlink(a));
    DescriptorsAfterStep(s, Unlink(a));
    assert Dir.Len(SFS_DIR, s.fs) == |Dir.Inos(SFS_DIR, s.fs)| == 1 && Dir.Lookup(SFS_DIR, s.fs, a) == 2;
    EntryIsLive(s, 0);
    assert Dir.EntryIno(Dir.Entry(SFS_DIR, s.fs, 0)) == Dir.Inos(SFS_DIR, s.fs)[0];
    blk := UnlinkFirst(s.fs);
    assert s'.fs == Dir.Unlink(SFS_DIR, s.fs, 0);
  }

  lemma UnlinkFirst(fs: Fs) returns (blk: Block)
    requires DiskInv(fs) && Dir.DirOk(SFS_DIR, fs) && Dir.Inos(SFS_DIR, fs) == [2] && Live(fs, 2)
      && Ino(fs, 2).links == 2
    ensures var fs', dd := Dir.Unlink(SFS_DIR, fs, 0), Ino(fs, Dir.ROOT).ptrs[0];
      && Ino(fs', 2) == Dec(Ino(fs, 2)) && Ino(fs', Dir.ROOT).ptrs == Ino(fs, Dir.ROOT).ptrs
      && Dir.Inos(SFS_DIR, fs') == [0]
      && dd != 0 && dd !in Free(fs.store) && fs'.store == fs.store.(blocks := Put(fs.store.blocks, dd, blk))
  {
    hide StoreOk, Owned, TableOk, Content, Dir.ClearEntry, Conserves, WriteBlock, Target, Free, Dir.Entry;
    var inos := Dir.Inos(SFS_DIR, fs);
    assert inos[0] == 2 && Dir.Used(SFS_DIR, fs, 0);
    LiveNumber(fs, 2);
    Dir.RootIsLive(fs);
    Dir.DropLinkEffect(fs, 2);
    var mid := Dir.DropLink(fs, 2);
    blk := Dir.ClearEntry(SFS_DIR, Content(fs, Dir.ROOT, 0), 0);
    Dir.UsedEntryIsMapped(SFS_DIR, fs, 0);
    RootPointer(fs, 0);
    DirectWrite(mid, Ino(mid, Dir.ROOT), 0, blk, WriteBlock(mid, Ino(mid, Dir.ROOT), 0, blk));
    Dir.UnlinkRemovesEntry(SFS_DIR, fs, 0, Dir.Unlink(SFS_DIR, fs, 0));
  }

  lemma RootPointer(fs: Fs, i: nat)
    requires Live(fs, Dir.ROOT) && i < NDIR
    ensures Target(fs, Direct(Dir.ROOT, i)) == Ino(fs, Dir.ROOT).ptrs[i]
  {
  }

  /** A release that frees an inode with an indirect block. On every fresh disk with a list of 64 or more blocks: a file
      is created, its logical block 12 written, its name unlinked; closing it then loses blocks. */
  lemma LossRun(data: seq<Block>, d: Disk, s: Sys, a: FileName, end: Word, blk: Block) returns (ops: seq<Op>, last: Op)
    requires FreshDisk(data, d) && s == Start(data, d) && FreeCount(|data|) >= 64
    ensures |ops| == 3 && Permitted(s, ops)
    ensures var s' := Run(s, ops);
      last.Release? && Permitted(s', [last]) && LosesBlocks(s', last) && !Conserves(s'.fs, Step(s', last).0.fs)
  {
    hide FreshDisk, Start, Blank, FullFirst;
    FreshIsBlank(data, d);
    var h, dd, x, node := LargePool(data, d);
    ops, last := LossFrom(s, a, h, dd, x, node, end, blk);
  }

  lemma LossFrom(s: Sys, a: FileName, h: Word, dd: Word, x: Word, node: Block, end: Word, blk: Block)
    returns (ops: seq<Op>, last: Op)
    requires Blank(s) && FullFirst(s.fs.store, h, dd, x, node)
    ensures |ops| == 3 && Permitted(s, ops)
    ensures var s' := Run(s, ops);
      last.Release? && Permitted(s', [last]) && LosesBlocks(s', last) && !Conserves(s'.fs, Step(s', last).0.fs)
  {
    hide Blank, HasFile, Unnamed, Step, Enabled, StepClean, PoolIs, WriteBlock, Free, Conserves, LosesBlocks, Permitted,
         Run, SysInv;
    var s1, fd := FirstOfMany(s, a, h, dd, x, node);
    var op2 := Write(fd, end, NDIR, [blk]);
    TakesSecond(s1, a, fd, dd, h, x, SetWord(node, 1, 0), node[2], end, blk);
    WriteKeepsFile(s1, a, fd, dd, end, NDIR, blk);
    var s2 := Step(s1, op2).0;
    var s3, cleared := UnlinkFile(s2, a, fd, dd);
    last := Release(fd);
    LastReference(s3, fd, dd);
    StepConservesIff(s3, last);
    EmptyRun(s3);
    Prepend(s2, Unlink(a), []);
    Prepend(s1, op2, [Unlink(a)] + []);
    Prepend(s, Create(a, false, 0), [op2] + ([Unlink(a)] + []));
    ops := [Create(a, false, 0)] + ([op2] + ([Unlink(a)] + []));
    OneStep(s3, last);
  }

  /** A write to logical block 12 makes x, which is clean, the indirect block. */
  lemma TakesSecond(s: Sys, a: FileName, fd: nat, dd: Word, h: Word, x: Word, node: Block, second: Word, end: Word,
      blk: Block)
    requires HasFile(s, a, fd, dd) && Ino(s.fs, 2) == Inode(2, 2, 0, NO_PTRS)
    requires PoolIs(s.fs.store, h, node, x, ZERO_BLOCK) && node[1] == 0 && node[2] == second == x && x != 0
    ensures Enabled(s, Write(fd, end, NDIR, [blk])) && StepClean(s, Write(fd, end, NDIR, [blk]))
    ensures var ino := Sized(s, 2, end); var w := WriteBlock(SetIno(s.fs, ino), ino, NDIR, blk); w.ino.ptrs[IND] == x
  {
    hide Step, Alloc, Dir.Inos, Dir.Lookup, SysInv, WriteSlot;
    OneBlock(s, fd, 2, end, NDIR, blk);
    TakeSlot(s.fs.store, h, node, x, ZERO_BLOCK, 2);
    var ino := Sized(s, 2, end);
    var fs := SetIno(s.fs, ino);
    NewIndirectWrite(fs, ino, NDIR, blk);
  }

  lemma LastReference(s: Sys, fd: nat, dd: Word)
    requires Unnamed(s, fd, dd)
    ensures SysInv(s) && Enabled(s, Release(fd)) && StepClean(s, Release(fd)) && IsOpen(s, fd)
    ensures Fd.Deref(s.pool.slabs, Fd.GetFromFd(s.pool, fd)).shared.n == 2
    ensures LosesBlocks(s, Release(fd)) <==> Ino(s.fs, 2).ptrs[IND] != 0
  {
    hide SysInv, Dir.Lookup, Dir.Inos;
  }

  // ---------------------------------------------------------------- a stale block becomes an indirect block

  lemma {:induction false} NoneToFree(st: Store, ptrs: Ptrs, i: nat)
    requires i <= NDIR && forall k :: i <= k < NDIR ==> ptrs[k] == 0
    ensures FreeDirect(st, ptrs, i) == st
    decreases NDIR - i
  {
    if i < NDIR {
      NoneToFree(st, ptrs, i + 1);
    }
  }

  /** A freed block goes to the empty first slot, and keeps what it held. */
  lemma GiveBack(st: Store, h: Word, node: Block, x: Word, stale: Block)
    requires PoolIs(st, h, node, x, stale) && node[1] == 0 && x != 0
    ensures PoolIs(FreeList.Release(st, x), h, SetWord(node, 1, x), x, stale)
  {
    assert st.chain[0] in st.chain;
  }

  /** The last close of a file with one block. */
  lemma CloseLast(s: Sys, fd: nat, dd: Word, x: Word) returns (s': Sys)
    requires Unnamed(s, fd, dd) && Ino(s.fs, 2).ptrs == NO_PTRS[0 := x] && x != 0
    ensures s' == Step(s, Release(fd)).0 && SysInv(s') && Dir.Inos(SFS_DIR, s'.fs) == [0] && |s'.pool.slabs| <= 2
    ensures forall nm: Dir.Name :: Dir.Lookup(SFS_DIR, s'.fs, nm) == 0
    ensures s'.fs.ihead == 2 && s'.fs.ilist != [] && s'.fs.store == FreeList.Release(s.fs.store, x)
    ensures Ino(s'.fs, Dir.ROOT) == Ino(s.fs, Dir.ROOT)
  {
    hide DiskInv, Content, Dir.DirOk, Fd.PoolOk, Fd.Settled, Fd.Opens, Dir.Lookup, Refs, LinksOk, Dir.Inos, Enabled,
         StepClean, FreeDirect;
    var op := Release(fd);
    s' := Step(s, op).0;
    LastReference(s, fd, dd);
    StepKeepsInv(s, op);
    NamesAfterStep(s, op);
    OpenIsLive(s, fd);
    LinksPositive(s, 2);
    DropKeepsDirectory(s.fs, 2);
    LiveNumber(s.fs, 2);
    FreeOne(s.fs.store, Ino(s.fs, 2).ptrs, x);
    LiveInRange(s.fs, 2);
  }

  lemma FreeOne(st: Store, ptrs: Ptrs, x: Word)
    requires ptrs == NO_PTRS[0 := x] && x != 0
    ensures FreeDirect(st, ptrs, 0) == FreeList.Release(st, x)
  {
    NoneToFree(FreeList.Release(st, x), ptrs, 1);
  }

  lemma LiveInRange(fs: Fs, n: Word)
    requires DiskInv(fs) && Live(fs, n)
    ensures 1 <= n <= |fs.inodes|
  {
  }

  /** Creating a file when the directory has one block with an empty entry. */
  lemma CreateAgain(s: Sys, b: FileName, dd: Word) returns (s': Sys, fd: nat, blk: Block)
    requires SysInv(s) && Dir.Inos(SFS_DIR, s.fs) == [0] && |s.pool.slabs| <= 2 && Dir.Lookup(SFS_DIR, s.fs, b) == 0
    requires s.fs.ihead == 2 && s.fs.ilist != [] && Ino(s.fs, Dir.ROOT).ptrs[0] == dd != 0
    ensures var op := Create(b, false, 0); s' == Step(s, op).0 && Enabled(s, op) && StepClean(s, op)
    ensures SysInv(s') && OpenAt(s', fd) == 2 && Ino(s'.fs, 2) == Inode(2, 2, 0, NO_PTRS)
    ensures s'.fs.store == s.fs.store.(blocks := Put(s.fs.store.blocks, dd, blk)) && dd !in Free(s.fs.store)
  {
    hide DiskInv, Content, Dir.DirOk, Fd.PoolOk, Fd.Settled, Fd.Opens, Dir.Link, Refs, LinksOk, Free, Dir.Inos,
         Dir.NewInos, Target, Dir.Entry, Dir.Lookup, WithNewFile, NewFile, WriteBlock;
    var op := Create(b, false, 0);
    var fs1, file := WithNewFile(s.fs), NewFile(s.fs);
    s' := Step(s, op).0;
    NewFileIsLinkable(s);
    SameRoot(s.fs);
    StoreOfNewFile(s.fs);
    FirstIsEmpty(fs1);
    CreateFailsIff(s, b, false, 0);
    StepKeepsInv(s, op);
    NamesAfterStep(s, op);
    DescriptorsAfterStep(s, op);
    fd := Step(s, op).1.fd;
    var w: Written;
    blk, w := LinkWrites(fs1, b, file);
    DirectWrite(fs1, Ino(fs1, Dir.ROOT), 0, blk, w);
    Dir.LinkAddsOneEntry(SFS_DIR, fs1, b, file, Dir.Link(SFS_DIR, fs1, b, file));
  }

  lemma FirstIsEmpty(fs: Fs)
    requires Dir.Inos(SFS_DIR, fs) == [0]
    ensures Dir.FirstEmpty(SFS_DIR, fs, 0) == 0
  {
    hide Dir.Entry;
    assert Dir.Inos(SFS_DIR, fs)[0] == 0;
  }

  /** The write to logical block 12 of file 2 after a run, what it finds in the block it takes, and what it does. */
  ghost predicate GoesWrong(s: Sys, fd: nat, end: Word, blk: Block, stale: Block) {
    var op, ino := Write(fd, end, NDIR, [blk]), Sized(s, 2, end);
    var fs := SetIno(s.fs, ino);
    && OpenAt(s, fd) == 2 && Enabled(s, op) && DiskInv(fs) && Agrees(fs, ino) && TakesIndirect(fs, ino, NDIR)
    && Get(fs.store.blocks, Next(fs.store)) == stale
    && !StepClean(s, op) && !WriteEffect(fs, ino, NDIR, blk, WriteBlock(fs, ino, NDIR, blk))
    && (stale[0] == 0 && stale[1] == 1 ==> !SysInv(Step(s, op).0))
  }

  /** Stale data become block pointers. On every fresh disk with a list of 64 or more blocks: a file is created, its
      first block written, its name unlinked, the file closed; then a second file is created. A write to its logical
      block 12 takes the freed block for its indirect block, and whatever was in it, if not zeros, are its pointers. */
  lemma StaleRun(data: seq<Block>, d: Disk, s: Sys, a: FileName, b: FileName, stale: Block, end: Word, blk: Block)
    returns (ops: seq<Op>, fd: nat)
    requires FreshDisk(data, d) && s == Start(data, d) && FreeCount(|data|) >= 64
    requires stale != ZERO_BLOCK && blk != ZERO_BLOCK
    ensures |ops| == 5 && Permitted(s, ops) && GoesWrong(Run(s, ops), fd, end, blk, stale)
  {
    hide FreshDisk, Start, Blank, FullFirst, GoesWrong;
    FreshIsBlank(data, d);
    var h, dd, x, node := LargePool(data, d);
    ops, fd := StaleFrom(s, a, b, h, dd, x, node, stale, end, blk);
  }

  lemma StaleFrom(s: Sys, a: FileName, b: FileName, h: Word, dd: Word, x: Word, node: Block, stale: Block, end: Word,
      blk: Block)
    returns (ops: seq<Op>, fd: nat)
    requires Blank(s) && FullFirst(s.fs.store, h, dd, x, node) && stale != ZERO_BLOCK && blk != ZERO_BLOCK
    ensures |ops| == 5 && Permitted(s, ops) && GoesWrong(Run(s, ops), fd, end, blk, stale)
  {
    hide Blank, HasFile, Unnamed, Step, Enabled, StepClean, PoolIs, WriteBlock, Free, Permitted, Run, SysInv, GoesWrong,
         Dir.Inos, Dir.Lookup, FreeList.Release, Put;
    var s1, fd1 := FirstOfMany(s, a, h, dd, x, node);
    var op2, op4 := Write(fd1, BLOCK_SIZE, 0, [stale]), Release(fd1);
    var node1 := SetWord(node, 1, 0);
    FillsSecond(s1, a, fd1, dd, h, x, node1, BLOCK_SIZE, stale);
    WriteKeepsFile(s1, a, fd1, dd, BLOCK_SIZE, 0, stale);
    var s2, node2 := Step(s1, op2).0, SetWord(node1, 2, 0);
    var s3, cleared := UnlinkFile(s2, a, fd1, dd);
    LastReference(s3, fd1, dd);
    DirectoryApart(s2.fs.store, h, node2, x, stale, dd, cleared);
    RootOf(s3, fd1, dd);
    var s4 := CloseLast(s3, fd1, dd, x);
    GiveBack(s3.fs.store, h, node2, x, stale);
    var s5, fd5, entry := CreateAgain(s4, b, dd);
    var node4 := SetWord(node2, 1, x);
    DirectoryApart(s4.fs.store, h, node4, x, stale, dd, entry);
    fd := fd5;
    MeetsStale(s5, fd, h, x, node4, stale, end, blk);
    EmptyRun(s5);
    Prepend(s4, Create(b, false, 0), []);
    Prepend(s3, op4, [Create(b, false, 0)] + []);
    Prepend(s2, Unlink(a), [op4] + ([Create(b, false, 0)] + []));
    Prepend(s1, op2, [Unlink(a)] + ([op4] + ([Create(b, false, 0)] + [])));
    Prepend(s, Create(a, false, 0), [op2] + ([Unlink(a)] + ([op4] + ([Create(b, false, 0)] + []))));
    ops := [Create(a, false, 0)] + ([op2] + ([Unlink(a)] + ([op4] + ([Create(b, false, 0)] + []))));
  }

  /** Writing the first block of the file takes x from the second slot. */
  lemma FillsSecond(s: Sys, a: FileName, fd: nat, dd: Word, h: Word, x: Word, node: Block, end: Word, blk: Block)
    requires HasFile(s, a, fd, dd) && Ino(s.fs, 2) == Inode(2, 2, 0, NO_PTRS)
    requires PoolIs(s.fs.store, h, node, x, ZERO_BLOCK) && node[1] == 0 && node[2] == x && x != 0
    ensures var op := Write(fd, end, 0, [blk]);
      && Enabled(s, op) && StepClean(s, op)
      && PoolIs(Step(s, op).0.fs.store, h, SetWord(node, 2, 0), x, blk)
        && Ino(Step(s, op).0.fs, 2).ptrs == NO_PTRS[0 := x]
  {
    hide Alloc, Dir.Inos, Dir.Lookup, SysInv, WriteBlock, Step, Enabled, StepClean, Next;
    OneBlock(s, fd, 2, end, 0, blk);
    TakeSlot(s.fs.store, h, node, x, ZERO_BLOCK, 2);
    var ino := Sized(s, 2, end);
    var fs := SetIno(s.fs, ino);
    DirectWrite(fs, ino, 0, blk, WriteBlock(fs, ino, 0, blk));
    PutOther(Alloc(fs.store), h, SetWord(node, 2, 0), x, ZERO_BLOCK, x, blk);
  }

  /** Rewriting the directory's block, which is not free, touches neither the node nor block x. */
  lemma DirectoryApart(st: Store, h: Word, node: Block, x: Word, stale: Block, dd: Word, blk: Block)
    requires PoolIs(st, h, node, x, stale) && dd !in Free(st) && dd != x
    ensures PoolIs(st.(blocks := Put(st.blocks, dd, blk)), h, node, x, stale)
  {
    NodesAreFree(st.blocks, st.chain);
    assert st.chain[0] in st.chain;
  }

  lemma RootOf(s: Sys, fd: nat, dd: Word)
    requires Unnamed(s, fd, dd)
    ensures Ino(s.fs, Dir.ROOT).ptrs[0] == dd != 0
  {
    hide SysInv, Dir.Lookup, Dir.Inos;
  }

  lemma MeetsStale(s: Sys, fd: nat, h: Word, x: Word, node: Block, stale: Block, end: Word, blk: Block)
    requires SysInv(s) && OpenAt(s, fd) == 2 && Ino(s.fs, 2) == Inode(2, 2, 0, NO_PTRS)
    requires PoolIs(s.fs.store, h, node, x, stale) && node[1] == x != 0 && stale != ZERO_BLOCK && blk != ZERO_BLOCK
    ensures GoesWrong(s, fd, end, blk, stale)
  {
    hide Alloc, Next, WriteBlock, Enabled, StepClean, WriteEffect, StoreOk, Owned, TableOk, Target, LeftWords, Content,
         Dir.DirOk, LinksOk, Fd.PoolOk, Fd.Settled, Step;
    OneBlock(s, fd, 2, end, NDIR, blk);
    TakeSlot(s.fs.store, h, node, x, stale, 1);
    var ino := Sized(s, 2, end);
    var fs := SetIno(s.fs, ino);
    NewIndirectEffectIff(fs, ino, NDIR, blk);
    NewIndirectSoundIff(fs, ino, NDIR, blk);
    WordsLeft(fs, x, stale, blk);
  }

  lemma WordsLeft(fs: Fs, x: Word, stale: Block, blk: Block)
    requires TableOk(fs) && Next(fs.store) == x && Get(fs.store.blocks, x) == stale
    ensures stale[0] == 0 && stale[1] == 1 ==> !Harmless(fs, LeftWords(fs, NDIR, blk))
  {
    hide Next;
    var left := LeftWords(fs, NDIR, blk);
    assert stale[0] == 0 && x != 0 ==> left == stale;
    assert left[1] == 1 ==> !Lost(fs, left[1]);
  }
}
