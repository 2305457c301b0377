/** struct filesystem and the functions of src/fs.c that change it in place, each proved equal to its
    specification on values. Block reads and writes are array accesses and never fail. */
module Mounted {
  import opened Words
  import opened FreeList
  import opened Inodes
  import opened InodeCache

  /** signed: the signature matches. tb counts the blocks of the inode table, inodes the inodes in them, blocks all
      512-byte blocks of the disk. */
  datatype Superblock = Superblock(signed: bool, tb: nat, inodes: nat, blocks: nat, head: Word, ihead: Word)

  /** The disk file. table[i] is block i + 1 seen as inodes, up to the unused block after the table;
      data[n] is block n seen as words. A block write to the unused block shows in both. */
  datatype Disk = Disk(super: Superblock, table: seq<InodeBlock>, data: seq<Block>)

  ghost predicate DiskShape(d: Disk) {
    |d.table| == d.super.tb + 1 && |d.data| == d.super.blocks
  }

  /** The file system a disk holds once every buffer is flushed; chain and ilist are the two free lists. */
  function OnDisk(d: Disk, chain: seq<Word>, ilist: seq<Word>): Fs {
    Fs(d.super.tb, Store(d.super.head, chain, d.data), d.super.ihead, ilist, Flatten(d.table))
  }

  lemma FlattenLast(table: seq<InodeBlock>, last: InodeBlock)
    requires table != []
    ensures Flatten(table[|table| - 1 := last]) == Flatten(table)[..INODES_PER_BLOCK * (|table| - 1)] + last
  {
    var s, t := Flatten(table[|table| - 1 := last]), Flatten(table)[..INODES_PER_BLOCK * (|table| - 1)] + last;
    forall k | 0 <= k < |s| ensures s[k] == t[k] {
      assert k == k / INODES_PER_BLOCK * INODES_PER_BLOCK + k % INODES_PER_BLOCK;
    }
  }

  /** How a block write shows in the file system, seen through the cache. */
  lemma WrittenBlock(d: Disk, c: Cache, n: Word, b: Block, chain: seq<Word>, ilist: seq<Word>)
    requires DiskShape(d) && c.table == d.table && CacheOk(c) && n < |d.data| && (n == d.super.tb + 1 ==> c.number != n)
    ensures var table := if n == d.super.tb + 1 then d.table[d.super.tb := AsInodes(b)] else d.table;
      var was := OnDisk(d.(table := Seen(c)), chain, ilist);
      var now := OnDisk(d.(table := Seen(c.(table := table)), data := d.data[n := b]), chain, ilist);
      && CacheOk(c.(table := table)) && now == PutBlock(was, n, b)
      && (n != d.super.tb + 1 ==> now == was.(store := was.store.(blocks := Put(was.store.blocks, n, b))))
  {
    hide Flatten, AsInodes;
    if n == d.super.tb + 1 {
      var table := d.table[d.super.tb := AsInodes(b)];
      assert Seen(c.(table := table)) == Seen(c)[d.super.tb := AsInodes(b)];
      FlattenLast(Seen(c), AsInodes(b));
    }
  }

  class FileSystem {
    var disk: Disk
    var super: Superblock
    // the one-block write-back cache of inodes; number 0 means nothing is cached
    var cacheDirty: bool
    var cacheNumber: int
    var cacheData: InodeBlock
    ghost var chain: seq<Word>
    ghost var ilist: seq<Word>

    ghost function Cached(): Cache
      reads this
    {
      Cache(disk.table, cacheDirty, cacheNumber, cacheData)
    }

    /** The superblock is signed and written through; the cache is sound, and the table small enough for
        CacheIsRightIff. */
    ghost predicate Valid()
      reads this
    {
      DiskShape(disk) && disk.super == super && super.signed && CacheOk(Cached()) && |disk.table| < INT_LIMIT
    }

    ghost function Abs(): Fs
      reads this
      requires Valid()
    {
      OnDisk(disk.(table := Seen(Cached())), chain, ilist)
    }

    /** sfs_fs_open_disk on a formatted disk. inode_cache.dirty is taken to start out false. */
    constructor (d: Disk, ghost chain: seq<Word>, ghost ilist: seq<Word>)
      requires DiskShape(d)
      ensures disk == d && Cached() == Cold(d.table, cacheData)
      ensures |d.table| < INT_LIMIT && d.super.signed ==> Valid() && Abs() == OnDisk(d, chain, ilist)
    {
      disk, super := d, d.super;
      cacheDirty, cacheNumber, cacheData := false, 0, seq(INODES_PER_BLOCK, i => NULL_INODE);
      this.chain, this.ilist := chain, ilist;
    }

    /** sfs_fs_close: after it the disk alone holds the whole file system. */
    method Close()
      requires Valid()
      modifies this
      ensures DiskShape(disk) && OnDisk(disk, chain, ilist) == old(Abs())
      ensures disk == old(disk).(table := disk.table) && disk.super.signed && chain == old(chain) && ilist == old(ilist)
    {
      if cacheDirty {
        InodeBlockBack();
      }
      disk := disk.(super := super);
    }

    /** Write the cached block where its number says. */
    method InodeBlockBack()
      requires Valid() && cacheDirty
      modifies this`disk
      ensures DiskShape(disk) && disk == old(disk).(table := disk.table)
      ensures Some(Cached()) == WriteBack(old(Cached()))
    {
      IntIsExact(cacheNumber);
      disk := disk.(table := disk.table[ToUnsigned(cacheNumber) - 1 := cacheData]);
    }

    /** Make block number the cached one, writing the old one back first if it is dirty. */
    method Load(number: nat)
      requires Valid() && 1 <= number <= |disk.table|
      modifies this
      ensures Some(Cached()) == Fetch(old(Cached()), number)
      ensures Valid() && Abs() == old(Abs()) && cacheNumber == number
      ensures Seen(Cached()) == old(Seen(Cached())) && super == old(super)
    {
      FetchOk(Cached(), number);
      if ToUnsigned(cacheNumber) != number {
        if cacheDirty {
          InodeBlockBack();
        }
        cacheNumber := ToInt(number);
        cacheDirty := false;
        cacheData := disk.table[number - 1];
      }
    }

    /** sfs_fs_read_inode: reads return the last write, whatever was cached in between. */
    method ReadInode(n: Word) returns (ino: Inode)
      requires Valid() && 1 <= n <= |Abs().inodes|
      modifies this
      ensures (Cached(), Some(ino)) == Serve(old(Cached()), ReadOf(n))
      ensures Valid() && Abs() == old(Abs())
      ensures ino == Ino(Abs(), n)
    {
      Load((n - 1) / INODES_PER_BLOCK + 1);
      ino := cacheData[(n - 1) % INODES_PER_BLOCK];
    }

    /** sfs_fs_write_inode. */
    method WriteInode(ino: Inode)
      requires Valid() && 1 <= ino.inumber <= |Abs().inodes|
      modifies this
      ensures (Cached(), Some(ino)) == Serve(old(Cached()), WriteOf(ino.inumber, ino))
      ensures Valid() && Abs() == SetIno(old(Abs()), ino) && cacheNumber == Home(ino.inumber)
    {
      ServeOk(Cached(), WriteOf(ino.inumber, ino));
      Load((ino.inumber - 1) / INODES_PER_BLOCK + 1);
      cacheDirty := true;
      cacheData := cacheData[(ino.inumber - 1) % INODES_PER_BLOCK := ino];
    }

    method BlockRead(n: Word) returns (b: Block)
      requires n < |disk.data|
      ensures b == disk.data[n]
    {
      b := disk.data[n];
    }

    /** Writing the unused block after the table changes what the inodes past the table read as, unless that
        block is cached. */
    method BlockWrite(n: Word, b: Block)
      requires Valid() && n < |disk.data| && (n == super.tb + 1 ==> cacheNumber != n)
      modifies this
      ensures Valid() && Abs() == PutBlock(old(Abs()), n, b)
      ensures n != super.tb + 1 ==> Abs() == old(Abs().(store := Abs().store.(blocks := Put(Abs().store.blocks, n, b))))
      ensures super == old(super) && chain == old(chain) && ilist == old(ilist) && disk.data == old(disk.data)[n := b]
      ensures cacheNumber == old(cacheNumber)
    {
      hide Flatten, OnDisk, Seen, PutBlock, AsInodes;
      WrittenBlock(disk, Cached(), n, b, chain, ilist);
      if n == super.tb + 1 {
        disk := disk.(table := disk.table[super.tb := AsInodes(b)]);
      }
      disk := disk.(data := disk.data[n := b]);
    }

    /** The ghost record of the block list follows the list on disk. */
    ghost method SetChain(c: seq<Word>)
      requires Valid()
      modifies this`chain
      ensures Valid() && Abs() == old(Abs().(store := Abs().store.(chain := c)))
    {
      chain := c;
    }

    /** Change the heads of the free lists and write the superblock. */
    method WriteHeads(head: Word, ihead: Word)
      requires Valid()
      modifies this
      ensures Valid() && Abs() == old(Abs().(store := Abs().store.(head := head), ihead := ihead))
      ensures chain == old(chain) && ilist == old(ilist) && cacheNumber == old(cacheNumber)
      ensures super == old(super).(head := head, ihead := ihead)
    {
      super := super.(head := head, ihead := ihead);
      disk := disk.(super := super);
    }

    /** sfs_fs_allocate_block. */
    method AllocateBlock() returns (ok: bool, b: Word)
      requires Valid() && StoreOk(Abs().store, Lo(Abs()))
      modifies this
      ensures Valid() && Abs() == old(Abs().(store := Alloc(Abs().store)))
      ensures b == old(Next(Abs().store)) && (ok <==> b != 0) && cacheNumber == old(cacheNumber)
    {
      if super.head == 0 {
        return false, 0;
      }
      var node := super.head;
      var found := 0;
      var index := BlockRead(node);
      ghost var was := index;
      var i := 1;
      while i < BLOCK_WORDS && found == 0
        invariant 1 <= i <= BLOCK_WORDS
        invariant found == 0 ==> index == was && forall j :: 1 <= j < i ==> was[j] == 0
        invariant found != 0 ==> i == FirstUsed(was, 1) < BLOCK_WORDS && found == was[i] && index == SetWord(was, i, 0)
        decreases BLOCK_WORDS - i, found == 0
      {
        if index[i] != 0 {
          found := index[i];
          index := index[i := 0];
        } else {
          i := i + 1;
        }
      }
      if found != 0 {
        BlockWrite(node, index);
      } else {
        found := node;
        WriteHeads(index[0], super.ihead);
        chain := chain[1..];
      }
      return true, found;
    }

    /** The inner loop of sfs_fs_free_block. */
    method FindHole(index: Block) returns (i: nat)
      ensures i == FirstHole(index, 1)
    {
      i := 1;
      while i < BLOCK_WORDS && index[i] != 0
        invariant 1 <= i <= BLOCK_WORDS
        invariant forall j :: 1 <= j < i ==> index[j] != 0
      {
        i := i + 1;
      }
    }

    lemma Fields()
      requires Valid()
      ensures Abs().store == Store(super.head, chain, disk.data) && Abs().tb == super.tb
      ensures Abs().ihead == super.ihead && Abs().ilist == ilist
    {
    }

    /** The walk of sfs_fs_free_block: to the first node with a hole, or, with i at the end, to the last node. */
    method FindRoom(ghost b: Word) returns (node: Word, index: Block, i: nat)
      requires Valid() && super.head != 0 && Linked(disk.data, super.head, chain)
      ensures node in chain && node < |disk.data| && index == disk.data[node] && 1 <= i <= BLOCK_WORDS
      ensures AllFull(disk.data, chain) <==> i == BLOCK_WORDS
      ensures FilledBlocks(disk.data, chain, b) ==
        if i < BLOCK_WORDS then Put(disk.data, node, SetWord(index, i, b))
        else Put(Put(disk.data, node, SetWord(index, 0, b)), b, ZERO_BLOCK)
    {
      hide FilledBlocks, AllFull, Put, SetWord;
      ghost var data := disk.data;
      var next := super.head;
      node, index, i := 0, ZERO_BLOCK, BLOCK_WORDS;
      ghost var k := 0;
      while next != 0
        invariant k <= |chain| && Linked(data, next, chain[k..])
        invariant forall j :: 0 <= j < k ==> FirstHole(Get(data, chain[j]), 1) == BLOCK_WORDS
        invariant k > 0 ==> node == chain[k - 1] < |data| && index == data[node] && i == BLOCK_WORDS
        decreases |chain| - k
      {
        node := next;
        index := BlockRead(node);
        i := FindHole(index);
        if i < BLOCK_WORDS {
          FilledAt(data, chain, k, b);
          return;
        }
        next := index[0];
        assert chain[k..][1..] == chain[k + 1..];
        k := k + 1;
      }
      assert k == |chain|;
      FilledAtEnd(data, chain, b);
    }

    /** sfs_fs_free_block: the first node with a hole takes the block; without one the block becomes the last
        node. */
    method FreeBlock(b: Word)
      requires Valid() && StoreOk(Abs().store, Lo(Abs()))
      requires Lo(Abs()) <= b < |disk.data| && b !in Free(Abs().store)
      modifies this
      ensures Valid() && Abs() == old(Abs().(store := Release(Abs().store, b)))
    {
      hide Free, FreeOf, Separate, Seen, OnDisk, Valid, Abs, FilledBlocks, AllFull, PutBlock, CacheOk;
      Fields();
      NodesInRange(Abs().store, Lo(Abs()));
      if super.head == 0 {
        assert chain == [];
        BlockWrite(b, ZERO_BLOCK);
        WriteHeads(b, super.ihead);
        SetChain([b]);
        return;
      }
      assert chain != [];
      var node, index, i := FindRoom(b);
      if i < BLOCK_WORDS {
        BlockWrite(node, SetWord(index, i, b));
      } else {
        BlockWrite(node, SetWord(index, 0, b));
        Fields();
        BlockWrite(b, ZERO_BLOCK);
        SetChain(chain + [b]);
      }
    }

    ghost method SetIlist(c: seq<Word>)
      requires Valid()
      modifies this`ilist
      ensures Valid() && Abs() == old(Abs().(ilist := c))
    {
      ilist := c;
    }

    /** sfs_fs_inode_allocate. */
    method InodeAllocate() returns (ok: bool, ino: Inode)
      requires Valid() && TableOk(Abs())
      modifies this
      ensures Valid() && Abs() == TakeInode(old(Abs()))
      ensures ok <==> old(Abs()).ihead != 0
      ensures ok ==> ino == Ino(old(Abs()), old(Abs()).ihead)
    {
      hide Seen, OnDisk, Valid, Abs;
      Fields();
      var inumber := super.ihead;
      if inumber == 0 {
        return false, NULL_INODE;
      }
      ino := ReadInode(inumber);
      Fields();
      WriteHeads(super.head, ino.size);
      SetIlist(if ilist == [] then [] else ilist[1..]);
      ok := true;
    }

    /** sfs_fs_inode_deallocate. */
    method InodeDeallocate(inode: Inode)
      requires Valid() && DiskInv(Abs()) && Live(Abs(), inode.inumber) && 2 <= inode.inumber
      requires inode.ptrs == Ino(Abs(), inode.inumber).ptrs
      modifies this
      ensures Valid() && Abs() == Deallocate(old(Abs()), inode)
    {
      hide Seen, OnDisk, Valid, Abs, StoreOk, Owned, InodesLinked, Free, Release;
      ghost var fs := Abs();
      PointersAreOwned(fs, inode.inumber);
      Fields();
      var ino := inode.(size := super.ihead);
      WriteInode(ino);
      Fields();
      WriteHeads(super.head, ino.inumber);
      SetIlist([ino.inumber] + ilist);
      assert Abs() == Push(fs, inode);
      ghost var ptrs := inode.ptrs;
      var i := 0;
      while i < NDIR
        invariant 0 <= i <= NDIR && ino.ptrs == ptrs
        invariant Valid() && Abs() == Push(fs, inode).(store := Abs().store)
        invariant FreeDirect(Abs().store, ptrs, i) == FreeDirect(fs.store, ptrs, 0)
        invariant StoreOk(Abs().store, Lo(fs)) && |Abs().store.blocks| == |fs.store.blocks|
        invariant forall k :: i <= k < NDIR && ptrs[k] != 0 ==>
          Lo(fs) <= ptrs[k] < |fs.store.blocks| && ptrs[k] !in Free(Abs().store)
      {
        Fields();
        if ino.ptrs[i] != 0 {
          ReleaseAddsOne(Abs().store, Lo(fs), ptrs[i]);
          FreeBlock(ino.ptrs[i]);
        }
        i := i + 1;
      }
    }

    /** read_from_indirect without creating: the block number at index, 0 for a hole; it fails when the
        indirect block lies past the end of the disk. */
    method ReadFromIndirect(ind: Word, index: nat) returns (ok: bool, number: Word)
      requires index < NIND
      ensures ok <==> ind < |disk.data| || ind == 0
      ensures ok ==> number == if ind == 0 then 0 else disk.data[ind][index]
    {
      if ind == 0 {
        return true, 0;
      }
      if ind >= |disk.data| {
        return false, 0;
      }
      var arr := BlockRead(ind);
      return true, arr[index];
    }

    /** sfs_fs_inode_block_read. */
    method InodeBlockRead(ino: Inode, i: nat) returns (ok: bool, block: Block)
      requires Valid()
      ensures (if ok then Some(block) else None) == ReadBlock(Abs(), ino, i)
    {
      block := ZERO_BLOCK;
      var number := 0;
      if i < NDIR {
        number := ino.ptrs[i];
      } else if i < NDIR + NIND {
        ok, number := ReadFromIndirect(ino.ptrs[IND], i - NDIR);
        if !ok {
          return;
        }
      } else {
        return false, block;
      }
      if number == 0 {
        return true, ZERO_BLOCK;
      }
      if number < super.tb + 1 || number >= super.blocks {
        return false, block;
      }
      block := BlockRead(number);
      ok := true;
    }

    /** read_from_indirect with create_if_empty: the new block is recorded in the words read beforehand. */
    method ReadOrCreate(ino: Inode, index: nat) returns (ok: bool, number: Word)
      requires Valid() && StoreOk(Abs().store, Lo(Abs())) && index < NIND
      requires Lo(Abs()) <= ino.ptrs[IND] < |disk.data|
      modifies this
      ensures Valid() && cacheNumber == old(cacheNumber)
      ensures var p := old(Get(Abs().store.blocks, ino.ptrs[IND])[index]);
        if p != 0 then ok && number == p && Abs() == old(Abs())
        else Written(Abs(), ino, ok) == old(MapSlot(Abs(), ino, index)) && (ok ==> number == old(Next(Abs().store)))
    {
      hide Seen, OnDisk, Valid, Abs, StoreOk, Alloc, Next;
      Fields();
      AllocTakesOne(Abs().store, Lo(Abs()));
      var arr := BlockRead(ino.ptrs[IND]);
      if arr[index] == 0 {
        var b;
        ok, b := AllocateBlock();
        if !ok {
          return false, 0;
        }
        Fields();
        arr := arr[index := b];
        BlockWrite(ino.ptrs[IND], arr);
      }
      return true, arr[index];
    }

    /** Allocate a block and record it as pointer i, in the inode's copy and in the table. */
    method CreatePointer(inode: Inode, i: nat) returns (ok: bool, ino: Inode)
      requires Valid() && StoreOk(Abs().store, Lo(Abs())) && i <= IND
      requires 1 <= inode.inumber <= |Abs().inodes|
      modifies this
      ensures Valid() && Written(Abs(), ino, ok) == old(MapPointer(Abs(), inode, i))
      ensures ok ==> cacheNumber == Home(inode.inumber)
    {
      hide Seen, OnDisk, Valid, Abs, StoreOk, Alloc, Next;
      AllocTakesOne(Abs().store, Lo(Abs()));
      var b;
      ok, b := AllocateBlock();
      ino := inode;
      if ok {
        ino := SetPtr(inode, i, b);
        WriteInode(ino);
      }
    }

    /** The range guard and the data write that end sfs_fs_inode_block_write. */
    method StoreBlock(ino: Inode, number: Word, block: Block) returns (ok: bool)
      requires Valid() && (number == super.tb + 1 ==> cacheNumber != number)
      modifies this
      ensures Valid() && Written(Abs(), ino, ok) == old(StoreAt(Abs(), ino, number, block))
    {
      if number < super.tb + 1 || number >= super.blocks {
        return false;
      }
      BlockWrite(number, block);
      ok := true;
    }

    /** sfs_fs_inode_block_write. The caller's copy of the inode is updated along with the table. */
    method InodeBlockWrite(inode: Inode, i: nat, block: Block) returns (ok: bool, ino: Inode)
      requires Valid() && DiskInv(Abs()) && Agrees(Abs(), inode)
      modifies this
      ensures Valid() && Written(Abs(), ino, ok) == WriteBlock(old(Abs()), inode, i, block)
    {
      hide Seen, OnDisk, Valid, Abs, StoreOk, Alloc, Next, Owned, InodesLinked, Free;
      AllocTakesOne(Abs().store, Lo(Abs()));
      Fields();
      PointerInRange(Abs(), inode);
      if i < MAX_IBLOCKS {
        LeafInRange(Abs(), inode, i);
      }
      ino := inode;
      var number;
      if i < NDIR {
        number := ino.ptrs[i];
        if number == 0 {
          ok, ino := CreatePointer(inode, i);
          if !ok {
            return;
          }
          number := ino.ptrs[i];
        }
      } else if i < NDIR + NIND {
        if ino.ptrs[IND] == 0 {
          ok, ino := CreatePointer(inode, IND);
          if !ok {
            return;
          }
        }
        Fields();
        ok, number := ReadOrCreate(ino, i - NDIR);
        if !ok {
          return;
        }
      } else {
        return false, ino;
      }
      Fields();
      ok := StoreBlock(ino, number, block);
    }
  }

  lemma NodesInRange(st: Store, lo: nat)
    requires StoreOk(st, lo)
    ensures forall x :: x in st.chain ==> lo <= x < |st.blocks|
  {
    NodesAreFree(st.blocks, st.chain);
  }

  /** The first node with a hole, after k full ones, takes the block. */
  lemma {:induction false} FilledAt(blocks: seq<Block>, chain: seq<Word>, k: nat, b: Word)
    requires k < |chain| && FirstHole(Get(blocks, chain[k]), 1) < BLOCK_WORDS
    requires forall j :: 0 <= j < k ==> FirstHole(Get(blocks, chain[j]), 1) == BLOCK_WORDS
    ensures !AllFull(blocks, chain)
    ensures var node := Get(blocks, chain[k]);
      FilledBlocks(blocks, chain, b) == Put(blocks, chain[k], SetWord(node, FirstHole(node, 1), b))
    decreases k
  {
    hide Put, FirstHole, SetWord, Get;
    assert chain[k] in chain;
    if k > 0 {
      var rest := chain[1..];
      assert rest[k - 1] == chain[k] && forall j :: 0 <= j < k - 1 ==> rest[j] == chain[j + 1];
      FilledAt(blocks, rest, k - 1, b);
      assert FilledBlocks(blocks, chain, b) == FilledBlocks(blocks, rest, b);
    }
  }

  /** When every node is full the last one links to the block. */
  lemma {:induction false} FilledAtEnd(blocks: seq<Block>, chain: seq<Word>, b: Word)
    requires chain != []
    requires forall j :: 0 <= j < |chain| ==> FirstHole(Get(blocks, chain[j]), 1) == BLOCK_WORDS
    ensures AllFull(blocks, chain)
    ensures var last := chain[|chain| - 1];
      FilledBlocks(blocks, chain, b) == Put(Put(blocks, last, SetWord(Get(blocks, last), 0, b)), b, ZERO_BLOCK)
    decreases chain
  {
    if |chain| > 1 {
      FilledAtEnd(blocks, chain[1..], b);
    }
  }
}
