/** Directory iteration, linking and unlinking as src/dir.c does them, on the mounted file system. */
module Scanning {
  import opened Words
  import opened FreeList
  import opened Inodes
  import opened Directory
  import opened Mounted

  /** struct dir_iterator. entry is the next entry of block iblock to look at; at 0 that block is not yet read. */
  class DirIterator {
    const g: Layout
    const fs: FileSystem
    var inode: Inode
    var iblock: nat
    var entry: nat
    var cached: Block

    ghost predicate Valid()
      reads this, fs
    {
      && fs.Valid() && DiskInv(fs.Abs()) && DirOk(g, fs.Abs()) && inode == Ino(fs.Abs(), ROOT)
      && entry <= g.count && iblock <= Blocks(fs.Abs())
      && (entry > 0 ==> iblock < Blocks(fs.Abs()) && cached == Content(fs.Abs(), ROOT, iblock))
    }

    /** The first entry place not yet visited. */
    ghost function Pos(): nat
      reads this
    {
      PlaceNo(g, iblock, entry)
    }

    /** The entry just yielded, in the cached block. */
    function Current(): seq<Word>
      reads this
      requires 1 <= entry <= g.count
    {
      EntryAt(g, cached, entry - 1)
    }

    /** The iterator stands just after place k. */
    ghost predicate YieldedAt(k: nat)
      reads this
    {
      iblock == BlockNo(g, k) && entry == SlotOf(g, k) + 1
    }

    /** sfs_dir_iterate on the root directory. */
    constructor (g: Layout, fs: FileSystem)
      requires fs.Valid() && DiskInv(fs.Abs()) && DirOk(g, fs.Abs())
      modifies fs
      ensures this.g == g && this.fs == fs && Valid() && Pos() == 0 && fs.Abs() == old(fs.Abs())
    {
      RootAgrees(g, fs.Abs(), 0);
      var root := fs.ReadInode(ROOT);
      this.g, this.fs, inode := g, fs, root;
      iblock, entry, cached := 0, 0, ZERO_BLOCK;
    }

    /** Place entry of block iblock. */
    lemma Here()
      requires Valid() && entry < g.count && iblock < Blocks(fs.Abs()) && cached == Content(fs.Abs(), ROOT, iblock)
      ensures Pos() < Len(g, fs.Abs()) && BlockNo(g, Pos()) == iblock && SlotOf(g, Pos()) == entry
      ensures Entry(g, fs.Abs(), Pos()) == EntryAt(g, cached, entry)
    {
      PlaceOf(g, iblock, entry);
      PlaceBelow(g, Pos(), Blocks(fs.Abs()));
    }

    lemma AtTheEnd()
      requires Valid() && iblock >= Blocks(fs.Abs())
      ensures Pos() == Len(g, fs.Abs())
    {
    }

    /** The inner loop of sfs_dir_iternext: look for a used entry in the rest of the cached block. */
    method ScanBlock() returns (found: bool)
      requires Valid() && iblock < Blocks(fs.Abs()) && cached == Content(fs.Abs(), ROOT, iblock)
      modifies this`entry
      ensures Valid() && (found ==> entry > old(entry)) && (!found ==> entry == g.count)
      ensures forall k: nat :: old(Pos()) <= k < Pos() - (if found then 1 else 0) ==> !Used(g, fs.Abs(), k)
      ensures old(Pos()) <= Pos() <= Len(g, fs.Abs())
      ensures found ==>
        old(Pos()) < Pos() && Used(g, fs.Abs(), Pos() - 1) && YieldedAt(Pos() - 1)
          && Current() == Entry(g, fs.Abs(), Pos() - 1)
    {
      hide FileSystem.Valid, FileSystem.Abs, DiskInv, DirOk, Content, EntryAt, WordAt, FitsBlock, PlaceNo, BlockNo,
           SlotOf;
      PlaceOrder(g, iblock, g.count, Blocks(fs.Abs()));
      PlaceOrder(g, iblock, entry, Blocks(fs.Abs()));
      while entry < g.count
        invariant old(entry) <= entry <= g.count && Valid() && old(Pos()) <= Pos()
        invariant forall k: nat :: old(Pos()) <= k < Pos() ==> !Used(g, fs.Abs(), k)
      {
        Here();
        PlaceNext(g, iblock, entry);
        PlaceOrder(g, iblock, entry + 1, Blocks(fs.Abs()));
        FirstWord(g, cached, entry);
        if cached[WordAt(g, entry)] != 0 {
          entry := entry + 1;
          return true;
        }
        entry := entry + 1;
      }
      found := false;
    }

    /** sfs_dir_iternext: advance to the next used entry, which is then in the cached block. */
    method Next() returns (found: bool)
      requires Valid() && Pos() <= Len(g, fs.Abs())
      modifies this, fs
      ensures fs.Valid() && Valid() && Pos() <= Len(g, fs.Abs()) && fs.Abs() == old(fs.Abs())
      ensures var k := NextUsed(g, fs.Abs(), old(Pos()));
        && (found <==> k < Len(g, fs.Abs()))
        && (found ==> YieldedAt(k) && Pos() == k + 1 && 1 <= entry <= g.count && Current() == Entry(g, fs.Abs(), k))
    {
      hide DiskInv, FileSystem.Valid, FileSystem.Abs, DirOk, Content, EntryAt, Entry, FitsBlock, PlaceNo, BlockNo,
           SlotOf;
      ghost var start, blocks := Pos(), Blocks(fs.Abs());
      while true
        invariant Valid() && fs.Abs() == old(fs.Abs())
        invariant start <= Pos() <= Len(g, fs.Abs())
        invariant forall k :: start <= k < Pos() ==> !Used(g, fs.Abs(), k)
        decreases blocks - iblock, g.count - entry
      {
        RootAgrees(g, fs.Abs(), iblock);
        if iblock * BLOCK_SIZE >= inode.size {
          AtTheEnd();
          NextUsedIs(g, fs.Abs(), start, Pos());
          return false;
        }
        if entry == 0 {
          ReadBlockReadsContent(fs.Abs(), inode, iblock);
          var ok;
          ok, cached := fs.InodeBlockRead(inode, iblock);
          fs.WriteInode(inode);
        }
        found := ScanBlock();
        if found {
          NextUsedIs(g, fs.Abs(), start, Pos() - 1);
          return;
        }
        PlaceNext(g, iblock, entry);
        iblock := iblock + 1;
        entry := 0;
      }
    }

    /** sfs_dir_iter_unlink of the entry just yielded: give up its inode's link, clear it in the cached block
        and write that block back to where it came from. */
    method Unlink(ghost k: nat)
      requires Valid() && k < Len(g, fs.Abs()) && YieldedAt(k) && Used(g, fs.Abs(), k)
      requires var n := EntryIno(Entry(g, fs.Abs(), k)); 2 <= n && Live(fs.Abs(), n) && Ino(fs.Abs(), n).links > 0
      modifies this, fs
      ensures fs.Valid() && fs.Abs() == Directory.Unlink(g, old(fs.Abs()), k)
    {
      hide FileSystem.Valid, FileSystem.Abs, Content, WriteBlock, Deallocate, StoreOk, Owned, InodesLinked;
      ghost var abs := fs.Abs();
      var direntry := entry - 1;
      var n := EntryIno(Current());
      LiveNumber(abs, n);
      LiveInTable(abs, n);
      var ino := fs.ReadInode(n);
      ino := Dec(ino);
      if ino.links == 0 {
        fs.InodeDeallocate(ino);
      } else {
        fs.WriteInode(ino);
      }
      DropLinkEffect(abs, n);
      ghost var dropped := fs.Abs();
      assert dropped == DropLink(abs, n);
      cached := ClearEntry(g, cached, direntry);
      RootIsLive(abs);
      RootIsLive(dropped);
      assert inode == Ino(dropped, ROOT) && SetIno(dropped, inode) == dropped;
      fs.WriteInode(inode);
      var ok;
      ok, inode := fs.InodeBlockWrite(inode, iblock, cached);
    }
  }

  /** The loop of sfs_readdir, for a filler whose buffer never fills up: calling the iterator until it is exhausted
      lists every used entry in place order. */
  method ListEntries(it: DirIterator) returns (entries: seq<seq<Word>>)
    requires it.fs.Valid() && it.Valid() && it.Pos() == 0
    modifies it, it.fs
    ensures it.fs.Valid() && it.fs.Abs() == old(it.fs.Abs())
    ensures entries == Listed(it.g, it.fs.Abs(), 0)
  {
    hide FileSystem.Valid, FileSystem.Abs, Entry, DiskInv, DirOk, DirIterator.Valid, DirIterator.Current,
         DirIterator.YieldedAt, DirIterator.Pos, Used, Len, NextUsed;
    entries := [];
    ghost var g, fs := it.g, it.fs.Abs();
    ghost var all := Listed(g, fs, 0);
    var found := it.Next();
    while found
      invariant it.fs.Valid() && it.Valid() && it.fs.Abs() == fs && it.Pos() <= Len(g, fs)
      invariant found ==> 1 <= it.entry <= g.count && all == entries + [it.Current()] + Listed(g, fs, it.Pos())
      invariant !found ==> all == entries
      decreases if found then 1 + Len(g, fs) - it.Pos() else 0
    {
      ghost var pos := it.Pos();
      entries := entries + [it.Current()];
      found := it.Next();
      assert found ==> Listed(g, fs, pos) == [it.Current()] + Listed(g, fs, it.Pos());
      assert !found ==> Listed(g, fs, pos) == [];
    }
  }

  /** The inner loop of sfs_dir_link: the first empty entry of a block, or the number of entries. */
  method FindEmpty(g: Layout, b: Block) returns (j: nat)
    ensures j <= g.count && forall l :: 0 <= l < j ==> EntryIno(EntryAt(g, b, l)) != 0
    ensures j < g.count ==> EntryIno(EntryAt(g, b, j)) == 0
  {
    hide EntryAt, WordAt, FitsBlock;
    j := 0;
    while j < g.count
      invariant j <= g.count && forall l :: 0 <= l < j ==> EntryIno(EntryAt(g, b, l)) != 0
    {
      FirstWord(g, b, j);
      if b[WordAt(g, j)] == 0 {
        return;
      }
      j := j + 1;
    }
  }

  /** Blocks before i are full, and so are the entries before j in block i. */
  lemma BlockSearched(g: Layout, fs: Fs, i: nat, j: nat)
    requires i < Blocks(fs) && j <= g.count && forall k :: 0 <= k < PlaceNo(g, i, 0) ==> Used(g, fs, k)
    requires forall l :: 0 <= l < j ==> EntryIno(EntryAt(g, Content(fs, ROOT, i), l)) != 0
    requires j < g.count ==> EntryIno(EntryAt(g, Content(fs, ROOT, i), j)) == 0
    ensures j == g.count ==> forall k :: 0 <= k < PlaceNo(g, i + 1, 0) ==> Used(g, fs, k)
    ensures j < g.count ==>
      (var h := FirstEmpty(g, fs, 0); h < Len(g, fs) && BlockNo(g, h) == i && SlotOf(g, h) == j)
  {
    hide Content, EntryAt, WordAt, FitsBlock, PlaceNo, BlockNo, SlotOf;
    PlaceNext(g, i, 0);
    forall k | 0 <= k < PlaceNo(g, i, j) ensures Used(g, fs, k) {
      if k >= PlaceNo(g, i, 0) {
        var l := PlaceInBlock(g, i, j, k);
        PlaceOf(g, i, l);
      }
    }
    PlaceOrder(g, i, j, Blocks(fs));
    if j < g.count {
      PlaceOf(g, i, j);
      PlaceNext(g, i, j);
      PlaceOrder(g, i, j + 1, Blocks(fs));
      FirstEmptyIs(g, fs, PlaceNo(g, i, j));
    }
  }

  /** The writes that end sfs_dir_link: the directory block, then both inodes. */
  method StoreLink(fs: FileSystem, directory: Inode, i: nat, blk: Block, size: Word, inode: Inode)
    returns (ok: bool, dir: Inode, ino: Inode)
    requires fs.Valid() && DiskInv(fs.Abs()) && Agrees(fs.Abs(), directory) && directory.inumber == ROOT
    requires Agrees(fs.Abs(), inode) && 2 <= inode.inumber
    modifies fs
    ensures fs.Valid()
    ensures var w := WriteBlock(old(fs.Abs()), directory, i, blk);
      && ok == w.ok
      && (ok ==> dir == w.ino.(size := size) && ino == Inc(inode))
      && fs.Abs() == if ok then SetIno(SetIno(w.fs, dir), ino) else w.fs
    ensures ok ==> dir == Ino(fs.Abs(), ROOT) && ino == Ino(fs.Abs(), inode.inumber)
  {
    hide FileSystem.Valid, FileSystem.Abs, WriteBlock, StoreOk, Owned, InodesLinked;
    ino := inode;
    ok, dir := fs.InodeBlockWrite(directory, i, blk);
    if !ok {
      return;
    }
    dir := dir.(size := size);
    fs.WriteInode(dir);
    ino := Inc(ino);
    fs.WriteInode(ino);
  }

  /** sfs_dir_link on the root directory; the copies of both inodes follow the table. */
  method DirLink(g: Layout, fs: FileSystem, directory: Inode, name: Name, inode: Inode)
    returns (ok: bool, dir: Inode, ino: Inode)
    requires fs.Valid() && DiskInv(fs.Abs()) && DirOk(g, fs.Abs()) && |name| == g.words - 1
    requires directory == Ino(fs.Abs(), ROOT) && Agrees(fs.Abs(), inode) && 2 <= inode.inumber
    modifies fs
    ensures fs.Valid() && LinkResult(fs.Abs(), ok) == Link(g, old(fs.Abs()), name, inode)
    ensures ok ==> dir == Ino(fs.Abs(), ROOT) && ino == Ino(fs.Abs(), inode.inumber)
  {
    hide FileSystem.Valid, FileSystem.Abs, Content, WriteBlock, DiskInv, DirOk, EntryAt, PutEntry, PlaceNo;
    ghost var abs := fs.Abs();
    RootAgrees(g, abs, 0);
    PlaceNext(g, 0, 0);
    dir, ino := directory, inode;
    var tmp := ZERO_BLOCK;
    var i := 0;
    while i < dir.size / BLOCK_SIZE
      invariant 0 <= i <= Blocks(abs) && fs.Valid() && fs.Abs() == abs
      invariant forall k :: 0 <= k < PlaceNo(g, i, 0) ==> Used(g, abs, k)
      invariant dir == directory && ino == inode
    {
      RootAgrees(g, abs, i);
      ReadBlockReadsContent(abs, dir, i);
      ok, tmp := fs.InodeBlockRead(dir, i);
      var j := FindEmpty(g, tmp);
      BlockSearched(g, abs, i, j);
      if j < g.count {
        ok, dir, ino := StoreLink(fs, dir, i, PutEntry(g, tmp, j, [ino.inumber] + name), dir.size, ino);
        return;
      }
      i := i + 1;
    }
    FirstEmptyIs(g, abs, Len(g, abs));
    PlaceOf(g, Blocks(abs), 0);
    RootAgrees(g, abs, i);
    tmp := PutEntry(g, ZERO_BLOCK, 0, [ino.inumber] + name);
    ok, dir, ino := StoreLink(fs, dir, dir.size / BLOCK_SIZE, tmp, dir.size + BLOCK_SIZE, ino);
  }

  lemma FirstWord(g: Layout, b: Block, j: nat)
    requires j < g.count
    ensures WordAt(g, j) < BLOCK_WORDS && b[WordAt(g, j)] == EntryIno(EntryAt(g, b, j))
  {
    EntryFits(g, j);
  }

  lemma PlaceInBlock(g: Layout, i: nat, j: nat, k: nat) returns (l: nat)
    requires PlaceNo(g, i, 0) <= k < PlaceNo(g, i, j)
    ensures l < j && k == PlaceNo(g, i, l)
  {
    l := k - PlaceNo(g, i, 0);
  }

  lemma LiveInTable(fs: Fs, n: Word)
    requires DiskInv(fs) && Live(fs, n)
    ensures n <= |fs.inodes|
  {
  }

  lemma RootAgrees(g: Layout, fs: Fs, i: nat)
    requires DiskInv(fs) && DirOk(g, fs)
    ensures Agrees(fs, Ino(fs, ROOT)) && Ino(fs, ROOT).inumber == ROOT && 1 <= |fs.inodes|
    ensures SetIno(fs, Ino(fs, ROOT)) == fs
    ensures i * BLOCK_SIZE >= Ino(fs, ROOT).size <==> i >= Blocks(fs)
    ensures Blocks(fs) <= MAX_IBLOCKS && Ino(fs, ROOT).size == BLOCK_SIZE * Blocks(fs)
  {
    RootIsLive(fs);
  }
}
