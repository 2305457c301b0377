/** The operations of src/sfs.c on the mounted file system and the descriptor pool, each proved equal to its
    step of the state machine. */
module Operations {
  import opened Words
  import opened FreeList
  import opened Inodes
  import opened Files
  import opened System
  import opened Mounted
  import opened Scanning
  import opened SlabPool
  import opened Bytes
  import opened Slicing
  import opened FileBytes
  import Dir = Directory
  import Fd = Descriptors

  /** The inode an open descriptor number stands for. */
  function FileOf(s: Sys, fh: nat): Word
    requires IsOpen(s, fh)
  {
    Fd.Deref(s.pool.slabs, Fd.GetFromFd(s.pool, fh)).shared.n
  }

  /** The step a call of sfs_write takes: the data that ends up in each block it covers. */
  function WriteOp(s: Sys, fh: nat, q: Request): Op
    requires q.Ok() && q.offset + |q.buf| < 0x1_0000_0000_0000_0000
  {
    LastNotBeforeFirst(q.offset, |q.buf|);
    Write(fh, q.offset + |q.buf|, q.First(), if IsOpen(s, fh) then BlocksFrom(s.fs, FileOf(s, fh), q, q.First())
      else [])
  }

  /** One step's share of Permitted. */
  predicate Permits(s: Sys, op: Op) {
    Enabled(s, op) && StepClean(s, op)
  }

  /** A create of the name does not go on with an inode found past the end of the table. */
  predicate StaysInTable(s: Sys, name: FileName) {
    Dir.Lookup(SFS_DIR, s.fs, name) == 0 && s.fs.ilist == [] && s.fs.ihead != 0 ==> PastEnd(s.fs).inumber == 0
  }

  class Sfs {
    const fs: FileSystem
    const pool: DescriptorPool
    ghost var orphans: set<Word>

    ghost predicate Valid()
      reads this, fs, pool
    {
      fs.Valid() && SysInv(Abs())
    }

    ghost function Abs(): Sys
      reads this, fs, pool
      requires fs.Valid()
    {
      Sys(fs.Abs(), pool.Abs(), orphans)
    }

    constructor (fs: FileSystem, pool: DescriptorPool)
      requires fs.Valid() && SysInv(Sys(fs.Abs(), pool.Abs(), {}))
      ensures Valid() && this.fs == fs && this.pool == pool && Abs() == Sys(fs.Abs(), pool.Abs(), {})
    {
      this.fs, this.pool := fs, pool;
      orphans := {};
    }

    /** The search loop that create, open and unlink all begin with. */
    method FindName(name: FileName) returns (found: bool, it: DirIterator)
      requires Valid()
      modifies fs
      ensures fs.Valid() && Abs() == old(Abs())
      ensures fresh(it) && it.g == SFS_DIR && it.fs == fs && it.Valid()
      ensures var k := Dir.FirstNamed(SFS_DIR, fs.Abs(), name, 0);
        && (found <==> k < Dir.Len(SFS_DIR, fs.Abs()))
        && (found ==> it.YieldedAt(k) && it.Current() == Dir.Entry(SFS_DIR, fs.Abs(), k))
    {
      hide FileSystem.Valid, FileSystem.Abs, DiskInv, Dir.DirOk, LinksOk, Content, Dir.Entry, Dir.Len, Dir.NextUsed,
           DirIterator.Valid, DirIterator.Pos, DirIterator.Current, DirIterator.YieldedAt, Dir.FirstNamed;
      ghost var abs := fs.Abs();
      it := new DirIterator(SFS_DIR, fs);
      ghost var k: nat := Dir.NextUsed(SFS_DIR, abs, 0);
      found := it.Next();
      while found
        invariant fs.Valid() && fs.Abs() == abs && it.g == SFS_DIR && it.fs == fs && it.Valid()
        invariant fresh(it) && it.Pos() <= Dir.Len(SFS_DIR, abs) && (found ==> k < Dir.Len(SFS_DIR, abs))
        invariant found ==> 1 <= it.entry <= it.g.count
        invariant found ==> it.YieldedAt(k) && it.Current() == Dir.Entry(SFS_DIR, abs, k) && it.Pos() == k + 1
        invariant found ==> Dir.Used(SFS_DIR, abs, k) && forall j :: 0 <= j < k ==> !Dir.Names(SFS_DIR, abs, j, name)
        invariant !found ==> forall j :: 0 <= j < Dir.Len(SFS_DIR, abs) ==> !Dir.Names(SFS_DIR, abs, j, name)
        decreases if found then 1 + Dir.Len(SFS_DIR, abs) - it.Pos() else 0
      {
        if Dir.EntryName(it.Current()) == name {
          FirstNamedIs(abs, name, k);
          return;
        }
        ghost var pos := it.Pos();
        assert forall j :: 0 <= j < pos ==> !Dir.Names(SFS_DIR, abs, j, name);
        k := Dir.NextUsed(SFS_DIR, abs, pos);
        found := it.Next();
      }
      FirstNamedIs(abs, name, Dir.Len(SFS_DIR, abs));
    }

    /** Count one more link on inode n and give it a descriptor (src/sfs.c:564-594). */
    method OpenExisting(n: Word, flags: nat) returns (ret: Ret)
      requires Valid() && 2 <= n && Live(fs.Abs(), n)
      modifies fs, pool
      ensures fs.Valid() && (Abs(), ret) == OpenInode(old(Abs()), n, flags)
    {
      hide FileSystem.Valid, FileSystem.Abs, DiskInv, Dir.DirOk, LinksOk;
      LiveNumber(fs.Abs(), n);
      var file := fs.ReadInode(n);
      file := Inc(file);
      fs.WriteInode(file);
      ret := GetDescriptor(n, flags);
    }

    method GetDescriptor(n: Word, flags: nat) returns (ret: Ret)
      requires Fd.PoolOk(pool.Abs())
      modifies pool
      ensures var o := Fd.Open(old(pool.Abs()), n, flags);
        pool.Abs() == o.0 && ret == Opened(if o.1.At? then Fd.Number(o.1) else 0)
    {
      Fd.AllocateGivesUnusedSlot(pool.Abs());
      var fd := pool.Allocate();
      pool.SetOpen(fd, n, flags);
      ret := Opened(pool.slabs[fd.slab][fd.idx].fd);
    }

    /** sfs_create. The name is a C string. */
    method CreateFile(name: seq<Byte>, excl: bool, flags: nat) returns (ret: Ret)
      requires Valid() && forall i :: 0 <= i < |name| ==> name[i] != 0
      requires |name| <= 255 ==> StaysInTable(Abs(), NameWords(name))
      modifies this, fs, pool
      ensures fs.Valid()
      ensures |name| > 255 ==> ret == NameTooLong && Abs() == old(Abs())
      ensures |name| <= 255 ==> (Abs(), ret) == Step(old(Abs()), Create(NameWords(name), excl, flags))
      ensures |name| <= 255 && old(Permits(Abs(), Create(NameWords(name), excl, flags))) ==> Valid()
    {
      hide FileSystem.Valid, FileSystem.Abs, DiskInv, Dir.DirOk, LinksOk, Dir.Link, Enabled, StepClean, NameWords,
           Dir.Lookup;
      if |name| > 255 {
        return NameTooLong;
      }
      ghost var before := Abs();
      ghost var op := Create(NameWords(name), excl, flags);
      if Enabled(before, op) && StepClean(before, op) {
        StepKeepsInv(before, op);
      }
      var dname := NameWords(name);
      LookupMeans(before.fs, dname);
      var found, it := FindName(dname);
      if found {
        if excl {
          return Exists;
        }
        LookupIsLive(before, dname);
        ret := OpenExisting(Dir.EntryIno(it.Current()), flags);
        return;
      }
      ret := CreateNew(dname, flags);
    }

    /** The rest of sfs_create once the name is known to be new (src/sfs.c:371-417). */
    method CreateNew(name: FileName, flags: nat) returns (ret: Ret)
      requires Valid() && Dir.Lookup(SFS_DIR, fs.Abs(), name) == 0 && StaysInTable(Abs(), name)
      modifies this, fs, pool
      ensures fs.Valid() && (Abs(), ret) == DoCreate(old(Abs()), name, false, flags)
    {
      hide FileSystem.Valid, FileSystem.Abs, LinksOk, Dir.Link, Dir.Lookup, StoreOk, Owned;
      ghost var before := Abs();
      var directory := fs.ReadInode(Dir.ROOT);
      var ok, file := fs.InodeAllocate();
      if !ok {
        return NoInode;
      }
      if file.inumber == 0 {
        return Aborted;
      }
      if before.fs.ilist == [] {
        PastTheTableKeepsInv(before);
      }
      NewFileIsLinkable(before);
      Dir.RootIsLive(before.fs);
      file := Inode(file.inumber, 1, 0, NO_PTRS);
      fs.WriteInode(file);
      assert fs.Abs() == WithNewFile(before.fs) && file == NewFile(before.fs);
      var n := file.inumber;
      ok, directory, file := DirLink(SFS_DIR, fs, directory, name, file);
      if !ok {
        orphans := orphans + {n};
        return Failed;
      }
      ret := GetDescriptor(n, flags);
    }

    /** sfs_open. */
    method OpenFile(name: seq<Byte>, flags: nat) returns (ret: Ret)
      requires Valid() && forall i :: 0 <= i < |name| ==> name[i] != 0
      modifies fs, pool
      ensures fs.Valid()
      ensures |name| > 255 ==> ret == NameTooLong && Abs() == old(Abs())
      ensures |name| <= 255 ==> (Abs(), ret) == Step(old(Abs()), Open(NameWords(name), flags))
      ensures |name| <= 255 && old(Enabled(Abs(), Open(NameWords(name), flags))) ==> Valid()
    {
      hide FileSystem.Valid, FileSystem.Abs, DiskInv, Dir.DirOk, LinksOk, Enabled, NameWords, Dir.Lookup;
      if |name| > 255 {
        return NameTooLong;
      }
      ghost var before := Abs();
      if Enabled(before, Open(NameWords(name), flags)) {
        StepKeepsInv(before, Open(NameWords(name), flags));
      }
      var dname := NameWords(name);
      LookupMeans(before.fs, dname);
      var found, it := FindName(dname);
      if !found {
        return NoEntry;
      }
      LookupIsLive(before, dname);
      ret := OpenExisting(Dir.EntryIno(it.Current()), flags);
    }

    /** sfs_unlink. */
    method UnlinkFile(name: seq<Byte>) returns (ret: Ret)
      requires Valid() && forall i :: 0 <= i < |name| ==> name[i] != 0
      modifies fs
      ensures Valid()
      ensures |name| > 255 ==> ret == NameTooLong && Abs() == old(Abs())
      ensures |name| <= 255 ==> (Abs(), ret) == Step(old(Abs()), Unlink(NameWords(name)))
    {
      hide FileSystem.Valid, FileSystem.Abs, DiskInv, Dir.DirOk, NameWords, Dir.Unlink, Content;
      if |name| > 255 {
        return NameTooLong;
      }
      ghost var before := Abs();
      StepKeepsInv(before, Unlink(NameWords(name)));
      var dname := NameWords(name);
      var found, it := FindName(dname);
      if !found {
        return NoEntry;
      }
      ghost var k := Dir.FirstNamed(SFS_DIR, before.fs, dname, 0);
      EntryIsLive(before, k);
      it.Unlink(k);
      ret := Done;
    }

    /** sfs_release. */
    method ReleaseFile(fh: nat) returns (ret: Ret)
      requires Valid() && Enabled(Abs(), Release(fh))
      modifies fs, pool
      ensures Valid() && (Abs(), ret) == Step(old(Abs()), Release(fh))
    {
      hide FileSystem.Valid, FileSystem.Abs, DiskInv, Dir.DirOk, Deallocate, LinksOk, Fd.PoolOk, Fd.Settled, Refs;
      ghost var before := Abs();
      StepKeepsInv(before, Release(fh));
      var fd := pool.GetFromFd(fh);
      if fd == Fd.Null {
        return BadDescriptor;
      }
      OpenIsLive(before, fh);
      var n := pool.slabs[fd.slab][fd.idx].shared.n;
      LiveNumber(before.fs, n);
      var inode := fs.ReadInode(n);
      inode := Dec(inode);
      if inode.links == 0 {
        fs.InodeDeallocate(inode);
      } else {
        fs.WriteInode(inode);
      }
      pool.Free(fd);
      ret := Done;
    }

    /** The data for block i: a whole block of the buffer, or the block as it is with its start replaced, or the
        scratch block (src/sfs.c:818-839). */
    method SourceFor(inode: Inode, q: Request, i: nat, sliceA: nat, sliceB: nat) returns (ok: bool, source: Block)
      requires fs.Valid() && DiskInv(fs.Abs()) && Agrees(fs.Abs(), inode)
      requires q.Ok() && q.Touches(i)
      requires sliceA == SliceA(q.offset, |q.buf|, i) && sliceB == SliceB(q.offset, |q.buf|, i)
      ensures !ok ==> i >= MAX_IBLOCKS
      ensures ok && i < MAX_IBLOCKS ==> source == BlockToWrite(fs.Abs(), inode.inumber, q, i)
    {
      hide FileSystem.Valid, FileSystem.Abs, DiskInv, Content, BlockToWrite, Pack, Unpack;
      PieceInBuffer(q.offset, |q.buf|, i);
      var at := i * BLOCK_SIZE - q.offset % BLOCK_SIZE;
      if sliceA == 0 && sliceB == BLOCK_SIZE {
        WholeBlock(fs.Abs(), inode.inumber, q, i);
        return true, BlockOf(q.buf[at..at + BLOCK_SIZE]);
      }
      if sliceA != 0 {
        ScratchBlock(fs.Abs(), inode.inumber, q, i);
        return true, q.scratch;
      }
      ReadBlockReadsContent(fs.Abs(), inode, i);
      ok, source := fs.InodeBlockRead(inode, i);
      if ok {
        PartialBlock(fs.Abs(), inode.inumber, q, i);
        source := BlockOf(q.buf[sliceA..sliceB] + BlockBytes(source)[sliceB..]);
      }
    }

    /** The block loop of sfs_write; fs0 is the file system before the call. */
    method WriteBlocks(inode0: Inode, q: Request, ghost fs0: Fs) returns (ok: bool)
      requires fs.Valid() && DiskInv(fs.Abs()) && Agrees(fs.Abs(), inode0)
      requires q.Ok() && q.First() <= q.Last()
      requires RunClean(fs.Abs(), inode0, q.First(), BlocksFrom(fs0, inode0.inumber, q, q.First()))
      requires forall k: nat :: k < MAX_IBLOCKS ==>
        Content(fs.Abs(), inode0.inumber, k) == Content(fs0, inode0.inumber, k)
      modifies fs
      ensures fs.Valid()
      ensures var w := WriteRun(old(fs.Abs()), inode0, q.First(), BlocksFrom(fs0, inode0.inumber, q, q.First()));
        fs.Abs() == w.fs && ok == w.ok
    {
      hide FileSystem.Valid, FileSystem.Abs, DiskInv, Content, WriteBlock, Clean, BlockToWrite, Agrees, WriteEffect,
           InBuffer;
      var size := |q.buf|;
      var first, firstOffset := q.offset / BLOCK_SIZE, q.offset % BLOCK_SIZE;
      var lastLen := (q.offset + size) % BLOCK_SIZE;
      lastLen := if lastLen == 0 then BLOCK_SIZE else lastLen;
      var last := (q.offset + size) / BLOCK_SIZE;
      last := last - if lastLen == BLOCK_SIZE then 1 else 0;
      var inode := inode0;
      ghost var n := inode0.inumber;
      ghost var run := WriteRun(fs.Abs(), inode0, first, BlocksFrom(fs0, n, q, first));
      var i := first;
      while i <= last
        invariant first <= i <= last + 1
        invariant fs.Valid() && DiskInv(fs.Abs()) && Agrees(fs.Abs(), inode) && inode.inumber == n
        invariant run == WriteRun(fs.Abs(), inode, i, BlocksFrom(fs0, n, q, i))
        invariant RunClean(fs.Abs(), inode, i, BlocksFrom(fs0, n, q, i))
        invariant forall k: nat :: i <= k < MAX_IBLOCKS ==> Content(fs.Abs(), n, k) == Content(fs0, n, k)
      {
        var sliceA, sliceB := 0, BLOCK_SIZE;
        if i == first && firstOffset != 0 {
          sliceA := firstOffset;
        }
        if i == last && lastLen != BLOCK_SIZE {
          sliceB := lastLen;
        }
        ghost var abs := fs.Abs();
        var source;
        ok, source := SourceFor(inode, q, i, sliceA, sliceB);
        if !ok {
          PastTheEnd(abs, inode, i, BlocksFrom(fs0, n, q, i));
          return;
        }
        if i < MAX_IBLOCKS {
          SameSource(abs, fs0, n, q, i);
        }
        StepOfRun(abs, inode, fs0, q, i, source);
        ok, inode := fs.InodeBlockWrite(inode, i, source);
        if !ok {
          return;
        }
        i := i + 1;
      }
      ok := true;
    }

    /** sfs_write. scratch is what its block on the stack happens to hold. Outside the domain the copy loop reads
        memory that is not the caller's, so such requests have no defined meaning. */
    method WriteFile(fh: nat, buf: seq<Byte>, offset: nat, scratch: Block) returns (ret: Ret)
      requires Valid() && offset + |buf| < 0x1_0000_0000_0000_0000
      requires |buf| > 0 ==> InBuffer(offset, |buf|)
      requires |buf| > 0 ==> Permits(Abs(), WriteOp(Abs(), fh, Request(buf, offset, scratch)))
      modifies fs
      ensures Valid()
      ensures |buf| == 0 ==> ret == Done && Abs() == old(Abs())
      ensures |buf| > 0 ==> (Abs(), ret) == Step(old(Abs()), old(WriteOp(Abs(), fh, Request(buf, offset, scratch))))
    {
      hide FileSystem.Valid, FileSystem.Abs, DiskInv, Dir.DirOk, LinksOk, Fd.PoolOk, Fd.Settled, Content, WriteRun,
           RunClean, Refs, BlocksFrom, InBuffer;
      if |buf| == 0 {
        return Done;
      }
      var q := Request(buf, offset, scratch);
      ghost var before := Abs();
      LastNotBeforeFirst(offset, |buf|);
      StepKeepsInv(before, WriteOp(before, fh, q));
      var fd := pool.GetFromFd(fh);
      if fd == Fd.Null {
        return BadDescriptor;
      }
      OpenIsLive(before, fh);
      var n := pool.slabs[fd.slab][fd.idx].shared.n;
      LiveNumber(before.fs, n);
      var inode := fs.ReadInode(n);
      if offset + |buf| > inode.size {
        inode := inode.(size := offset + |buf|);
      }
      UpdateIno(before.fs, inode);
      fs.WriteInode(inode);
      var ok := WriteBlocks(inode, q, before.fs);
      ret := if ok then Done else Failed;
    }

    /** sfs_read into the caller's buffer. ReadIsRightIff says when the buffer then holds the bytes of the range. */
    method ReadFile(fh: nat, buf: array<Byte>, offset: nat) returns (ret: Ret)
      requires Valid() && (buf.Length > 0 ==> InBuffer(offset, buf.Length))
      requires IsOpen(Abs(), fh) || Fd.GetFromFd(Abs().pool, fh) == Fd.Null
      modifies fs, buf
      ensures Valid() && Abs() == old(Abs())
      ensures buf.Length == 0 ==> ret == Done
      ensures buf.Length > 0 ==>
        ret == if !IsOpen(Abs(), fh) then BadDescriptor
               else if LastBlock(offset, buf.Length) < MAX_IBLOCKS then Done else Failed
      ensures buf.Length > 0 && ret == Done ==>
        ReadInto(Abs().fs, FileOf(Abs(), fh), old(buf[..]), buf[..], offset)
    {
      hide FileSystem.Valid, FileSystem.Abs, DiskInv, Dir.DirOk, LinksOk, Fd.PoolOk, Fd.Settled, Refs, Content;
      if buf.Length == 0 {
        return Done;
      }
      ghost var before := Abs();
      LastNotBeforeFirst(offset, buf.Length);
      var fd := pool.GetFromFd(fh);
      if fd == Fd.Null {
        return BadDescriptor;
      }
      OpenIsLive(before, fh);
      var n := pool.slabs[fd.slab][fd.idx].shared.n;
      LiveNumber(before.fs, n);
      var inode := fs.ReadInode(n);
      RewriteSame(before.fs, inode);
      fs.WriteInode(inode);
      var ok := ReadBlocks(inode, buf, offset);
      ret := if ok then Done else Failed;
    }

    /** The block loop of sfs_read. */
    method ReadBlocks(inode: Inode, buf: array<Byte>, offset: nat) returns (ok: bool)
      requires fs.Valid() && DiskInv(fs.Abs()) && Agrees(fs.Abs(), inode)
      requires buf.Length > 0 && InBuffer(offset, buf.Length) && FirstBlock(offset) <= LastBlock(offset, buf.Length)
      modifies buf
      ensures ok <==> LastBlock(offset, buf.Length) < MAX_IBLOCKS
      ensures ok ==> ReadInto(fs.Abs(), inode.inumber, old(buf[..]), buf[..], offset)
    {
      hide FileSystem.Valid, FileSystem.Abs, DiskInv, Content, Unpack, FileByte, ReadUpTo, InBuffer, CodePosition;
      ghost var was := buf[..];
      var size := buf.Length;
      var first, firstOffset := offset / BLOCK_SIZE, offset % BLOCK_SIZE;
      var lastLen := (offset + size) % BLOCK_SIZE;
      lastLen := if lastLen == 0 then BLOCK_SIZE else lastLen;
      var last := (offset + size) / BLOCK_SIZE;
      last := last - if lastLen == BLOCK_SIZE then 1 else 0;
      NothingReadYet(fs.Abs(), inode.inumber, was, offset);
      var i := first;
      while i <= last
        invariant first <= i <= last + 1 && (i <= MAX_IBLOCKS || i == first)
        invariant ReadUpTo(fs.Abs(), inode.inumber, was, buf[..], offset, i)
      {
        var sliceA, sliceB := 0, BLOCK_SIZE;
        if i == first && firstOffset != 0 {
          sliceA := firstOffset;
        }
        if i == last && lastLen != BLOCK_SIZE {
          sliceB := lastLen;
        }
        PieceInBuffer(offset, size, i);
        ReadBlockReadsContent(fs.Abs(), inode, i);
        var block;
        ok, block := fs.InodeBlockRead(inode, i);
        if !ok {
          return;
        }
        ghost var now := buf[..];
        if sliceA == 0 {
          // a whole block is read in place, a partial one copied from the scratch block
          var target := if sliceB == BLOCK_SIZE then i * BLOCK_SIZE - firstOffset else sliceA - firstOffset;
          assert target == CodePosition(offset, size, i) by { CodePositionIs(offset, size, i); }
          CopyInto(buf, target, BlockBytes(block)[sliceA..sliceB]);
        }
        ReadOneBlock(fs.Abs(), inode.inumber, was, now, buf[..], offset, i);
        i := i + 1;
      }
      ok := true;
    }
  }

  lemma CodePositionIs(offset: nat, size: nat, i: int)
    requires SliceA(offset, size, i) == 0
    ensures CodePosition(offset, size, i) ==
      (if SliceB(offset, size, i) == BLOCK_SIZE then i * BLOCK_SIZE else 0) - offset % BLOCK_SIZE
  {
  }

  /** memcpy into the caller's buffer. */
  method CopyInto(buf: array<Byte>, at: int, bytes: seq<Byte>)
    requires 0 <= at && at + |bytes| <= buf.Length
    modifies buf
    ensures forall p :: 0 <= p < buf.Length ==>
      buf[p] == if at <= p < at + |bytes| then bytes[p - at] else old(buf[p])
  {
    forall p | at <= p < at + |bytes| {
      buf[p] := bytes[p - at];
    }
  }

  lemma NothingReadYet(fs: Fs, n: Word, was: seq<Byte>, offset: nat)
    requires |was| > 0 && FirstBlock(offset) <= LastBlock(offset, |was|)
    ensures ReadUpTo(fs, n, was, was, offset, FirstBlock(offset))
  {
  }

  lemma RewriteSame(fs: Fs, ino: Inode)
    requires DiskInv(fs) && Agrees(fs, ino)
    ensures SetIno(fs, ino) == fs
  {
  }

  lemma SameSource(fs: Fs, fs0: Fs, n: Word, q: Request, i: nat)
    requires q.Ok() && q.Touches(i) && Content(fs, n, i) == Content(fs0, n, i)
    ensures BlockToWrite(fs, n, q, i) == BlockToWrite(fs0, n, q, i)
  {
  }

  lemma WholeBlock(fs: Fs, n: Word, q: Request, i: nat)
    requires q.Ok() && q.Touches(i) && SliceA(q.offset, |q.buf|, i) == 0 && SliceB(q.offset, |q.buf|, i) == BLOCK_SIZE
    ensures var at := i * BLOCK_SIZE - q.offset % BLOCK_SIZE;
      0 <= at && at + BLOCK_SIZE <= |q.buf| && BlockToWrite(fs, n, q, i) == BlockOf(q.buf[at..at + BLOCK_SIZE])
  {
    hide Pack, Unpack, Content;
    PieceInBuffer(q.offset, |q.buf|, i);
    var at := i * BLOCK_SIZE - q.offset % BLOCK_SIZE;
    assert q.buf[at..at + BLOCK_SIZE] + BlockBytes(Content(fs, n, i))[BLOCK_SIZE..] == q.buf[at..at + BLOCK_SIZE];
  }

  lemma PartialBlock(fs: Fs, n: Word, q: Request, i: nat)
    requires q.Ok() && q.Touches(i) && SliceA(q.offset, |q.buf|, i) == 0 && SliceB(q.offset, |q.buf|, i) != BLOCK_SIZE
    ensures var b := SliceB(q.offset, |q.buf|, i);
      && b <= |q.buf| && b < BLOCK_SIZE
      && BlockToWrite(fs, n, q, i) == BlockOf(q.buf[..b] + BlockBytes(Content(fs, n, i))[b..])
  {
    hide Pack, Unpack, Content;
    PieceInBuffer(q.offset, |q.buf|, i);
  }

  lemma ScratchBlock(fs: Fs, n: Word, q: Request, i: nat)
    requires q.Ok() && q.Touches(i) && SliceA(q.offset, |q.buf|, i) != 0
    ensures BlockToWrite(fs, n, q, i) == q.scratch
  {
  }

  lemma PastTheEnd(fs: Fs, ino: Inode, i: nat, blks: seq<Block>)
    requires blks != [] && i >= MAX_IBLOCKS
    ensures WriteRun(fs, ino, i, blks) == Written(fs, ino, false)
  {
  }

  /** One iteration of the write loop. */
  lemma StepOfRun(abs: Fs, inode: Inode, fs0: Fs, q: Request, i: nat, source: Block)
    requires DiskInv(abs) && Agrees(abs, inode) && q.Ok() && q.Touches(i)
    requires i < MAX_IBLOCKS ==> source == BlockToWrite(fs0, inode.inumber, q, i)
    requires RunClean(abs, inode, i, BlocksFrom(fs0, inode.inumber, q, i))
    requires forall k: nat :: i <= k < MAX_IBLOCKS ==> Content(abs, inode.inumber, k) == Content(fs0, inode.inumber, k)
    ensures var w := WriteBlock(abs, inode, i, source); var blks := BlocksFrom(fs0, inode.inumber, q, i);
      && (!w.ok ==> WriteRun(abs, inode, i, blks) == w)
      && (w.ok ==>
            var rest := BlocksFrom(fs0, inode.inumber, q, i + 1);
            && DiskInv(w.fs) && Agrees(w.fs, w.ino)
            && WriteRun(abs, inode, i, blks) == WriteRun(w.fs, w.ino, i + 1, rest)
            && RunClean(w.fs, w.ino, i + 1, rest)
            && (forall k: nat :: i + 1 <= k < MAX_IBLOCKS ==>
                  Content(w.fs, inode.inumber, k) == Content(fs0, inode.inumber, k)))
  {
    hide DiskInv, Content, BlockToWrite, InBuffer;
    var blks := BlocksFrom(fs0, inode.inumber, q, i);
    assert blks[0] == BlockToWrite(fs0, inode.inumber, q, i);
    if i < MAX_IBLOCKS {
      assert blks[1..] == BlocksFrom(fs0, inode.inumber, q, i + 1);
      WriteBlockRefinesMap(abs, inode, i, source, WriteBlock(abs, inode, i, source));
    }
  }

  /** What a successful write step does to the file: its blocks are those of BlockToWrite, its size covers the
      range, and so by ByteAfterWrite, AlignedWriteIsRight and WriteIsRightIff its bytes are known. */
  lemma WriteStepStores(s: Sys, fh: nat, q: Request)
    requires SysInv(s) && IsOpen(s, fh) && q.Ok() && q.offset + |q.buf| < 0x1_0000_0000_0000_0000
    requires StepClean(s, WriteOp(s, fh, q)) && Step(s, WriteOp(s, fh, q)).1 == Done
    ensures var n, s', end := FileOf(s, fh), Step(s, WriteOp(s, fh, q)).0, q.offset + |q.buf|;
      && Stored(s.fs, s'.fs, n, q)
      && end <= MAX_IBLOCKS * BLOCK_SIZE
      && Ino(s'.fs, n).size == if end > Ino(s.fs, n).size then end else Ino(s.fs, n).size
  {
    hide DiskInv, Content, Dir.DirOk, LinksOk, Fd.PoolOk, Fd.Settled, Refs, WriteRun, RunClean, BlocksFrom, Stored,
         InBuffer;
    var n := FileOf(s, fh);
    LastNotBeforeFirst(q.offset, |q.buf|);
    OpenIsLive(s, fh);
    LiveNumber(s.fs, n);
    var ino := Extended(Ino(s.fs, n), q.offset + |q.buf|);
    UpdateIno(s.fs, ino);
    var fs1 := SetIno(s.fs, ino);
    var blks := BlocksFrom(s.fs, n, q, q.First());
    WriteRunEffect(fs1, ino, q.First(), blks);
    RunStores(s.fs, fs1, ino, q, WriteRun(fs1, ino, q.First(), blks));
  }

  /** Block k of the root directory holds, byte for byte, an entry of inode n that readers of its name see as name. */
  ghost predicate EntryReads(fs: Fs, k: nat, n: Word, name: seq<Byte>) {
    var bytes := BlockBytes(Content(fs, Dir.ROOT, k));
    FromBytes(bytes[..8]) == n && CString(bytes[8..264]) == name
  }

  /** A name that is found is among those that iterating over the directory yields, and reads back as the caller wrote
      it. */
  lemma NameIsListed(fs: Fs, name: seq<Byte>) returns (k: nat)
    requires IsName(name) && Dir.Lookup(SFS_DIR, fs, NameWords(name)) != 0
    ensures k in Dir.Yielded(SFS_DIR, fs, 0) && EntryReads(fs, k, Dir.Lookup(SFS_DIR, fs, NameWords(name)), name)
  {
    hide Content, Unpack, Pack, NameWords;
    k := Dir.FirstNamed(SFS_DIR, fs, NameWords(name), 0);
    Dir.IterationYieldsAll(SFS_DIR, fs, 0, k);
    var b := Content(fs, Dir.ROOT, k);
    assert Dir.Entry(SFS_DIR, fs, k) == b[0..33];
    assert NameWords(name) == b[0..33][1..] == b[1..33];
    UnpackSlice(b, 1, 33);
    WordAtByte(b, 0);
    StoredNameReadsBack(name);
  }

  /** After a create that opens, the directory lists the name as the caller gave it, with the inode now open. */
  lemma CreatedNameIsListed(s: Sys, name: seq<Byte>, excl: bool, flags: nat) returns (k: nat)
    requires SysInv(s) && IsName(name) && Permits(s, Create(NameWords(name), excl, flags))
    requires Step(s, Create(NameWords(name), excl, flags)).1.Opened?
    ensures var (s', ret) := Step(s, Create(NameWords(name), excl, flags));
      k in Dir.Yielded(SFS_DIR, s'.fs, 0) && EntryReads(s'.fs, k, OpenAt(s', ret.fd), name)
  {
    hide SysInv, Step, StepClean, Enabled, NameWords, EntryReads, Dir.Lookup;
    DescriptorsAfterStep(s, Create(NameWords(name), excl, flags));
    k := NameIsListed(Step(s, Create(NameWords(name), excl, flags)).0.fs, name);
  }

  /** A wrong write: 513 bytes at offset 0. Once it reports success, byte 512 of the file is the first byte of the
      buffer. */
  lemma WrongWrite(s: Sys, fh: nat, q: Request)
    requires SysInv(s) && IsOpen(s, fh) && q.offset == 0 && |q.buf| == BLOCK_SIZE + 1 && q.buf[0] != q.buf[BLOCK_SIZE]
    requires Permits(s, WriteOp(s, fh, q)) && Step(s, WriteOp(s, fh, q)).1 == Done
    ensures FileByte(Step(s, WriteOp(s, fh, q)).0.fs, FileOf(s, fh), BLOCK_SIZE) == q.buf[0] != q.buf[BLOCK_SIZE]
  {
    hide SysInv, Stored, Step, StepClean, Enabled, FileByte, WriteOp;
    WriteStepStores(s, fh, q);
    ByteAfterWrite(s.fs, Step(s, WriteOp(s, fh, q)).0.fs, FileOf(s, fh), q, BLOCK_SIZE);
  }

  /** An aligned write that reports success can be read back: after any run that does not write to the file and in
      which something always refers to it, a read of the range through any descriptor open on the file returns
      what was written. */
  lemma WrittenIsReadBack(s: Sys, fh: nat, q: Request, ops: seq<Op>, fh2: nat, was: seq<Byte>, now: seq<Byte>)
    requires SysInv(s) && IsOpen(s, fh) && |q.buf| > 0 && Aligned(q.offset, |q.buf|)
    requires q.offset + |q.buf| < 0x1_0000_0000_0000_0000
    requires Permits(s, WriteOp(s, fh, q)) && Step(s, WriteOp(s, fh, q)).1 == Done
    requires var n, s1 := FileOf(s, fh), Step(s, WriteOp(s, fh, q)).0;
      && Permitted(s1, ops) && Undisturbed(s1, ops, n)
      && IsOpen(Run(s1, ops), fh2) && FileOf(Run(s1, ops), fh2) == n
      && |was| == |q.buf| && ReadInto(Run(s1, ops).fs, n, was, now, q.offset)
    ensures now == q.buf
  {
    hide SysInv, Stored, ReadInto, Permitted, Undisturbed, Run, Step, StepClean, Enabled, WritesRight, InBuffer,
         WriteOp;
    AlignedIsInBuffer(q.offset, |q.buf|);
    var n, s1 := FileOf(s, fh), Step(s, WriteOp(s, fh, q)).0;
    var s2 := Run(s1, ops);
    StepKeepsInv(s, WriteOp(s, fh, q));
    OpenIsLive(s, fh);
    WriteStepStores(s, fh, q);
    AlignedWriteIsRight(s.fs, s1.fs, n, q);
    UnwrittenFilesSurvive(s1, ops, n);
    ReadsWhatWasWritten(s.fs, s1.fs, s2.fs, n, q, was, now);
  }

  lemma AlignedIsInBuffer(offset: nat, size: nat)
    requires Aligned(offset, size)
    ensures InBuffer(offset, size)
  {
  }

  lemma ReadsWhatWasWritten(fs0: Fs, fs: Fs, fs': Fs, n: Word, q: Request, was: seq<Byte>, now: seq<Byte>)
    requires |q.buf| > 0 && Aligned(q.offset, |q.buf|) && q.offset + |q.buf| <= MAX_IBLOCKS * BLOCK_SIZE
    requires WritesRight(fs0, fs, n, q) && SameFile(fs, fs', n)
    requires |was| == |q.buf| && ReadInto(fs', n, was, now, q.offset)
    ensures now == q.buf
  {
    hide FileByte, ReadInto, SameFile;
    AlignedReadIsRight(fs', n, was, now, q.offset);
    LengthOfRead(fs', n, was, now, q.offset);
    forall p | 0 <= p < |q.buf| ensures now[p] == q.buf[p] {
      SameBytes(fs, fs', n, q.offset + p);
      assert q.Holds(q.offset + p);
    }
  }

  lemma SameBytes(fs: Fs, fs': Fs, n: Word, x: nat)
    requires SameFile(fs, fs', n) && x < MAX_IBLOCKS * BLOCK_SIZE
    ensures FileByte(fs', n, x) == FileByte(fs, n, x)
  {
    hide Content;
  }

  lemma LengthOfRead(fs: Fs, n: Word, was: seq<Byte>, now: seq<Byte>, offset: nat)
    requires ReadInto(fs, n, was, now, offset)
    ensures |now| == |was|
  {
  }

  lemma FirstNamedIs(fs: Fs, name: FileName, k: nat)
    requires k <= Dir.Len(SFS_DIR, fs) && forall j :: 0 <= j < k ==> !Dir.Names(SFS_DIR, fs, j, name)
    requires k < Dir.Len(SFS_DIR, fs) ==> Dir.Names(SFS_DIR, fs, k, name)
    ensures Dir.FirstNamed(SFS_DIR, fs, name, 0) == k
  {
    hide Dir.Names;
  }

  lemma LookupMeans(fs: Fs, name: FileName)
    ensures var k := Dir.FirstNamed(SFS_DIR, fs, name, 0);
      Dir.Lookup(SFS_DIR, fs, name) == if k < Dir.Len(SFS_DIR, fs) then Dir.EntryIno(Dir.Entry(SFS_DIR, fs, k)) else 0
    ensures Dir.Lookup(SFS_DIR, fs, name) == 0 <==> Dir.FirstNamed(SFS_DIR, fs, name, 0) == Dir.Len(SFS_DIR, fs)
  {
  }
}
