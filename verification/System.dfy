/** The whole file system as a state machine: disk, descriptor table and the operations of src/sfs.c. */
module System {
  import opened Words
  import opened FreeList
  import opened Inodes
  import opened Files
  import Dir = Directory
  import Fd = Descriptors

  /** struct sfs_dir_entry has 264 bytes, so one fits a block (src/dir.h:6-9). */
  const SFS_DIR: Dir.Layout := Dir.Shape(33, 1)

  /** A name as stored: 256 bytes, zero padded. */
  type FileName = s: Dir.Name | |s| == SFS_DIR.words - 1 witness Zeros(32)

  /** orphans: inodes that a create left behind when it could not add the directory entry (src/sfs.c:395-399). */
  datatype Sys = Sys(fs: Fs, pool: Fd.Pool, orphans: set<Word>)

  /** Descriptor numbers are C ints. */
  const FD_LIMIT := INT_LIMIT

  datatype Ret =
    | Opened(fd: nat)
    | Done
    | Exists          // EEXIST
    | NoEntry         // ENOENT
    | NoInode         // EDQUOT: the inode free list is empty
    | NameTooLong     // ENAMETOOLONG
    | BadDescriptor
    | Failed          // -1
    | Aborted         // assert(inode->inumber > 0) fails

  /** The operations. Write stands for every sfs_write call: whatever bytes end up in the blocks it covers,
      end is offset + size and first the first block. */
  datatype Op =
    | Create(name: FileName, excl: bool, flags: nat)
    | Open(name: FileName, flags: nat)
    | Unlink(name: FileName)
    | Release(fh: nat)
    | Write(fh: nat, end: Word, first: nat, blks: seq<Block>)

  /** One more link, held by a new descriptor. */
  function OpenInode(s: Sys, n: Word, flags: nat): (Sys, Ret) {
    var o := Fd.Open(s.pool, n, flags);
    (s.(fs := SetIno(s.fs, Inc(Ino(s.fs, n))), pool := o.0), Opened(if o.1.At? then Fd.Number(o.1) else 0))
  }

  function NewFile(fs: Fs): Inode {
    Inode(Ino(fs, fs.ihead).inumber, 1, 0, NO_PTRS)
  }

  /** The disk after a new inode was taken and written, before it is linked. */
  function WithNewFile(fs: Fs): Fs {
    SetIno(TakeInode(fs), NewFile(fs))
  }

  function CreateFile(s: Sys, name: FileName, flags: nat): (Sys, Ret) {
    var file := NewFile(s.fs);
    var l := Dir.Link(SFS_DIR, WithNewFile(s.fs), name, file);
    if !l.ok then (Sys(l.fs, s.pool, s.orphans + {file.inumber}), Failed)
    else
      var o := Fd.Open(s.pool, file.inumber, flags);
      (Sys(l.fs, o.0, s.orphans), Opened(if o.1.At? then Fd.Number(o.1) else 0))
  }

  function DoCreate(s: Sys, name: FileName, excl: bool, flags: nat): (Sys, Ret) {
    var n := Dir.Lookup(SFS_DIR, s.fs, name);
    if n != 0 then if excl then (s, Exists) else OpenInode(s, n, flags)
    else if s.fs.ihead == 0 then (s, NoInode)
    else if Ino(s.fs, s.fs.ihead).inumber == 0 then (s.(fs := TakeInode(s.fs)), Aborted)
    else CreateFile(s, name, flags)
  }

  function DoUnlink(s: Sys, name: FileName): (Sys, Ret) {
    var k := Dir.FirstNamed(SFS_DIR, s.fs, name, 0);
    if k < Dir.Len(SFS_DIR, s.fs) then (s.(fs := Dir.Unlink(SFS_DIR, s.fs, k)), Done) else (s, NoEntry)
  }

  function DoRelease(s: Sys, fh: nat): (Sys, Ret) {
    var p := Fd.GetFromFd(s.pool, fh);
    if p == Fd.Null then (s, BadDescriptor)
    else match Fd.Deref(s.pool.slabs, p).shared
      case Inum(n) => (s.(fs := Dir.DropLink(s.fs, n), pool := Fd.FreeSlot(s.pool, p)), Done)
      case Next(_) => (s, BadDescriptor)
  }

  /** The inode as sfs_write stores it before the first block (src/sfs.c:784-799). */
  function Extended(ino: Inode, end: Word): Inode {
    if end > ino.size then ino.(size := end) else ino
  }

  function DoWrite(s: Sys, fh: nat, end: Word, first: nat, blks: seq<Block>): (Sys, Ret) {
    var p := Fd.GetFromFd(s.pool, fh);
    if p == Fd.Null then (s, BadDescriptor)
    else match Fd.Deref(s.pool.slabs, p).shared
      case Inum(n) =>
        var ino := Extended(Ino(s.fs, n), end);
        var w := WriteRun(SetIno(s.fs, ino), ino, first, blks);
        (s.(fs := w.fs), if w.ok then Done else Failed)
      case Next(_) => (s, BadDescriptor)
  }

  function Step(s: Sys, op: Op): (Sys, Ret) {
    match op
    case Create(name, excl, flags) => DoCreate(s, name, excl, flags)
    case Open(name, flags) =>
      var n := Dir.Lookup(SFS_DIR, s.fs, name);
      if n != 0 then OpenInode(s, n, flags) else (s, NoEntry)
    case Unlink(name) => DoUnlink(s, name)
    case Release(fh) => DoRelease(s, fh)
    case Write(fh, end, first, blks) => DoWrite(s, fh, end, first, blks)
  }

  // ---------------------------------------------------------------- invariant

  /** Everything that refers to an inode: directory entries, open descriptors, and orphans. */
  ghost function Refs(s: Sys): multiset<Word> {
    multiset(Dir.Inos(SFS_DIR, s.fs)) + multiset(Fd.Opens(s.pool)) + multiset(s.orphans)
  }

  /** Each inode but the root is off the free list exactly as long as something refers to it, and its link
      count is the number of references. */
  ghost predicate LinksOk(fs: Fs, refs: multiset<Word>) {
    && refs[Dir.ROOT] == 0
    && (forall n: Word :: 2 <= n ==> (Live(fs, n) <==> refs[n] > 0))
    && (forall n: Word :: 2 <= n && Live(fs, n) ==> Ino(fs, n).links == refs[n])
  }

  ghost predicate SysInv(s: Sys) {
    && DiskInv(s.fs) && Dir.DirOk(SFS_DIR, s.fs)
    && Fd.PoolOk(s.pool) && Fd.Settled(s.pool) && |s.pool.slabs| * Fd.SLOTS <= FD_LIMIT
    && LinksOk(s.fs, Refs(s))
  }

  /** What the kernel and the C types demand of a call: descriptor numbers stay ints, and FUSE uses a
      descriptor only between its open and its single release (src/sfs.c:604-615). */
  predicate Enabled(s: Sys, op: Op) {
    match op
    case Create(_, _, _) => |Fd.Ready(s.pool).slabs| * Fd.SLOTS <= FD_LIMIT
    case Open(_, _) => |Fd.Ready(s.pool).slabs| * Fd.SLOTS <= FD_LIMIT
    case Unlink(_) => true
    case Release(fh) => IsOpen(s, fh) || Fd.GetFromFd(s.pool, fh) == Fd.Null
    case Write(fh, _, _, _) => IsOpen(s, fh) || Fd.GetFromFd(s.pool, fh) == Fd.Null
  }

  predicate IsOpen(s: Sys, fh: nat) {
    var p := Fd.GetFromFd(s.pool, fh);
    p != Fd.Null && Fd.Deref(s.pool.slabs, p).shared.Inum?
  }

  /** A create that finds the free list at its formatted end reads the inode past the table. It is harmless if that
      inode's number is 0 and its size ends the list. */
  predicate EndClean(fs: Fs) {
    fs.ilist == [] && fs.ihead != 0 ==> PastEnd(fs).inumber == 0 && EndsList(fs)
  }

  /** The hypothesis on stale data: a block newly taken as an indirect block reads as zeros, and an inode taken past
      the end of the table is harmless. */
  predicate StepClean(s: Sys, op: Op) {
    match op
    case Create(name, _, _) =>
      Dir.Lookup(SFS_DIR, s.fs, name) == 0 ==>
        EndClean(s.fs) && (s.fs.ilist != [] ==> Dir.LinkClean(SFS_DIR, WithNewFile(s.fs)))
    case Write(fh, end, first, blks) =>
      IsOpen(s, fh) ==>
        var n := Fd.Deref(s.pool.slabs, Fd.GetFromFd(s.pool, fh)).shared.n;
        var ino := Extended(Ino(s.fs, n), end);
        RunClean(SetIno(s.fs, ino), ino, first, blks)
    case _ => true
  }

  // ---------------------------------------------------------------- counting

  lemma {:induction false} ZerosCountNothing(k: nat, n: Word)
    requires n != 0
    ensures multiset(Zeros(k))[n] == 0
    decreases k
  {
    if k > 0 {
      ZerosCountNothing(k - 1, n);
      assert Zeros(k) == Zeros(k - 1) + [0];
    }
  }

  lemma {:induction false} CountBounded(s: seq<Word>, n: Word)
    ensures multiset(s)[n] <= |s|
    decreases s
  {
    if s != [] {
      CountBounded(s[1..], n);
      assert s == [s[0]] + s[1..];
    }
  }

  lemma CountInSet(o: set<Word>, n: Word)
    ensures multiset(o)[n] == if n in o then 1 else 0
  {
  }

  /** No link count ever reaches its 32-bit limit. */
  lemma RefsBounded(s: Sys, n: Word)
    requires SysInv(s)
    ensures Refs(s)[n] <= MAX_IBLOCKS + FD_LIMIT + 1 < LINK_MOD - 1
  {
    CountBounded(Dir.Inos(SFS_DIR, s.fs), n);
    CountBounded(Fd.Opens(s.pool), n);
  }

  lemma CountAfterPut(s: seq<Word>, k: nat, i: nat, n: Word)
    requires i < |s| + k && (s + Zeros(k))[i] == 0 && n != 0
    ensures forall m: Word :: m != 0 ==> multiset((s + Zeros(k))[i := n])[m] == multiset(s)[m] + if m == n then 1 else 0
  {
    var before: seq<Word> := s + Zeros(k);
    assert multiset(before) == multiset(s) + multiset(Zeros(k));
    assert multiset(before[i := n]) == multiset(before) - multiset{0} + multiset{n};
    forall m: Word | m != 0 ensures multiset(Zeros(k))[m] == 0 {
      ZerosCountNothing(k, m);
    }
  }

  /** A new descriptor on inode n adds one reference to n and none to any other inode. */
  lemma OpenAddsRef(pool: Fd.Pool, n: Word, flags: nat)
    requires Fd.PoolOk(pool) && Fd.Settled(pool) && n != 0
    ensures forall m: Word :: m != 0 ==>
      multiset(Fd.Opens(Fd.Open(pool, n, flags).0))[m] == multiset(Fd.Opens(pool))[m] + if m == n then 1 else 0
  {
    hide Fd.PoolOk, Fd.Settled, Fd.Open, Fd.Opens;
    Fd.OpensAfterOpen(pool, n, flags);
    var o := Fd.Open(pool, n, flags);
    CountAfterPut(Fd.Opens(pool), if pool.freelist == Fd.Null then Fd.SLOTS else 0, Fd.Number(o.1), n);
  }

  lemma FreeDropsRef(pool: Fd.Pool, p: Fd.Ptr)
    requires Fd.PoolOk(pool) && Fd.Settled(pool) && Fd.In(pool.slabs, p) && Fd.Deref(pool.slabs, p).shared.Inum?
    ensures var n := Fd.Deref(pool.slabs, p).shared.n;
      && multiset(Fd.Opens(pool))[n] > 0
      && (forall m: Word :: m != 0 ==>
            multiset(Fd.Opens(Fd.FreeSlot(pool, p)))[m] == multiset(Fd.Opens(pool))[m] - if m == n then 1 else 0)
  {
    Fd.OpensAfterFree(pool, p);
    var opens: seq<Word> := Fd.Opens(pool);
    var n := Fd.Deref(pool.slabs, p).shared.n;
    assert opens[Fd.Number(p)] == n && n in opens;
    assert multiset(opens[Fd.Number(p) := 0]) == multiset(opens) - multiset{n} + multiset{0};
  }

  /** An entry that has a name refers to a live inode other than the root. */
  lemma EntryIsLive(s: Sys, k: nat)
    requires SysInv(s) && k < Dir.Len(SFS_DIR, s.fs) && Dir.Used(SFS_DIR, s.fs, k)
    ensures var n := Dir.EntryIno(Dir.Entry(SFS_DIR, s.fs, k)); 2 <= n && Live(s.fs, n) && Refs(s)[n] > 0
  {
    hide DiskInv, Content, Dir.DirOk, Fd.PoolOk, Fd.Settled, Fd.Opens;
    var n := Dir.EntryIno(Dir.Entry(SFS_DIR, s.fs, k));
    assert Dir.Inos(SFS_DIR, s.fs)[k] == n && n in Dir.Inos(SFS_DIR, s.fs);
  }

  lemma LookupIsLive(s: Sys, name: FileName)
    requires SysInv(s) && Dir.Lookup(SFS_DIR, s.fs, name) != 0
    ensures var n := Dir.Lookup(SFS_DIR, s.fs, name); 2 <= n && Live(s.fs, n)
  {
    var k := Dir.FirstNamed(SFS_DIR, s.fs, name, 0);
    EntryIsLive(s, k);
  }

  /** So does an open descriptor. */
  lemma OpenIsLive(s: Sys, fh: nat)
    requires SysInv(s) && IsOpen(s, fh)
    ensures var n := Fd.Deref(s.pool.slabs, Fd.GetFromFd(s.pool, fh)).shared.n;
      2 <= n && Live(s.fs, n) && Refs(s)[n] > 0
  {
    var p := Fd.GetFromFd(s.pool, fh);
    FreeDropsRef(s.pool, p);
    assert Fd.In(s.pool.slabs, p);
  }

  // ---------------------------------------------------------------- every step

  /** Inode metadata changed but the directory and all contents did not. */
  lemma DirectoryUntouched(fs: Fs, fs': Fs)
    requires Dir.DirOk(SFS_DIR, fs)
    requires Ino(fs', Dir.ROOT).size == Ino(fs, Dir.ROOT).size
    requires forall k: nat :: k < MAX_IBLOCKS ==> Content(fs', Dir.ROOT, k) == Content(fs, Dir.ROOT, k)
    ensures Dir.DirOk(SFS_DIR, fs') && Dir.Inos(SFS_DIR, fs') == Dir.Inos(SFS_DIR, fs)
    ensures forall nm: Dir.Name :: Dir.Lookup(SFS_DIR, fs', nm) == Dir.Lookup(SFS_DIR, fs, nm)
  {
    Dir.EntriesKept(SFS_DIR, fs, fs');
  }

  /** References and links change together, and only at inode n. */
  lemma LinksAfter(fs: Fs, refs: multiset<Word>, fs': Fs, refs': multiset<Word>, n: Word)
    requires LinksOk(fs, refs) && 2 <= n
    requires forall m: Word :: m != 0 && m != n ==> refs'[m] == refs[m]
    requires forall m: Word :: 2 <= m && m != n ==> (Live(fs', m) <==> Live(fs, m))
    requires forall m: Word :: 2 <= m && m != n && Live(fs, m) ==> Ino(fs', m).links == Ino(fs, m).links
    requires Live(fs', n) <==> refs'[n] > 0
    requires Live(fs', n) ==> Ino(fs', n).links == refs'[n]
    ensures LinksOk(fs', refs')
  {
  }

  /** Giving up a reference: the inode goes free exactly when it was the last. */
  lemma LinksAfterDrop(fs: Fs, refs: multiset<Word>, fs': Fs, refs': multiset<Word>, n: Word)
    requires LinksOk(fs, refs) && 2 <= n && Live(fs, n)
    requires forall m: Word :: m != 0 ==> refs'[m] == refs[m] - if m == n then 1 else 0
    requires fs'.tb == fs.tb && fs'.ilist == if Ino(fs, n).links == 1 then [n] + fs.ilist else fs.ilist
    requires forall m: Word :: 2 <= m && m != n ==> Ino(fs', m) == Ino(fs, m)
    requires Ino(fs, n).links != 1 ==> Ino(fs', n) == Dec(Ino(fs, n))
    ensures LinksOk(fs', refs')
  {
    LinksAfter(fs, refs, fs', refs', n);
  }

  /** Taking a reference. */
  lemma LinksAfterOpen(fs: Fs, refs: multiset<Word>, fs': Fs, refs': multiset<Word>, n: Word)
    requires LinksOk(fs, refs) && 2 <= n && Live(fs, n) && refs[n] < LINK_MOD - 1
    requires forall m: Word :: m != 0 ==> refs'[m] == refs[m] + if m == n then 1 else 0
    requires fs'.tb == fs.tb && fs'.ilist == fs.ilist && Ino(fs', n) == Inc(Ino(fs, n))
    requires forall m: Word :: m != n ==> Ino(fs', m) == Ino(fs, m)
    ensures LinksOk(fs', refs')
  {
    LinksAfter(fs, refs, fs', refs', n);
  }

  lemma OpenKeepsInv(s: Sys, n: Word, flags: nat)
    requires SysInv(s) && 2 <= n && Live(s.fs, n) && |Fd.Ready(s.pool).slabs| * Fd.SLOTS <= FD_LIMIT
    ensures SysInv(OpenInode(s, n, flags).0)
  {
    hide DiskInv, Content, Dir.DirOk, Fd.PoolOk, Fd.Settled, Fd.Opens, Dir.Lookup, Dir.Inos, LinksOk;
    var s' := OpenInode(s, n, flags).0;
    RefsBounded(s, n);
    LiveNumber(s.fs, n);
    Dir.RootIsLive(s.fs);
    UpdateIno(s.fs, Inc(Ino(s.fs, n)));
    DirectoryUntouched(s.fs, s'.fs);
    Fd.OpenOk(s.pool, n, flags);
    OpenAddsRef(s.pool, n, flags);
    LinksAfterOpen(s.fs, Refs(s), s'.fs, Refs(s'), n);
  }

  /** The disk's side of releasing a descriptor. */
  lemma DropKeepsDirectory(fs: Fs, n: Word)
    requires DiskInv(fs) && Dir.DirOk(SFS_DIR, fs) && Live(fs, n) && 2 <= n && Ino(fs, n).links > 0
    ensures var fs' := Dir.DropLink(fs, n);
      Dir.Dropped(fs, n, fs') && Dir.DirOk(SFS_DIR, fs') && Dir.Inos(SFS_DIR, fs') == Dir.Inos(SFS_DIR, fs)
    ensures forall nm: Dir.Name :: Dir.Lookup(SFS_DIR, Dir.DropLink(fs, n), nm) == Dir.Lookup(SFS_DIR, fs, nm)
  {
    hide StoreOk, Owned, Target, Content;
    Dir.DropLinkEffect(fs, n);
    Dir.RootIsLive(fs);
    Dir.RootIsLive(Dir.DropLink(fs, n));
    DirectoryUntouched(fs, Dir.DropLink(fs, n));
  }

  lemma ReleaseKeepsInv(s: Sys, fh: nat)
    requires SysInv(s) && IsOpen(s, fh)
    ensures SysInv(DoRelease(s, fh).0)
  {
    hide DiskInv, Content, Dir.DirOk, Fd.PoolOk, Fd.Settled, Fd.Opens, Dir.Lookup, Dir.DropLink;
    var s' := DoRelease(s, fh).0;
    var p := Fd.GetFromFd(s.pool, fh);
    var n := Fd.Deref(s.pool.slabs, p).shared.n;
    OpenIsLive(s, fh);
    DropKeepsDirectory(s.fs, n);
    Fd.FreeSlotOk(s.pool, p);
    FreeDropsRef(s.pool, p);
    LinksAfterDrop(s.fs, Refs(s), s'.fs, Refs(s'), n);
  }

  lemma ClearDropsRef(inos: seq<Word>, k: nat)
    requires k < |inos| && inos[k] != 0
    ensures forall m: Word :: m != 0 ==> multiset(inos[k := 0])[m] == multiset(inos)[m] - if m == inos[k] then 1 else 0
  {
    assert inos[k] in inos;
    assert multiset(inos[k := 0]) == multiset(inos) - multiset{inos[k]} + multiset{0};
  }

  lemma UnlinkKeepsInv(s: Sys, name: FileName)
    requires SysInv(s)
    ensures SysInv(DoUnlink(s, name).0)
  {
    hide DiskInv, Content, Dir.DirOk, Fd.PoolOk, Fd.Settled, Fd.Opens, Dir.Lookup, Dir.DropLink, Dir.Unlink;
    var k := Dir.FirstNamed(SFS_DIR, s.fs, name, 0);
    if k < Dir.Len(SFS_DIR, s.fs) {
      var s' := DoUnlink(s, name).0;
      var n := Dir.EntryIno(Dir.Entry(SFS_DIR, s.fs, k));
      EntryIsLive(s, k);
      Dir.UnlinkRemovesEntry(SFS_DIR, s.fs, k, s'.fs);
      Dir.DropLinkEffect(s.fs, n);
      ClearDropsRef(Dir.Inos(SFS_DIR, s.fs), k);
      LinksAfterDrop(s.fs, Refs(s), s'.fs, Refs(s'), n);
    }
  }

  lemma WriteKeepsInv(s: Sys, fh: nat, end: Word, first: nat, blks: seq<Block>)
    requires SysInv(s) && IsOpen(s, fh) && StepClean(s, Write(fh, end, first, blks))
    ensures SysInv(DoWrite(s, fh, end, first, blks).0)
  {
    hide DiskInv, Content, Dir.DirOk, Fd.PoolOk, Fd.Settled, Fd.Opens, Dir.Lookup, WriteRun, RunClean;
    LiveNumberOfOpen(s, fh);
    var s' := DoWrite(s, fh, end, first, blks).0;
    var n := Fd.Deref(s.pool.slabs, Fd.GetFromFd(s.pool, fh)).shared.n;
    var ino := Extended(Ino(s.fs, n), end);
    OpenIsLive(s, fh);
    UpdateIno(s.fs, ino);
    WriteRunEffect(SetIno(s.fs, ino), ino, first, blks);
    Dir.RootIsLive(s.fs);
    DirectoryUntouched(s.fs, s'.fs);
    assert Refs(s') == Refs(s);
  }

  lemma LiveNumberOfOpen(s: Sys, fh: nat)
    requires SysInv(s) && IsOpen(s, fh)
    ensures var n := Fd.Deref(s.pool.slabs, Fd.GetFromFd(s.pool, fh)).shared.n; Ino(s.fs, n).inumber == n
  {
    OpenIsLive(s, fh);
    LiveNumber(s.fs, Fd.Deref(s.pool.slabs, Fd.GetFromFd(s.pool, fh)).shared.n);
  }

  lemma NewFileIsLinkable(s: Sys)
    requires SysInv(s) && s.fs.ilist != []
    ensures var fs1 := WithNewFile(s.fs); var n := s.fs.ihead;
      && NewFile(s.fs) == Inode(n, 1, 0, NO_PTRS) && Ino(s.fs, n).inumber == n
      && DiskInv(fs1) && Dir.DirOk(SFS_DIR, fs1) && Agrees(fs1, NewFile(s.fs)) && 2 <= n
      && Dir.Inos(SFS_DIR, fs1) == Dir.Inos(SFS_DIR, s.fs)
      && (forall nm: Dir.Name :: Dir.Lookup(SFS_DIR, fs1, nm) == Dir.Lookup(SFS_DIR, s.fs, nm))
      && (forall m: Word :: Live(fs1, m) <==> Live(s.fs, m) || m == n)
      && (forall m: Word :: Live(s.fs, m) ==> Ino(fs1, m) == Ino(s.fs, m))
      && !Live(s.fs, n) && Refs(s)[n] == 0
      && SameFiles(s.fs, fs1, 0) && (forall k: nat :: Content(fs1, n, k) == ZERO_BLOCK)
      && Conserves(s.fs, fs1)
  {
    hide StoreOk, Owned, Target, Content, Conserves;
    NewInode(s.fs, NewFile(s.fs));
    Dir.RootIsLive(s.fs);
    DirectoryUntouched(s.fs, WithNewFile(s.fs));
  }

  lemma CreateKeepsInv(s: Sys, name: FileName, flags: nat)
    requires SysInv(s) && s.fs.ilist != [] && Dir.Lookup(SFS_DIR, s.fs, name) == 0
    requires Dir.LinkClean(SFS_DIR, WithNewFile(s.fs)) && |Fd.Ready(s.pool).slabs| * Fd.SLOTS <= FD_LIMIT
    ensures SysInv(CreateFile(s, name, flags).0)
  {
    hide DiskInv, Content, Dir.DirOk, Fd.PoolOk, Fd.Settled, Fd.Opens, Dir.Lookup, Dir.Link, Dir.LinkClean, WithNewFile,
         NewFile;
    NewFileIsLinkable(s);
    var l := Dir.Link(SFS_DIR, WithNewFile(s.fs), name, NewFile(s.fs));
    Dir.LinkAddsOneEntry(SFS_DIR, WithNewFile(s.fs), name, NewFile(s.fs), l);
    if l.ok {
      CreatedKeepsInv(s, WithNewFile(s.fs), l.fs, s.fs.ihead, flags);
    } else {
      OrphanKeepsInv(s, WithNewFile(s.fs), l.fs, s.fs.ihead);
    }
  }

  /** The new inode is in the directory and gets a descriptor: two references, two links. */
  lemma CreatedKeepsInv(s: Sys, fs1: Fs, fs': Fs, n: Word, flags: nat)
    requires SysInv(s) && 2 <= n && Refs(s)[n] == 0 && |Fd.Ready(s.pool).slabs| * Fd.SLOTS <= FD_LIMIT
    requires forall m: Word :: Live(fs1, m) <==> Live(s.fs, m) || m == n
    requires forall m: Word :: Live(s.fs, m) ==> Ino(fs1, m) == Ino(s.fs, m)
    requires Dir.Inos(SFS_DIR, fs1) == Dir.Inos(SFS_DIR, s.fs) && Dir.Kept(fs1, fs', n) && DiskInv(fs')
      && Dir.DirOk(SFS_DIR, fs')
    requires Ino(fs', n).links == 2
    requires var h := Dir.FirstEmpty(SFS_DIR, fs1, 0);
      && (h < Dir.Len(SFS_DIR, fs1) ==> Dir.Inos(SFS_DIR, fs1)[h] == 0)
      && Dir.Inos(SFS_DIR, fs') == Dir.NewInos(SFS_DIR, fs1, h, n)
    ensures SysInv(Sys(fs', Fd.Open(s.pool, n, flags).0, s.orphans))
  {
    hide DiskInv, Content, Dir.DirOk, Fd.PoolOk, Fd.Settled, Fd.Opens, Dir.Inos;
    var s' := Sys(fs', Fd.Open(s.pool, n, flags).0, s.orphans);
    LinkAddsRef(fs1, fs', n);
    Fd.OpenOk(s.pool, n, flags);
    OpenAddsRef(s.pool, n, flags);
    assert forall m: Word :: Live(fs', m) <==> Live(fs1, m);
    LinksAfter(s.fs, Refs(s), fs', Refs(s'), n);
  }

  /** The directory entry could not be added: the inode stays allocated with one link and no name. */
  lemma OrphanKeepsInv(s: Sys, fs1: Fs, fs': Fs, n: Word)
    requires SysInv(s) && 2 <= n && Refs(s)[n] == 0
    requires forall m: Word :: Live(fs1, m) <==> Live(s.fs, m) || m == n
    requires forall m: Word :: Live(s.fs, m) ==> Ino(fs1, m) == Ino(s.fs, m)
    requires Dir.Inos(SFS_DIR, fs1) == Dir.Inos(SFS_DIR, s.fs) && Dir.Kept(fs1, fs', n) && DiskInv(fs')
      && Dir.DirOk(SFS_DIR, fs')
    requires Ino(fs', n).links == 1 && Dir.Inos(SFS_DIR, fs') == Dir.Inos(SFS_DIR, fs1)
    ensures SysInv(Sys(fs', s.pool, s.orphans + {n}))
  {
    hide DiskInv, Content, Dir.DirOk, Fd.PoolOk, Fd.Settled, Fd.Opens, Dir.Inos;
    var s' := Sys(fs', s.pool, s.orphans + {n});
    CountInSet(s.orphans, n);
    assert forall m: Word :: Live(fs', m) <==> Live(fs1, m);
    LinksAfter(s.fs, Refs(s), fs', Refs(s'), n);
  }

  lemma LinkAddsRef(fs: Fs, fs': Fs, n: Word)
    requires n != 0
    requires var h := Dir.FirstEmpty(SFS_DIR, fs, 0);
      && (h < Dir.Len(SFS_DIR, fs) ==> Dir.Inos(SFS_DIR, fs)[h] == 0)
      && Dir.Inos(SFS_DIR, fs') == Dir.NewInos(SFS_DIR, fs, h, n)
    ensures forall m: Word :: m != 0 ==>
      multiset(Dir.Inos(SFS_DIR, fs'))[m] == multiset(Dir.Inos(SFS_DIR, fs))[m] + if m == n then 1 else 0
  {
    var h, inos: seq<Word> := Dir.FirstEmpty(SFS_DIR, fs, 0), Dir.Inos(SFS_DIR, fs);
    if h < Dir.Len(SFS_DIR, fs) {
      assert multiset(inos[h := n]) == multiset(inos) - multiset{0} + multiset{n};
    }
  }

  /** Every operation keeps the invariant: blocks owned once, unique names, links counting references. */
  lemma StepKeepsInv(s: Sys, op: Op)
    requires SysInv(s) && Enabled(s, op) && StepClean(s, op)
    ensures SysInv(Step(s, op).0)
  {
    match op
    case Create(name, excl, flags) =>
      if Dir.Lookup(SFS_DIR, s.fs, name) != 0 {
        LookupIsLive(s, name);
        OpenKeepsInv(s, Dir.Lookup(SFS_DIR, s.fs, name), flags);
      } else if s.fs.ilist != [] {
        CreateKeepsInv(s, name, flags);
        NewFileIsLinkable(s);
      } else if s.fs.ihead != 0 {
        PastTheTableKeepsInv(s);
      }
    case Open(name, flags) =>
      if Dir.Lookup(SFS_DIR, s.fs, name) != 0 {
        LookupIsLive(s, name);
        OpenKeepsInv(s, Dir.Lookup(SFS_DIR, s.fs, name), flags);
      }
    case Unlink(name) =>
      UnlinkKeepsInv(s, name);
    case Release(fh) =>
      if IsOpen(s, fh) {
        ReleaseKeepsInv(s, fh);
      }
    case Write(fh, end, first, blks) =>
      if IsOpen(s, fh) {
        WriteKeepsInv(s, fh, end, first, blks);
      }
  }

  lemma PastTheTableKeepsInv(s: Sys)
    requires SysInv(s) && s.fs.ilist == [] && s.fs.ihead != 0
    ensures Ino(s.fs, s.fs.ihead) == PastEnd(s.fs)
    ensures SysInv(s.(fs := TakeInode(s.fs))) <==> EndsList(s.fs)
  {
    hide StoreOk, Owned, Target, Content;
    TakePastTheTable(s.fs);
    Dir.RootIsLive(s.fs);
    DirectoryUntouched(s.fs, TakeInode(s.fs));
    assert Refs(s.(fs := TakeInode(s.fs))) == Refs(s);
  }

  // ---------------------------------------------------------------- every run

  function Run(s: Sys, ops: seq<Op>): Sys
    decreases ops
  {
    if ops == [] then s else Run(Step(s, ops[0]).0, ops[1..])
  }

  /** Every call of the run is one the kernel may make, and meets the stale-data hypothesis. */
  predicate Permitted(s: Sys, ops: seq<Op>)
    decreases ops
  {
    ops != [] ==> Enabled(s, ops[0]) && StepClean(s, ops[0]) && Permitted(Step(s, ops[0]).0, ops[1..])
  }

  lemma {:induction false} RunKeepsInv(s: Sys, ops: seq<Op>)
    requires SysInv(s) && Permitted(s, ops)
    ensures SysInv(Run(s, ops))
    decreases ops
  {
    hide SysInv, Step, Enabled, StepClean;
    if ops != [] {
      StepKeepsInv(s, ops[0]);
      RunKeepsInv(Step(s, ops[0]).0, ops[1..]);
    }
  }

  // ---------------------------------------------------------------- the inode past the table

  /** The same table size, and the same inode past its end. */
  ghost predicate SameEnd(fs: Fs, fs': Fs) {
    fs'.tb == fs.tb && PastEnd(fs') == PastEnd(fs)
  }

  lemma EndUntouched(fs: Fs, fs': Fs, n: Word)
    requires DiskInv(fs) && DiskInv(fs') && fs'.tb == fs.tb && n <= Count(fs)
    requires forall m: Word :: m != Dir.ROOT && m != n ==> Ino(fs', m) == Ino(fs, m)
    ensures SameEnd(fs, fs')
  {
    hide StoreOk, Owned, InodesLinked;
    var end: Word := Count(fs) + 1;
    assert Ino(fs', end) == Ino(fs, end);
  }

  /** No permitted step changes it. */
  lemma EndStays(s: Sys, op: Op)
    requires SysInv(s) && Enabled(s, op) && StepClean(s, op)
    ensures SameEnd(s.fs, Step(s, op).0.fs)
  {
    hide DiskInv, Content, Dir.DirOk, Fd.PoolOk, Fd.Settled, Fd.Opens, Dir.Lookup, Dir.Link, Dir.LinkClean, WithNewFile,
         NewFile, Fd.Open, Dir.Unlink, Dir.DropLink, Refs, LinksOk, Conserves, PastEnd;
    match op
    case Create(name, excl, flags) =>
      if Dir.Lookup(SFS_DIR, s.fs, name) != 0 {
        EndAfterOpen(s, name);
      } else if s.fs.ilist != [] {
        NewFileIsLinkable(s);
        EndAfterCreate(s, name);
      } else if s.fs.ihead != 0 {
        EndAfterTake(s.fs);
      }
    case Open(name, flags) => if Dir.Lookup(SFS_DIR, s.fs, name) != 0 { EndAfterOpen(s, name); }
    case Unlink(name) =>
      var k := Dir.FirstNamed(SFS_DIR, s.fs, name, 0);
      if k < Dir.Len(SFS_DIR, s.fs) {
        EntryIsLive(s, k);
        var n := Dir.EntryIno(Dir.Entry(SFS_DIR, s.fs, k));
        LinksPositive(s, n);
        Dir.DropLinkEffect(s.fs, n);
        Dir.UnlinkRemovesEntry(SFS_DIR, s.fs, k, Dir.Unlink(SFS_DIR, s.fs, k));
        EndUntouched(s.fs, Dir.Unlink(SFS_DIR, s.fs, k), n);
      }
    case Release(fh) =>
      if IsOpen(s, fh) {
        OpenIsLive(s, fh);
        var n := Fd.Deref(s.pool.slabs, Fd.GetFromFd(s.pool, fh)).shared.n;
        LinksPositive(s, n);
        Dir.DropLinkEffect(s.fs, n);
        EndUntouched(s.fs, Dir.DropLink(s.fs, n), n);
      }
    case Write(fh, end, first, blks) => if IsOpen(s, fh) { EndAfterWrite(s, fh, end, first, blks); }
  }

  lemma EndAfterTake(fs: Fs)
    requires DiskInv(fs) && fs.ilist == [] && fs.ihead != 0
    ensures Ino(fs, fs.ihead) == PastEnd(fs) && SameEnd(fs, TakeInode(fs))
  {
    hide StoreOk, Owned;
    TakePastTheTable(fs);
  }

  lemma EndAfterOpen(s: Sys, name: FileName)
    requires SysInv(s) && Dir.Lookup(SFS_DIR, s.fs, name) != 0
    ensures SameEnd(s.fs, SetIno(s.fs, Inc(Ino(s.fs, Dir.Lookup(SFS_DIR, s.fs, name)))))
  {
    hide StoreOk, Owned, Target, Content, Conserves, Dir.Lookup, InodesLinked;
    var n := Dir.Lookup(SFS_DIR, s.fs, name);
    LookupIsLive(s, name);
    LiveNumber(s.fs, n);
    UpdateIno(s.fs, Inc(Ino(s.fs, n)));
    SetLiveIno(s.fs, Inc(Ino(s.fs, n)));
    EndUntouched(s.fs, SetIno(s.fs, Inc(Ino(s.fs, n))), n);
  }

  lemma EndAfterCreate(s: Sys, name: FileName)
    requires SysInv(s) && s.fs.ilist != [] && Dir.Lookup(SFS_DIR, s.fs, name) == 0
    requires Dir.LinkClean(SFS_DIR, WithNewFile(s.fs))
    ensures SameEnd(s.fs, Dir.Link(SFS_DIR, WithNewFile(s.fs), name, NewFile(s.fs)).fs)
  {
    hide StoreOk, Owned, Content, Conserves, Dir.DirOk, Dir.Lookup, Dir.Link, Dir.LinkClean, LinksOk, Refs;
    NewFileIsLinkable(s);
    NewInodeTable(s.fs, NewFile(s.fs));
    FreeInodesInRange(s.fs.inodes, Count(s.fs), s.fs.ihead, s.fs.ilist);
    var l := Dir.Link(SFS_DIR, WithNewFile(s.fs), name, NewFile(s.fs));
    Dir.LinkAddsOneEntry(SFS_DIR, WithNewFile(s.fs), name, NewFile(s.fs), l);
    EndUntouched(s.fs, l.fs, s.fs.ihead);
  }

  lemma EndAfterWrite(s: Sys, fh: nat, end: Word, first: nat, blks: seq<Block>)
    requires SysInv(s) && IsOpen(s, fh) && StepClean(s, Write(fh, end, first, blks))
    ensures SameEnd(s.fs, DoWrite(s, fh, end, first, blks).0.fs)
  {
    hide StoreOk, Owned, Target, InodesLinked, Content, Conserves, Dir.DirOk, Fd.PoolOk, Fd.Settled, Fd.Opens,
         Dir.Lookup, WriteRun, RunClean, LinksOk;
    LiveNumberOfOpen(s, fh);
    OpenIsLive(s, fh);
    var n := Fd.Deref(s.pool.slabs, Fd.GetFromFd(s.pool, fh)).shared.n;
    var ino := Extended(Ino(s.fs, n), end);
    UpdateIno(s.fs, ino);
    SetLiveIno(s.fs, ino);
    WriteRunEffect(SetIno(s.fs, ino), ino, first, blks);
    EndUntouched(s.fs, DoWrite(s, fh, end, first, blks).0.fs, n);
  }

  /** Permitted but for what a create may find past the end of the table. */
  predicate Allowed(s: Sys, ops: seq<Op>)
    decreases ops
  {
    ops != [] ==>
      && Enabled(s, ops[0])
      && (EndClean(s.fs) ==> StepClean(s, ops[0]))
      && Allowed(Step(s, ops[0]).0, ops[1..])
  }

  /** If the inode past the table is harmless at the start of a run, it is so throughout. */
  lemma {:induction false} AllowedIsPermitted(s: Sys, ops: seq<Op>)
    requires SysInv(s) && PastEnd(s.fs).inumber == 0 && EndsList(s.fs) && Allowed(s, ops)
    ensures Permitted(s, ops)
    decreases ops
  {
    hide SysInv, Step, Enabled, StepClean, PastEnd;
    if ops != [] {
      StepKeepsInv(s, ops[0]);
      EndStays(s, ops[0]);
      AllowedIsPermitted(Step(s, ops[0]).0, ops[1..]);
    }
  }

  // ---------------------------------------------------------------- what callers see

  /** The inode a descriptor number is open on; 0 if it is not open. */
  function OpenAt(s: Sys, fd: nat): Word {
    if fd < |s.pool.slabs| * Fd.SLOTS then Fd.OpenOn(s.pool, fd) else 0
  }

  ghost predicate SameNames(s: Sys, s': Sys) {
    forall nm: Dir.Name :: Dir.Lookup(SFS_DIR, s'.fs, nm) == Dir.Lookup(SFS_DIR, s.fs, nm)
  }

  ghost predicate SameFile(fs: Fs, fs': Fs, m: Word) {
    && Ino(fs', m).size == Ino(fs, m).size
    && (forall k: nat :: k < MAX_IBLOCKS ==> Content(fs', m, k) == Content(fs, m, k))
  }

  ghost predicate IsEmptyFile(fs: Fs, m: Word) {
    Ino(fs, m).size == 0 && forall k: nat :: k < MAX_IBLOCKS ==> Content(fs, m, k) == ZERO_BLOCK
  }

  predicate WritesTo(s: Sys, op: Op, m: Word) {
    op.Write? && IsOpen(s, op.fh) && Fd.Deref(s.pool.slabs, Fd.GetFromFd(s.pool, op.fh)).shared.n == m
  }

  /** The names after a step: a create binds its name to the inode taken from the free list, an unlink
      unbinds its name, and nothing else changes what any name means. */
  lemma NamesAfterStep(s: Sys, op: Op)
    requires SysInv(s) && Enabled(s, op) && StepClean(s, op)
    ensures var (s', ret) := Step(s, op);
      forall nm: Dir.Name :: Dir.Lookup(SFS_DIR, s'.fs, nm) ==
        match op
        case Create(name, _, _) =>
          if nm == name && Dir.Lookup(SFS_DIR, s.fs, name) == 0
            && ret.Opened? then s.fs.ihead else Dir.Lookup(SFS_DIR, s.fs, nm)
        case Unlink(name) => if nm == name then 0 else Dir.Lookup(SFS_DIR, s.fs, nm)
        case _ => Dir.Lookup(SFS_DIR, s.fs, nm)
  {
    hide DiskInv, Content, Dir.DirOk, Fd.PoolOk, Fd.Settled, Fd.Opens, Dir.Lookup, Dir.Link, Dir.LinkClean, WithNewFile,
         NewFile, Fd.Open, Dir.Unlink;
    match op
    case Create(name, excl, flags) =>
      if Dir.Lookup(SFS_DIR, s.fs, name) != 0 {
        NamesAfterOpen(s, name, flags);
      } else if s.fs.ilist != [] {
        NamesAfterCreate(s, name, flags);
      } else if s.fs.ihead != 0 {
        NamesPastTheTable(s);
      }
    case Open(name, flags) =>
      if Dir.Lookup(SFS_DIR, s.fs, name) != 0 { NamesAfterOpen(s, name, flags); }
    case Unlink(name) => NamesAfterUnlink(s, name);
    case Release(fh) => if IsOpen(s, fh) { NamesAfterRelease(s, fh); }
    case Write(fh, end, first, blks) =>
      if IsOpen(s, fh) { NamesAfterWrite(s, fh, end, first, blks); }
  }

  lemma NamesAfterCreate(s: Sys, name: FileName, flags: nat)
    requires SysInv(s) && s.fs.ilist != [] && Dir.Lookup(SFS_DIR, s.fs, name) == 0
      && Dir.LinkClean(SFS_DIR, WithNewFile(s.fs))
    ensures Ino(s.fs, s.fs.ihead).inumber == s.fs.ihead != 0
    ensures var (s', ret) := CreateFile(s, name, flags);
      forall nm: Dir.Name :: Dir.Lookup(SFS_DIR, s'.fs, nm) == if nm == name
        && ret.Opened? then s.fs.ihead else Dir.Lookup(SFS_DIR, s.fs, nm)
  {
    hide DiskInv, Content, Dir.DirOk, Fd.PoolOk, Fd.Settled, Fd.Opens, Dir.Lookup, Dir.Link, Dir.LinkClean, WithNewFile,
         NewFile, Fd.Open;
    NewFileIsLinkable(s);
    var fs1, file := WithNewFile(s.fs), NewFile(s.fs);
    Dir.LinkAddsOneEntry(SFS_DIR, fs1, name, file, Dir.Link(SFS_DIR, fs1, name, file));
  }

  lemma NamesAfterOpen(s: Sys, name: FileName, flags: nat)
    requires SysInv(s) && Dir.Lookup(SFS_DIR, s.fs, name) != 0
    ensures SameNames(s, OpenInode(s, Dir.Lookup(SFS_DIR, s.fs, name), flags).0)
  {
    hide StoreOk, Owned, Target, Content;
    var n := Dir.Lookup(SFS_DIR, s.fs, name);
    LookupIsLive(s, name);
    LiveNumber(s.fs, n);
    Dir.RootIsLive(s.fs);
    UpdateIno(s.fs, Inc(Ino(s.fs, n)));
    DirectoryUntouched(s.fs, SetIno(s.fs, Inc(Ino(s.fs, n))));
  }

  lemma NamesPastTheTable(s: Sys)
    requires SysInv(s) && s.fs.ilist == [] && s.fs.ihead != 0
    ensures Ino(s.fs, s.fs.ihead) == PastEnd(s.fs)
    ensures SameNames(s, s.(fs := TakeInode(s.fs)))
  {
    hide StoreOk, Owned, Target, Content;
    TakePastTheTable(s.fs);
    Dir.RootIsLive(s.fs);
    DirectoryUntouched(s.fs, TakeInode(s.fs));
  }

  lemma NamesAfterUnlink(s: Sys, name: FileName)
    requires SysInv(s)
    ensures forall nm: Dir.Name :: Dir.Lookup(SFS_DIR, DoUnlink(s, name).0.fs, nm) == if nm == name then 0
      else Dir.Lookup(SFS_DIR, s.fs, nm)
  {
    hide StoreOk, Owned, Target, Content, Dir.Unlink;
    var k := Dir.FirstNamed(SFS_DIR, s.fs, name, 0);
    if k < Dir.Len(SFS_DIR, s.fs) {
      EntryIsLive(s, k);
      Dir.UnlinkRemovesEntry(SFS_DIR, s.fs, k, Dir.Unlink(SFS_DIR, s.fs, k));
    }
  }

  lemma NamesAfterRelease(s: Sys, fh: nat)
    requires SysInv(s) && IsOpen(s, fh)
    ensures SameNames(s, DoRelease(s, fh).0)
  {
    hide DiskInv, Content, Dir.DirOk, Fd.PoolOk, Fd.Settled, Fd.Opens, Dir.Lookup, Dir.DropLink;
    OpenIsLive(s, fh);
    DropKeepsDirectory(s.fs, Fd.Deref(s.pool.slabs, Fd.GetFromFd(s.pool, fh)).shared.n);
  }

  lemma NamesAfterWrite(s: Sys, fh: nat, end: Word, first: nat, blks: seq<Block>)
    requires SysInv(s) && IsOpen(s, fh) && StepClean(s, Write(fh, end, first, blks))
    ensures SameNames(s, DoWrite(s, fh, end, first, blks).0)
  {
    hide DiskInv, Content, Dir.DirOk, Fd.PoolOk, Fd.Settled, Fd.Opens, Dir.Lookup, WriteRun, RunClean;
    LiveNumberOfOpen(s, fh);
    OpenIsLive(s, fh);
    var ino := Extended(Ino(s.fs, Fd.Deref(s.pool.slabs, Fd.GetFromFd(s.pool, fh)).shared.n), end);
    UpdateIno(s.fs, ino);
    WriteRunEffect(SetIno(s.fs, ino), ino, first, blks);
    Dir.RootIsLive(s.fs);
    DirectoryUntouched(s.fs, DoWrite(s, fh, end, first, blks).0.fs);
  }

  /** The descriptors after a step: an open descriptor is given a number that was not open and names the
      file just looked up or created; a release closes its number; no other number changes. */
  lemma DescriptorsAfterStep(s: Sys, op: Op)
    requires SysInv(s) && Enabled(s, op) && StepClean(s, op)
    ensures var (s', ret) := Step(s, op);
      && (ret.Opened? ==>
            && (op.Create? || op.Open?)
            && OpenAt(s, ret.fd) == 0 && OpenAt(s', ret.fd) == Dir.Lookup(SFS_DIR, s'.fs, op.name) != 0)
      && (forall fd: nat :: !(ret.Opened? && fd == ret.fd) ==>
            OpenAt(s', fd) == if op == Release(fd) then 0 else OpenAt(s, fd))
  {
    hide DiskInv, Content, Dir.DirOk, Fd.PoolOk, Fd.Settled, Fd.Opens, Dir.Lookup, Dir.Link, Dir.LinkClean, WithNewFile,
         NewFile, Fd.Open, Dir.Unlink, Dir.DropLink;
    NamesAfterStep(s, op);
    match op
    case Create(name, excl, flags) =>
      if Dir.Lookup(SFS_DIR, s.fs, name) != 0 {
        LookupIsLive(s, name);
        OneMoreOpen(s.pool, Dir.Lookup(SFS_DIR, s.fs, name), flags, s, Step(s, op).0);
      } else if s.fs.ilist != [] {
        NewFileIsLinkable(s);
        OneMoreOpen(s.pool, s.fs.ihead, flags, s, Step(s, op).0);
      } else if s.fs.ihead != 0 {
        NamesPastTheTable(s);
      }
    case Open(name, flags) =>
      if Dir.Lookup(SFS_DIR, s.fs, name) != 0 {
        LookupIsLive(s, name);
        OneMoreOpen(s.pool, Dir.Lookup(SFS_DIR, s.fs, name), flags, s, Step(s, op).0);
      }
    case Unlink(name) =>
    case Release(fh) => OneLessOpen(s, fh);
    case Write(fh, end, first, blks) =>
  }

  lemma OneMoreOpen(pool: Fd.Pool, n: Word, flags: nat, s: Sys, s': Sys)
    requires Fd.PoolOk(pool) && Fd.Settled(pool) && n != 0 && s.pool == pool
    ensures var o := Fd.Open(pool, n, flags);
      && o.1.At?
      && (s'.pool == o.0 ==>
            && OpenAt(s, Fd.Number(o.1)) == 0 && OpenAt(s', Fd.Number(o.1)) == n
            && (forall fd: nat :: fd != Fd.Number(o.1) ==> OpenAt(s', fd) == OpenAt(s, fd)))
  {
    hide Fd.Settled, Fd.PoolOk, Fd.Open;
    var o := Fd.Open(pool, n, flags);
    Fd.OpensAfterOpen(pool, n, flags);
    var before := Fd.ZeroPad(Fd.Opens(pool), if pool.freelist == Fd.Null then Fd.SLOTS else 0);
    if s'.pool == o.0 {
      var number := Fd.Number(o.1);
      forall fd: nat ensures OpenAt(s, fd) == if fd < |before| then before[fd] else 0 {
        assert fd < |Fd.Opens(pool)| ==> before[fd] == Fd.Opens(pool)[fd] == OpenAt(s, fd);
      }
      forall fd: nat ensures OpenAt(s', fd) == if fd < |before| then before[number := n][fd] else 0 {
        assert |Fd.Opens(o.0)| == |before|;
        assert fd < |before| ==> Fd.Opens(o.0)[fd] == OpenAt(s', fd);
      }
    }
  }

  lemma OneLessOpen(s: Sys, fh: nat)
    requires SysInv(s) && Enabled(s, Release(fh))
    ensures forall fd: nat :: OpenAt(DoRelease(s, fh).0, fd) == if fd == fh then 0 else OpenAt(s, fd)
  {
    hide DiskInv, Content, Dir.DirOk, Dir.DropLink, LinksOk;
    Fd.LookupInvertsNumber(s.pool, fh);
    if IsOpen(s, fh) {
      var s', p := DoRelease(s, fh).0, Fd.GetFromFd(s.pool, fh);
      Fd.OpensAfterFree(s.pool, p);
      assert Fd.Number(p) == fh;
      forall fd: nat ensures OpenAt(s', fd) == if fd == fh then 0 else OpenAt(s, fd) {
        assert fd < |Fd.Opens(s.pool)| ==>
          Fd.Opens(s'.pool)[fd] == OpenAt(s', fd) && Fd.Opens(s.pool)[fd] == OpenAt(s, fd);
      }
    }
  }

  /** The flags kept with a descriptor number. */
  function FlagsAt(s: Sys, fd: nat): Fd.Flags {
    if fd < |s.pool.slabs| * Fd.SLOTS then s.pool.slabs[fd / Fd.SLOTS][fd % Fd.SLOTS].flags else Fd.Unset
  }

  /** A descriptor holds the flags of the call that opened it for as long as it is open. */
  lemma FlagsAfterStep(s: Sys, op: Op)
    requires SysInv(s) && Enabled(s, op) && StepClean(s, op)
    ensures var (s', ret) := Step(s, op);
      && (ret.Opened? ==> (op.Create? || op.Open?) && FlagsAt(s', ret.fd) == Fd.Flags(op.flags))
      && (forall fd: nat :: OpenAt(s, fd) != 0 ==> FlagsAt(s', fd) == FlagsAt(s, fd))
  {
    hide DiskInv, Content, Dir.DirOk, Fd.PoolOk, Fd.Settled, Fd.Opens, Dir.Lookup, Dir.Link, Dir.LinkClean, WithNewFile,
         NewFile, Fd.Open, Dir.Unlink, Dir.DropLink, FlagsAt, OpenAt, LinksOk;
    if Step(s, op).0.pool == s.pool {
      SamePoolFlags(s, Step(s, op).0);
    }
    match op
    case Create(name, excl, flags) =>
      if Dir.Lookup(SFS_DIR, s.fs, name) != 0 {
        LookupIsLive(s, name);
        OneMoreFlags(s, Dir.Lookup(SFS_DIR, s.fs, name), flags, Step(s, op).0);
      } else if s.fs.ilist != [] {
        NewFileIsLinkable(s);
        OneMoreFlags(s, s.fs.ihead, flags, Step(s, op).0);
      } else if s.fs.ihead != 0 {
        NamesPastTheTable(s);
      }
    case Open(name, flags) =>
      if Dir.Lookup(SFS_DIR, s.fs, name) != 0 {
        LookupIsLive(s, name);
        OneMoreFlags(s, Dir.Lookup(SFS_DIR, s.fs, name), flags, Step(s, op).0);
      }
    case Unlink(name) =>
    case Release(fh) => FlagsAfterRelease(s, fh);
    case Write(fh, end, first, blks) =>
  }

  lemma SamePoolFlags(s: Sys, s': Sys)
    requires s'.pool == s.pool
    ensures forall fd: nat :: FlagsAt(s', fd) == FlagsAt(s, fd)
  {
  }

  lemma OneMoreFlags(s: Sys, n: Word, flags: nat, s': Sys)
    requires Fd.PoolOk(s.pool) && Fd.Settled(s.pool) && n != 0
    ensures var o := Fd.Open(s.pool, n, flags);
      && o.1.At?
      && (s'.pool == o.0 ==>
            && FlagsAt(s', Fd.Number(o.1)) == Fd.Flags(flags)
            && (forall fd: nat :: OpenAt(s, fd) != 0 ==> FlagsAt(s', fd) == FlagsAt(s, fd)))
  {
    hide Fd.Settled, Fd.PoolOk, Fd.Open;
    Fd.OpenOk(s.pool, n, flags);
    Fd.ReadyOk(s.pool);
    var o := Fd.Open(s.pool, n, flags);
    if s'.pool == o.0 {
      forall fd: nat | OpenAt(s, fd) != 0 ensures FlagsAt(s', fd) == FlagsAt(s, fd) {
        var q := Fd.At(fd / Fd.SLOTS, fd % Fd.SLOTS);
        assert Fd.In(s.pool.slabs, q) && Fd.Deref(s.pool.slabs, q).shared.Inum?;
        assert q != o.1 && Fd.Deref(o.0.slabs, q) == Fd.Deref(s.pool.slabs, q);
      }
    }
  }

  lemma FlagsAfterRelease(s: Sys, fh: nat)
    requires SysInv(s)
    ensures forall fd: nat :: FlagsAt(DoRelease(s, fh).0, fd) == FlagsAt(s, fd)
  {
    hide DiskInv, Content, Dir.DirOk, Dir.DropLink, LinksOk, Fd.PoolOk, Fd.Settled;
  }

  /** Files are independent: a step changes the size or the contents of a file only if it is a write through
      a descriptor open on that very file, for as long as the file exists. A file just created is empty. */
  lemma FilesAfterStep(s: Sys, op: Op, m: Word)
    requires SysInv(s) && Enabled(s, op) && StepClean(s, op)
    requires 2 <= m && Live(Step(s, op).0.fs, m)
    ensures Live(s.fs, m) && !WritesTo(s, op, m) ==> SameFile(s.fs, Step(s, op).0.fs, m)
    ensures !Live(s.fs, m) ==> op.Create? && m == s.fs.ihead && IsEmptyFile(Step(s, op).0.fs, m)
  {
    hide DiskInv, Content, Dir.DirOk, Fd.PoolOk, Fd.Settled, Fd.Opens, Dir.Lookup, Dir.Link, Dir.LinkClean, WithNewFile,
         NewFile, Fd.Open, Dir.Unlink, Dir.DropLink, Refs;
    match op
    case Create(name, excl, flags) =>
      if Dir.Lookup(SFS_DIR, s.fs, name) != 0 {
        FilesAfterOpen(s, name, flags, m);
      } else if s.fs.ilist != [] {
        NewFileIsLinkable(s);
        FilesAfterCreate(s, name, flags, m);
      } else if s.fs.ihead != 0 {
        TakePastTheTable(s.fs);
      }
    case Open(name, flags) =>
      if Dir.Lookup(SFS_DIR, s.fs, name) != 0 { FilesAfterOpen(s, name, flags, m); }
    case Unlink(name) => FilesAfterUnlink(s, name, m);
    case Release(fh) =>
      if IsOpen(s, fh) {
        OpenIsLive(s, fh);
        Dir.DropLinkEffect(s.fs, Fd.Deref(s.pool.slabs, Fd.GetFromFd(s.pool, fh)).shared.n);
      }
    case Write(fh, end, first, blks) =>
      if IsOpen(s, fh) { FilesAfterWrite(s, fh, end, first, blks, m); }
  }

  lemma FilesAfterCreate(s: Sys, name: FileName, flags: nat, m: Word)
    requires SysInv(s) && s.fs.ilist != [] && Dir.Lookup(SFS_DIR, s.fs, name) == 0
      && Dir.LinkClean(SFS_DIR, WithNewFile(s.fs))
    requires 2 <= m && Live(CreateFile(s, name, flags).0.fs, m)
    ensures Ino(s.fs, s.fs.ihead).inumber == s.fs.ihead != 0
    ensures Live(s.fs, m) ==> SameFile(s.fs, CreateFile(s, name, flags).0.fs, m)
    ensures !Live(s.fs, m) ==> m == s.fs.ihead && IsEmptyFile(CreateFile(s, name, flags).0.fs, m)
  {
    hide DiskInv, Content, Dir.DirOk, Fd.PoolOk, Fd.Settled, Fd.Opens, Dir.Lookup, Dir.Link, Dir.LinkClean, WithNewFile,
         NewFile, Fd.Open;
    NewFileIsLinkable(s);
    var fs1 := WithNewFile(s.fs);
    var l := Dir.Link(SFS_DIR, fs1, name, NewFile(s.fs));
    Dir.LinkAddsOneEntry(SFS_DIR, fs1, name, NewFile(s.fs), l);
    assert Live(l.fs, m) <==> Live(fs1, m);
  }

  lemma FilesAfterOpen(s: Sys, name: FileName, flags: nat, m: Word)
    requires SysInv(s) && Dir.Lookup(SFS_DIR, s.fs, name) != 0
    ensures var fs' := OpenInode(s, Dir.Lookup(SFS_DIR, s.fs, name), flags).0.fs;
      SameFile(s.fs, fs', m) && (Live(fs', m) <==> Live(s.fs, m))
  {
    hide StoreOk, Owned, Target, Content;
    LookupIsLive(s, name);
    LiveNumber(s.fs, Dir.Lookup(SFS_DIR, s.fs, name));
    UpdateIno(s.fs, Inc(Ino(s.fs, Dir.Lookup(SFS_DIR, s.fs, name))));
  }

  lemma FilesAfterUnlink(s: Sys, name: FileName, m: Word)
    requires SysInv(s) && 2 <= m && Live(DoUnlink(s, name).0.fs, m)
    ensures Live(s.fs, m) && SameFile(s.fs, DoUnlink(s, name).0.fs, m)
  {
    hide StoreOk, Owned, Target, Content, Dir.Unlink, Dir.DropLink;
    var k := Dir.FirstNamed(SFS_DIR, s.fs, name, 0);
    if k < Dir.Len(SFS_DIR, s.fs) {
      EntryIsLive(s, k);
      Dir.DropLinkEffect(s.fs, Dir.EntryIno(Dir.Entry(SFS_DIR, s.fs, k)));
      Dir.UnlinkRemovesEntry(SFS_DIR, s.fs, k, Dir.Unlink(SFS_DIR, s.fs, k));
    }
  }

  lemma FilesAfterWrite(s: Sys, fh: nat, end: Word, first: nat, blks: seq<Block>, m: Word)
    requires SysInv(s) && IsOpen(s, fh) && StepClean(s, Write(fh, end, first, blks))
    requires 2 <= m
    ensures var fs' := DoWrite(s, fh, end, first, blks).0.fs;
      && (Live(fs', m) <==> Live(s.fs, m))
      && (Live(s.fs, m) && !WritesTo(s, Write(fh, end, first, blks), m) ==> SameFile(s.fs, fs', m))
  {
    hide DiskInv, Content, Dir.DirOk, Fd.PoolOk, Fd.Settled, Fd.Opens, Dir.Lookup, WriteRun, RunClean;
    LiveNumberOfOpen(s, fh);
    OpenIsLive(s, fh);
    var ino := Extended(Ino(s.fs, Fd.Deref(s.pool.slabs, Fd.GetFromFd(s.pool, fh)).shared.n), end);
    UpdateIno(s.fs, ino);
    WriteRunEffect(SetIno(s.fs, ino), ino, first, blks);
  }

  /** File m exists throughout the run and no step of the run writes to it. */
  ghost predicate Undisturbed(s: Sys, ops: seq<Op>, m: Word)
    decreases ops
  {
    && Live(s.fs, m)
    && (ops != [] ==> !WritesTo(s, ops[0], m) && Undisturbed(Step(s, ops[0]).0, ops[1..], m))
  }

  /** Whatever else happens, a file keeps its size and contents over any run that does not write to it and
      in which something, a name or an open descriptor, always refers to it. */
  lemma {:induction false} UnwrittenFilesSurvive(s: Sys, ops: seq<Op>, m: Word)
    requires SysInv(s) && Permitted(s, ops) && 2 <= m && Undisturbed(s, ops, m)
    ensures SameFile(s.fs, Run(s, ops).fs, m)
    decreases ops
  {
    hide SysInv, Step, Enabled, StepClean, Content, WritesTo;
    if ops != [] {
      StepKeepsInv(s, ops[0]);
      FilesAfterStep(s, ops[0], m);
      UnwrittenFilesSurvive(Step(s, ops[0]).0, ops[1..], m);
    }
  }

  // ---------------------------------------------------------------- conservation of blocks

  /** The step drops the last reference to an inode that has an indirect block. */
  predicate LosesBlocks(s: Sys, op: Op) {
    match op
    case Unlink(name) =>
      var k := Dir.FirstNamed(SFS_DIR, s.fs, name, 0);
      k < Dir.Len(SFS_DIR, s.fs) && Dir.LosesBlocks(s.fs, Dir.EntryIno(Dir.Entry(SFS_DIR, s.fs, k)))
    case Release(fh) =>
      IsOpen(s, fh) && Dir.LosesBlocks(s.fs, Fd.Deref(s.pool.slabs, Fd.GetFromFd(s.pool, fh)).shared.n)
    case _ => false
  }

  /** Every block is free or belongs to a live inode before a step exactly if it does after it, except when
      the step frees an inode that has an indirect block; then, and only then, blocks are lost. */
  lemma StepConservesIff(s: Sys, op: Op)
    requires SysInv(s) && Enabled(s, op) && StepClean(s, op)
    ensures Conserves(s.fs, Step(s, op).0.fs) <==> !LosesBlocks(s, op)
  {
    hide DiskInv, Content, Conserves, Dir.DirOk, Fd.PoolOk, Fd.Settled, Fd.Opens, Dir.Lookup, Dir.Link, Dir.LinkClean,
         WithNewFile, NewFile, Fd.Open, Dir.Unlink, Dir.DropLink, Dir.LosesBlocks, Refs, LinksOk;
    SelfConserves(s.fs);
    match op
    case Create(name, excl, flags) =>
      if Dir.Lookup(SFS_DIR, s.fs, name) != 0 {
        OpenConserves(s, name);
      } else if s.fs.ilist != [] {
        NewFileIsLinkable(s);
        CreateConserves(s, name);
      } else if s.fs.ihead != 0 {
        TakePastTheTable(s.fs);
      }
    case Open(name, flags) => if Dir.Lookup(SFS_DIR, s.fs, name) != 0 { OpenConserves(s, name); }
    case Unlink(name) =>
      var k := Dir.FirstNamed(SFS_DIR, s.fs, name, 0);
      if k < Dir.Len(SFS_DIR, s.fs) {
        EntryIsLive(s, k);
        LinksPositive(s, Dir.EntryIno(Dir.Entry(SFS_DIR, s.fs, k)));
        Dir.UnlinkRemovesEntry(SFS_DIR, s.fs, k, Dir.Unlink(SFS_DIR, s.fs, k));
      }
    case Release(fh) =>
      if IsOpen(s, fh) {
        OpenIsLive(s, fh);
        var n := Fd.Deref(s.pool.slabs, Fd.GetFromFd(s.pool, fh)).shared.n;
        LinksPositive(s, n);
        Dir.DropLinkEffect(s.fs, n);
      }
    case Write(fh, end, first, blks) => if IsOpen(s, fh) { WriteConserves(s, fh, end, first, blks); }
  }

  lemma SelfConserves(fs: Fs)
    ensures Conserves(fs, fs)
  {
  }

  lemma LinksPositive(s: Sys, n: Word)
    requires SysInv(s) && 2 <= n && Live(s.fs, n)
    ensures Ino(s.fs, n).links > 0
  {
  }

  lemma OpenConserves(s: Sys, name: FileName)
    requires SysInv(s) && Dir.Lookup(SFS_DIR, s.fs, name) != 0
    ensures Conserves(s.fs, SetIno(s.fs, Inc(Ino(s.fs, Dir.Lookup(SFS_DIR, s.fs, name)))))
  {
    hide StoreOk, Owned, Target, Content, Conserves;
    LookupIsLive(s, name);
    LiveNumber(s.fs, Dir.Lookup(SFS_DIR, s.fs, name));
    UpdateIno(s.fs, Inc(Ino(s.fs, Dir.Lookup(SFS_DIR, s.fs, name))));
  }

  lemma CreateConserves(s: Sys, name: FileName)
    requires SysInv(s) && s.fs.ilist != [] && Dir.Lookup(SFS_DIR, s.fs, name) == 0
      && Dir.LinkClean(SFS_DIR, WithNewFile(s.fs))
    ensures Conserves(s.fs, Dir.Link(SFS_DIR, WithNewFile(s.fs), name, NewFile(s.fs)).fs)
  {
    hide DiskInv, Content, Conserves, Dir.DirOk, Dir.Lookup, Dir.Link, Dir.LinkClean, WithNewFile, NewFile;
    NewFileIsLinkable(s);
    var l := Dir.Link(SFS_DIR, WithNewFile(s.fs), name, NewFile(s.fs));
    Dir.LinkAddsOneEntry(SFS_DIR, WithNewFile(s.fs), name, NewFile(s.fs), l);
    ConservesChain(s.fs, WithNewFile(s.fs), l.fs);
  }

  lemma WriteConserves(s: Sys, fh: nat, end: Word, first: nat, blks: seq<Block>)
    requires SysInv(s) && IsOpen(s, fh) && StepClean(s, Write(fh, end, first, blks))
    ensures Conserves(s.fs, DoWrite(s, fh, end, first, blks).0.fs)
  {
    hide DiskInv, Content, Conserves, Dir.DirOk, Fd.PoolOk, Fd.Settled, Fd.Opens, Dir.Lookup, WriteRun, RunClean;
    LiveNumberOfOpen(s, fh);
    OpenIsLive(s, fh);
    var ino := Extended(Ino(s.fs, Fd.Deref(s.pool.slabs, Fd.GetFromFd(s.pool, fh)).shared.n), end);
    UpdateIno(s.fs, ino);
    WriteRunEffect(SetIno(s.fs, ino), ino, first, blks);
    ConservesChain(s.fs, SetIno(s.fs, ino), DoWrite(s, fh, end, first, blks).0.fs);
  }

  /** No step of the run frees an inode that has an indirect block. */
  predicate Lossless(s: Sys, ops: seq<Op>)
    decreases ops
  {
    ops != [] ==> !LosesBlocks(s, ops[0]) && Lossless(Step(s, ops[0]).0, ops[1..])
  }

  /** Over any such run the blocks that are free or owned stay the same set: nothing leaks. */
  lemma {:induction false} RunConserves(s: Sys, ops: seq<Op>)
    requires SysInv(s) && Permitted(s, ops) && Lossless(s, ops)
    ensures Conserves(s.fs, Run(s, ops).fs)
    decreases ops
  {
    hide SysInv, Step, Enabled, StepClean, Conserves, LosesBlocks;
    if ops == [] {
      SelfConserves(s.fs);
    } else {
      StepKeepsInv(s, ops[0]);
      StepConservesIff(s, ops[0]);
      RunConserves(Step(s, ops[0]).0, ops[1..]);
      ConservesChain(s.fs, Step(s, ops[0]).0.fs, Run(s, ops).fs);
    }
  }

  // ---------------------------------------------------------------- failing creates

  /** As formatted, the inode free list ends just past the table. Creating a new name then hits an assertion exactly if
      the inode found there numbers itself 0. */
  lemma CreateAbortsIff(s: Sys, name: FileName, excl: bool, flags: nat)
    requires DiskInv(s.fs)
    ensures Step(s, Create(name, excl, flags)).1 == Aborted <==>
      Dir.Lookup(SFS_DIR, s.fs, name) == 0 && s.fs.ilist == [] && s.fs.ihead != 0 && PastEnd(s.fs).inumber == 0
  {
    hide StoreOk, Owned, Target, Content, Dir.Link, Dir.Lookup, Fd.Open;
    if s.fs.ilist == [] && s.fs.ihead != 0 {
      TakePastTheTable(s.fs);
    } else if s.fs.ilist != [] {
      FreeInodesInRange(s.fs.inodes, Count(s.fs), s.fs.ihead, s.fs.ilist);
    }
  }

  /** A write through an open descriptor fails exactly when it leaves the addressable blocks or too few blocks are free
      for the holes it fills. */
  lemma WriteFailsIff(s: Sys, fh: nat, end: Word, first: nat, blks: seq<Block>)
    requires SysInv(s) && IsOpen(s, fh) && StepClean(s, Write(fh, end, first, blks)) && blks != []
    ensures var n := Fd.Deref(s.pool.slabs, Fd.GetFromFd(s.pool, fh)).shared.n;
      var ret := Step(s, Write(fh, end, first, blks)).1;
      && (ret == Failed || ret == Done)
      && (ret == Failed <==>
            || first + |blks| > MAX_IBLOCKS
            || RunNeeds(s.fs, Ino(s.fs, n), first, |blks|) > |Free(s.fs.store)|)
  {
    hide DiskInv, Dir.DirOk, Fd.PoolOk, Fd.Settled, Fd.Opens, Dir.Lookup, WriteRun, RunClean, LinksOk, Free, Target,
         Holes;
    LiveNumberOfOpen(s, fh);
    OpenIsLive(s, fh);
    var n := Fd.Deref(s.pool.slabs, Fd.GetFromFd(s.pool, fh)).shared.n;
    var ino := Extended(Ino(s.fs, n), end);
    UpdateIno(s.fs, ino);
    WriteRunOkIff(SetIno(s.fs, ino), ino, first, blks);
    if first + |blks| <= MAX_IBLOCKS {
      SizedHoles(s.fs, ino, first, |blks|);
    }
  }

  lemma SizedHoles(fs: Fs, ino: Inode, i: nat, count: nat)
    requires DiskInv(fs) && Live(fs, ino.inumber) && ino.ptrs == Ino(fs, ino.inumber).ptrs && i + count <= MAX_IBLOCKS
    ensures Holes(SetIno(fs, ino), ino.inumber, i, count) == Holes(fs, ino.inumber, i, count)
  {
    hide StoreOk, Owned;
    SetLiveIno(fs, ino);
    assert forall k: nat :: Hole(SetIno(fs, ino), ino.inumber, k) <==> Hole(fs, ino.inumber, k);
    SameHoles(fs, SetIno(fs, ino), ino.inumber, i, count);
  }

  /** What a write leaves in its file, whether or not it succeeds: the size covers the range, and each block of the run
      holds its data exactly if the free blocks last to it. */
  lemma FileAfterWrite(s: Sys, fh: nat, end: Word, first: nat, blks: seq<Block>, k: nat)
    requires SysInv(s) && IsOpen(s, fh) && StepClean(s, Write(fh, end, first, blks)) && k < MAX_IBLOCKS
    ensures var n := OpenAt(s, fh); var s' := Step(s, Write(fh, end, first, blks)).0;
      && n != 0 && Ino(s'.fs, n).size == (if end > Ino(s.fs, n).size then end else Ino(s.fs, n).size)
      && Content(s'.fs, n, k) ==
           if first <= k < first + |blks|
             && RunNeeds(s.fs, Ino(s.fs, n), first, k - first + 1) <= |Free(s.fs.store)|
           then blks[k - first] else Content(s.fs, n, k)
  {
    hide DiskInv, Dir.DirOk, Fd.PoolOk, Fd.Settled, Fd.Opens, Dir.Lookup, WriteRun, RunClean, LinksOk, Free, Target,
         Holes, Content;
    LiveNumberOfOpen(s, fh);
    OpenIsLive(s, fh);
    var n := Fd.Deref(s.pool.slabs, Fd.GetFromFd(s.pool, fh)).shared.n;
    var ino := Extended(Ino(s.fs, n), end);
    UpdateIno(s.fs, ino);
    var fs1 := SetIno(s.fs, ino);
    WriteRunEffect(fs1, ino, first, blks);
    if first <= k < first + |blks| {
      WriteRunPrefix(fs1, ino, first, blks, k);
      SizedHoles(s.fs, ino, first, k - first + 1);
    }
  }

  // ---------------------------------------------------------------- answers

  /** Being open, as the operations test it and as DescriptorsAfterStep states it. */
  lemma IsOpenIff(s: Sys, fh: nat)
    requires SysInv(s)
    ensures IsOpen(s, fh) <==> OpenAt(s, fh) != 0
  {
    hide DiskInv, Dir.DirOk, LinksOk, Fd.PoolOk;
  }

  /** What open, unlink and release answer: success exactly if the name is there, or the number is open, and otherwise
      their error, with nothing changed. */
  lemma AnswersIff(s: Sys, op: Op)
    requires SysInv(s) && Enabled(s, op) && !op.Create? && !op.Write?
    ensures var (s', ret) := Step(s, op);
      match op
      case Open(name, _) =>
        (ret.Opened? <==> Dir.Lookup(SFS_DIR, s.fs, name) != 0) && (!ret.Opened? ==> ret == NoEntry && s' == s)
      case Unlink(name) =>
        (ret == Done <==> Dir.Lookup(SFS_DIR, s.fs, name) != 0) && (ret != Done ==> ret == NoEntry && s' == s)
      case Release(fh) =>
        (ret == Done <==> OpenAt(s, fh) != 0) && (ret != Done ==> ret == BadDescriptor && s' == s)
      case _ => true
  {
    hide DiskInv, Dir.DirOk, LinksOk, Fd.PoolOk, Fd.Settled, Fd.Open, Dir.Entry, Dir.Unlink, Dir.DropLink, OpenAt;
    match op
    case Release(fh) => IsOpenIff(s, fh);
    case _ =>
  }

  /** What write answers. */
  lemma WriteAnswers(s: Sys, fh: nat, end: Word, first: nat, blks: seq<Block>)
    requires SysInv(s) && Enabled(s, Write(fh, end, first, blks)) && StepClean(s, Write(fh, end, first, blks))
    ensures var (s', ret) := Step(s, Write(fh, end, first, blks)); var n := OpenAt(s, fh);
      if n == 0 then ret == BadDescriptor && s' == s
      else if blks == [] then ret == Done
      else if first + |blks| <= MAX_IBLOCKS && RunNeeds(s.fs, Ino(s.fs, n), first, |blks|) <= |Free(s.fs.store)|
      then ret == Done else ret == Failed
  {
    hide DiskInv, Dir.DirOk, LinksOk, Fd.PoolOk, Fd.Settled, RunClean, RunNeeds, Free;
    IsOpenIff(s, fh);
    if IsOpen(s, fh) && blks != [] {
      WriteFailsIff(s, fh, end, first, blks);
    }
  }

  /** What create answers, in every case: a name that is there is refused exactly under O_EXCL and opened otherwise; a
      new one needs an inode, and room and blocks for its entry. */
  lemma CreateAnswers(s: Sys, name: FileName, excl: bool, flags: nat)
    requires SysInv(s) && Enabled(s, Create(name, excl, flags)) && StepClean(s, Create(name, excl, flags))
    ensures var (s', ret) := Step(s, Create(name, excl, flags)); var fs1 := WithNewFile(s.fs);
      var i := Dir.BlockNo(SFS_DIR, Dir.FirstEmpty(SFS_DIR, fs1, 0));
      if Dir.Lookup(SFS_DIR, s.fs, name) != 0 then if excl then ret == Exists && s' == s else ret.Opened?
      else if s.fs.ihead == 0 then ret == NoInode && s' == s
      else if s.fs.ilist == [] then ret == Aborted
      else if i >= MAX_IBLOCKS || Needed(fs1, Ino(fs1, Dir.ROOT), i) > |Free(s.fs.store)| then ret == Failed
      else ret.Opened?
  {
    hide DiskInv, Dir.DirOk, LinksOk, Fd.PoolOk, Fd.Settled, Fd.Open, Dir.Lookup, Dir.Link, Dir.LinkClean, WithNewFile,
         NewFile, Needed, Free, Dir.FirstEmpty, Content, PastEnd;
    if Dir.Lookup(SFS_DIR, s.fs, name) == 0 && s.fs.ihead != 0 {
      CreateAbortsIff(s, name, excl, flags);
      if s.fs.ilist != [] {
        CreateFailsIff(s, name, excl, flags);
      }
    }
  }

  /** With any other number, the create goes on with the inode of that number: if it is in the table, it is a live one,
      perhaps the root, and its size and its pointers are gone. */
  lemma CreatePastTheTable(s: Sys, name: FileName, excl: bool, flags: nat)
    requires DiskInv(s.fs) && Dir.Lookup(SFS_DIR, s.fs, name) == 0 && s.fs.ilist == [] && s.fs.ihead != 0
    requires 1 <= PastEnd(s.fs).inumber <= Count(s.fs)
    ensures var n := PastEnd(s.fs).inumber;
      && Live(s.fs, n) && NewFile(s.fs).inumber == n && Ino(WithNewFile(s.fs), n) == Inode(n, 1, 0, NO_PTRS)
      && (Step(s, Create(name, excl, flags)).1.Opened? || Step(s, Create(name, excl, flags)).1 == Failed)
  {
    hide StoreOk, Owned, Target, Content, Dir.Link, Dir.Lookup, Fd.Open;
    TakePastTheTable(s.fs);
  }

  /** A create of a new name fails, leaving an orphan, exactly when the directory is full or the blocks its
      new entry needs are not to be had. */
  lemma CreateFailsIff(s: Sys, name: FileName, excl: bool, flags: nat)
    requires SysInv(s) && Dir.Lookup(SFS_DIR, s.fs, name) == 0 && s.fs.ilist != []
      && Dir.LinkClean(SFS_DIR, WithNewFile(s.fs))
    ensures var (s', ret) := Step(s, Create(name, excl, flags)); var fs1 := WithNewFile(s.fs);
      var i := Dir.BlockNo(SFS_DIR, Dir.FirstEmpty(SFS_DIR, fs1, 0));
      && (ret == Failed || ret.Opened?)
      && (ret == Failed <==> i >= MAX_IBLOCKS || Needed(fs1, Ino(fs1, Dir.ROOT), i) > |Free(s.fs.store)|)
      && s'.orphans == (if ret == Failed then s.orphans + {s.fs.ihead} else s.orphans)
  {
    hide DiskInv, Content, Dir.DirOk, Fd.PoolOk, Fd.Settled, Fd.Opens, Dir.Lookup, WithNewFile, NewFile, Fd.Open,
         WriteBlock, Refs, LinksOk, Clean, WriteEffect, Needed, Free;
    NewFileIsLinkable(s);
    var fs1, file := WithNewFile(s.fs), NewFile(s.fs);
    StoreOfNewFile(s.fs);
    Dir.RootIsLive(fs1);
    var h := Dir.FirstEmpty(SFS_DIR, fs1, 0);
    var i := Dir.BlockNo(SFS_DIR, h);
    var was := if h < Dir.Len(SFS_DIR, fs1) then Content(fs1, Dir.ROOT, i) else ZERO_BLOCK;
    var blk := Dir.PutEntry(SFS_DIR, was, Dir.SlotOf(SFS_DIR, h), [file.inumber] + name);
    WriteBlockRefinesMap(fs1, Ino(fs1, Dir.ROOT), i, blk, WriteBlock(fs1, Ino(fs1, Dir.ROOT), i, blk));
  }

  lemma StoreOfNewFile(fs: Fs)
    ensures WithNewFile(fs).store == fs.store
  {
  }

  /** An orphan has no name and no descriptor, and yet it is never freed. */
  lemma {:induction false} OrphansStay(s: Sys, ops: seq<Op>, n: Word)
    requires SysInv(s) && Permitted(s, ops) && n in s.orphans && 2 <= n
    ensures n in Run(s, ops).orphans && Live(Run(s, ops).fs, n)
    decreases ops
  {
    if ops == [] {
      CountInSet(s.orphans, n);
    } else {
      StepKeepsInv(s, ops[0]);
      OrphansGrow(s, ops[0]);
      OrphansStay(Step(s, ops[0]).0, ops[1..], n);
    }
  }

  lemma OrphansGrow(s: Sys, op: Op)
    ensures s.orphans <= Step(s, op).0.orphans
  {
  }
}
