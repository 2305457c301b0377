/** Opening a disk and starting the file system (src/fs.c:177-228, src/sfs.c:54-81). */
module Startup {
  import opened Words
  import opened FreeList
  import opened Inodes
  import opened Mounted
  import opened SlabPool
  import opened System
  import opened Operations
  import opened Formatting
  import Dir = Directory
  import Fd = Descriptors

  /** sfs_fs_open_disk. An unformatted disk is formatted whatever maybeFormat says. stale is what formatting finds
      in its buffer. null stands for an early return or a failed assertion. The file system is usable if its inode
      table is small enough for the cache. */
  method OpenDisk(d: Disk, maybeFormat: bool, stale: Block, ghost chain: seq<Word>, ghost ilist: seq<Word>)
    returns (fs: FileSystem?, ghost formatted: Disk)
    requires DiskShape(d) && |d.data| <= MAX_BLOCKS
    ensures fs != null ==> fresh(fs) && fs.disk == formatted && (fs.Valid() <==> |formatted.table| < INT_LIMIT)
    ensures d.super.signed ==> fs != null && formatted == d
    ensures d.super.signed && fs.Valid() ==> fs.Abs() == OnDisk(d, chain, ilist)
    ensures !d.super.signed ==> (fs != null <==> |d.data| >= 3 && GoodSize(FreeCount(|d.data|)))
    ensures !d.super.signed && fs != null ==>
      FormattedDisk(d.data, formatted) && (fs.Valid() ==> fs.Abs() == NewFs(formatted))
  {
    formatted := d;
    if d.super.signed {
      fs := new FileSystem(d, chain, ilist);
      return;
    }
    var r := FormatFs(d.data, stale);
    match r
    case Formatted(disk) =>
      formatted := disk;
      FormattedLayout(d.data, disk);
      fs := new FileSystem(disk, ListOf(disk.data, disk.super.head), InodesFrom(disk.super.tb, 2));
    case _ =>
      fs := null;
  }

  /** Unmounting and mounting again (sfs_fs_close, then sfs_fs_open_disk on the disk it leaves): nothing is formatted,
      and the file system is the one that was last seen. */
  method Remount(fs: FileSystem, maybeFormat: bool, stale: Block) returns (again: FileSystem)
    requires fs.Valid() && |fs.disk.data| <= MAX_BLOCKS
    modifies fs
    ensures fresh(again) && again.Valid() && again.Abs() == old(fs.Abs())
    ensures again.disk == fs.disk == old(fs.disk).(table := fs.disk.table)
  {
    fs.Close();
    var mounted, formatted := OpenDisk(fs.disk, maybeFormat, stale, fs.chain, fs.ilist);
    again := mounted;
  }

  /** What a remount loses are the open descriptors, and with them links nobody holds: the remounted system is sound if
      and only if nothing was open. */
  lemma RemountIsSoundIff(s: Sys)
    requires SysInv(s)
    ensures SysInv(Sys(s.fs, Fd.NewPool(), s.orphans)) <==> forall fd: nat :: OpenAt(s, fd) == 0
  {
    hide DiskInv, Dir.DirOk, Fd.PoolOk, Fd.Settled, Fd.NewPool, Fd.Opens, Dir.Inos, LinksOk, OpenAt;
    var after := Sys(s.fs, Fd.NewPool(), s.orphans);
    Fd.NewPoolOk();
    OneSlab();
    forall n: Word | n != 0 ensures Refs(s)[n] == Refs(after)[n] + multiset(Fd.Opens(s.pool))[n] {
      NothingOpen(n);
    }
    NothingOpenIff(s);
    FewerRefs(s.fs, Refs(s), Refs(after), multiset(Fd.Opens(s.pool)));
  }

  /** Link counts that are right stay right without some of the references only if there are none of those. */
  lemma FewerRefs(fs: Fs, refs: multiset<Word>, kept: multiset<Word>, lost: multiset<Word>)
    requires LinksOk(fs, refs) && forall n: Word :: n != 0 ==> refs[n] == kept[n] + lost[n]
    ensures LinksOk(fs, kept) <==> forall n: Word :: n != 0 ==> lost[n] == 0
  {
    if n: Word :| n != 0 && lost[n] > 0 {
      assert refs[n] > kept[n];
    }
  }

  lemma NothingOpenIff(s: Sys)
    ensures (forall n: Word :: n != 0 ==> multiset(Fd.Opens(s.pool))[n] == 0) <==> forall fd: nat :: OpenAt(s, fd) == 0
  {
    var opens: seq<Word> := Fd.Opens(s.pool);
    if fd: nat :| OpenAt(s, fd) != 0 {
      var n := OpenAt(s, fd);
      assert opens[fd] == n && n in opens;
      assert multiset(opens)[n] > 0;
    }
    if n: Word :| n != 0 && multiset(opens)[n] > 0 {
      var fd :| 0 <= fd < |opens| && opens[fd] == n;
      assert OpenAt(s, fd) == n;
    }
  }

  /** sfs_init on an unformatted disk that formatting makes a sound one: the running file system satisfies its
      invariant. */
  method InitFresh(d: Disk, stale: Block) returns (sfs: Sfs)
    requires DiskShape(d) && 3 <= |d.data| <= MAX_BLOCKS && !d.super.signed
    requires GoodSize(FreeCount(|d.data|)) && CacheFits(|d.data|) && TailOk(d.data)
    ensures sfs.Valid()
    ensures exists f: Disk :: NewDisk(d.data, f) && sfs.Abs() == Start(d.data, f)
  {
    var pool := new DescriptorPool();
    var fs, formatted := OpenDisk(d, true, stale, [], []);
    FormattedIsSoundIff(d.data, formatted);
    sfs := new Sfs(fs, pool);
  }
}
