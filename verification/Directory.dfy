/** The root directory: a file of entries, several to a block, found by scanning (src/dir.c). The entry size and the
    number of entries in a block are parameters. */
module Directory {
  import opened Words
  import opened FreeList
  import opened Inodes

  const ROOT: Word := 1

  /** count entries of this many words lie one after the other at the start of a block. */
  datatype Shape = Shape(words: nat, count: nat)
  predicate FitsBlock(g: Shape) { g.count * g.words <= BLOCK_WORDS }

  type Layout = g: Shape | 1 <= g.words && 1 <= g.count && FitsBlock(g) witness Shape(33, 1)

  /** An entry is an inode number, 0 in an empty entry, followed by the name. */
  type Name = seq<Word>

  function EntryIno(e: seq<Word>): Word
    requires e != []
  {
    e[0]
  }

  function EntryName(e: seq<Word>): Name
    requires e != []
  {
    e[1..]
  }

  // ---------------------------------------------------------------- entries in a block

  /** The word at which entry j begins. */
  function WordAt(g: Layout, j: nat): nat { j * g.words }

  lemma EntryFits(g: Layout, j: nat)
    requires j < g.count
    ensures WordAt(g, j) + g.words <= BLOCK_WORDS
  {
    assert (j + 1) * g.words <= g.count * g.words;
  }

  lemma EntriesApart(g: Layout, j: nat, l: nat)
    requires j < l
    ensures WordAt(g, j) + g.words <= WordAt(g, l)
  {
    assert (j + 1) * g.words <= l * g.words;
  }

  function EntryAt(g: Layout, b: Block, j: nat): (e: seq<Word>)
    requires j < g.count
    ensures |e| == g.words
  {
    EntryFits(g, j);
    b[WordAt(g, j)..WordAt(g, j) + g.words]
  }

  function PutEntry(g: Layout, b: Block, j: nat, e: seq<Word>): Block
    requires j < g.count && |e| == g.words
  {
    EntryFits(g, j);
    b[..WordAt(g, j)] + e + b[WordAt(g, j) + g.words..]
  }

  /** Unlinking zeroes the inode number only. */
  function ClearEntry(g: Layout, b: Block, j: nat): Block
    requires j < g.count
  {
    EntryFits(g, j);
    SetWord(b, WordAt(g, j), 0)
  }

  /** A piece of a sequence in which another piece was replaced. */
  lemma Spliced(b: seq<Word>, at: nat, e: seq<Word>, from: nat)
    requires at + |e| <= |b| && from + |e| <= |b| && (from + |e| <= at || at + |e| <= from || from == at)
    ensures var c := b[..at] + e + b[at + |e|..];
      c[from..from + |e|] == if from == at then e else b[from..from + |e|]
  {
    var c := b[..at] + e + b[at + |e|..];
    if from != at {
      assert forall y :: 0 <= y < at || at + |e| <= y < |b| ==> c[y] == b[y];
      assert c[from..from + |e|] == b[from..from + |e|];
    }
  }

  lemma PutEntryAt(g: Layout, b: Block, j: nat, e: seq<Word>, l: nat)
    requires j < g.count && l < g.count && |e| == g.words
    ensures EntryAt(g, PutEntry(g, b, j, e), l) == if l == j then e else EntryAt(g, b, l)
  {
    hide WordAt, FitsBlock;
    EntryFits(g, j);
    EntryFits(g, l);
    if l < j {
      EntriesApart(g, l, j);
    } else if j < l {
      EntriesApart(g, j, l);
    }
    Spliced(b, WordAt(g, j), e, WordAt(g, l));
  }

  lemma ClearEntryAt(g: Layout, b: Block, j: nat, l: nat)
    requires j < g.count && l < g.count
    ensures EntryAt(g, ClearEntry(g, b, j), l) == if l == j then EntryAt(g, b, l)[0 := 0] else EntryAt(g, b, l)
  {
    hide WordAt, FitsBlock;
    EntryFits(g, j);
    EntryFits(g, l);
    if l < j {
      EntriesApart(g, l, j);
    } else if j < l {
      EntriesApart(g, j, l);
    }
    assert b[WordAt(g, j) := 0] == b[..WordAt(g, j)] + [0] + b[WordAt(g, j) + 1..];
  }

  lemma ZeroEntry(g: Layout, l: nat)
    requires l < g.count
    ensures EntryAt(g, ZERO_BLOCK, l) == Zeros(g.words)
  {
    hide WordAt, FitsBlock;
    EntryFits(g, l);
  }

  // ---------------------------------------------------------------- places

  /** Entry places are numbered block by block: entry j of block i has number PlaceNo. */
  function PlaceNo(g: Layout, i: nat, j: nat): nat { i * g.count + j }

  function BlockNo(g: Layout, k: nat): nat { k / g.count }

  function SlotOf(g: Layout, k: nat): (j: nat)
    ensures j < g.count
  {
    k % g.count
  }

  lemma PlaceOf(g: Layout, i: nat, j: nat)
    requires j < g.count
    ensures BlockNo(g, PlaceNo(g, i, j)) == i && SlotOf(g, PlaceNo(g, i, j)) == j
  {
    DivModUnique(i * g.count + j, g.count, i, j);
  }

  /** The next place, in the same block or the next one. */
  lemma PlaceNext(g: Layout, i: nat, j: nat)
    ensures PlaceNo(g, 0, 0) == 0 && PlaceNo(g, i, j + 1) == PlaceNo(g, i, j) + 1
    ensures PlaceNo(g, i, g.count) == PlaceNo(g, i + 1, 0) == PlaceNo(g, i, 0) + g.count
  {
  }

  lemma PlaceOrder(g: Layout, i: nat, j: nat, n: nat)
    requires i < n && j <= g.count
    ensures PlaceNo(g, i, j) <= PlaceNo(g, n, 0)
  {
    assert (i + 1) * g.count <= n * g.count;
  }

  lemma DivModUnique(x: nat, c: nat, q: nat, r: nat)
    requires c > 0 && x == q * c + r && r < c
    ensures x / c == q && x % c == r
  {
    var d := x / c - q;
    assert x == c * (x / c) + x % c;
    assert d * c == r - x % c;
    assert d > 0 ==> d * c >= c;
    assert d < 0 ==> d * c <= 0 - c;
  }

  lemma PlaceBelow(g: Layout, k: nat, n: nat)
    ensures k == PlaceNo(g, BlockNo(g, k), SlotOf(g, k))
    ensures k < PlaceNo(g, n, 0) <==> BlockNo(g, k) < n
  {
    var q := k / g.count;
    assert k == g.count * q + k % g.count;
    if q < n {
      assert (q + 1) * g.count <= n * g.count;
    } else {
      assert n * g.count <= q * g.count;
    }
  }

  /** Number of blocks of the directory, and of entry places. */
  function Blocks(fs: Fs): nat { Ino(fs, ROOT).size / BLOCK_SIZE }

  function Len(g: Layout, fs: Fs): nat { PlaceNo(g, Blocks(fs), 0) }

  function Entry(g: Layout, fs: Fs, k: nat): (e: seq<Word>)
    ensures |e| == g.words
  {
    EntryAt(g, Content(fs, ROOT, BlockNo(g, k)), SlotOf(g, k))
  }

  predicate Used(g: Layout, fs: Fs, k: nat) { EntryIno(Entry(g, fs, k)) != 0 }

  predicate Names(g: Layout, fs: Fs, k: nat, name: Name) { Used(g, fs, k) && EntryName(Entry(g, fs, k)) == name }

  /** The directory is a whole number of addressable blocks and no two entries have the same name. */
  ghost predicate DirOk(g: Layout, fs: Fs) {
    && Ino(fs, ROOT).size == BLOCK_SIZE * Blocks(fs)
    && Blocks(fs) <= MAX_IBLOCKS
    && (forall i, j :: 0 <= i < j < Len(g, fs) && Used(g, fs, i) && Used(g, fs, j) ==>
          EntryName(Entry(g, fs, i)) != EntryName(Entry(g, fs, j)))
  }

  /** The inode number at each entry place, 0 for an empty place. */
  function Inos(g: Layout, fs: Fs): (s: seq<Word>)
    ensures |s| == Len(g, fs)
    ensures forall i :: 0 <= i < |s| ==> s[i] == EntryIno(Entry(g, fs, i))
  {
    seq(Len(g, fs), i requires 0 <= i < Len(g, fs) => EntryIno(Entry(g, fs, i)))
  }

  /** sfs_dir_iternext: the first used place from i on, or the end. */
  function NextUsed(g: Layout, fs: Fs, i: nat): (k: nat)
    requires i <= Len(g, fs)
    ensures i <= k <= Len(g, fs)
    ensures forall j :: i <= j < k ==> !Used(g, fs, j)
    ensures k < Len(g, fs) ==> Used(g, fs, k)
    decreases Len(g, fs) - i
  {
    if i == Len(g, fs) || Used(g, fs, i) then i else NextUsed(g, fs, i + 1)
  }

  /** The first empty place from i on, or the end. */
  function FirstEmpty(g: Layout, fs: Fs, i: nat): (k: nat)
    requires i <= Len(g, fs)
    ensures i <= k <= Len(g, fs)
    ensures forall j :: i <= j < k ==> Used(g, fs, j)
    ensures k < Len(g, fs) ==> !Used(g, fs, k)
    decreases Len(g, fs) - i
  {
    if i == Len(g, fs) || !Used(g, fs, i) then i else FirstEmpty(g, fs, i + 1)
  }

  /** The first place from i on that carries the name, or the end. */
  function FirstNamed(g: Layout, fs: Fs, name: Name, i: nat): (k: nat)
    requires i <= Len(g, fs)
    ensures i <= k <= Len(g, fs)
    ensures forall j :: i <= j < k ==> !Names(g, fs, j, name)
    ensures k < Len(g, fs) ==> Names(g, fs, k, name)
    decreases Len(g, fs) - i
  {
    if i == Len(g, fs) || Names(g, fs, i, name) then i else FirstNamed(g, fs, name, i + 1)
  }

  /** The inode a name stands for; 0 if there is no such entry. */
  function Lookup(g: Layout, fs: Fs, name: Name): Word {
    var k := FirstNamed(g, fs, name, 0);
    if k < Len(g, fs) then EntryIno(Entry(g, fs, k)) else 0
  }

  /** The places visited by calling sfs_dir_iternext until it is exhausted, from place i. */
  function Yielded(g: Layout, fs: Fs, i: nat): (ks: seq<nat>)
    requires i <= Len(g, fs)
    ensures forall p :: 0 <= p < |ks| ==> i <= ks[p] < Len(g, fs) && Used(g, fs, ks[p])
    ensures forall p, q :: 0 <= p < q < |ks| ==> ks[p] < ks[q]
    decreases Len(g, fs) - i
  {
    var k := NextUsed(g, fs, i);
    if k == Len(g, fs) then [] else [k] + Yielded(g, fs, k + 1)
  }

  /** The entries yielded that way. */
  function Listed(g: Layout, fs: Fs, i: nat): seq<seq<Word>>
    requires i <= Len(g, fs)
    decreases Len(g, fs) - i
  {
    var k := NextUsed(g, fs, i);
    if k == Len(g, fs) then [] else [Entry(g, fs, k)] + Listed(g, fs, k + 1)
  }

  lemma {:induction false} ListedIsYielded(g: Layout, fs: Fs, i: nat)
    requires i <= Len(g, fs)
    ensures var places, entries := Yielded(g, fs, i), Listed(g, fs, i);
      |entries| == |places| && forall p :: 0 <= p < |places| ==> entries[p] == Entry(g, fs, places[p])
    decreases Len(g, fs) - i
  {
    hide Entry, Used;
    var k := NextUsed(g, fs, i);
    if k < Len(g, fs) {
      ListedIsYielded(g, fs, k + 1);
    }
  }

  /** Iteration yields every used entry, and by Yielded's contract each once, in order, and nothing else. */
  lemma {:induction false} IterationYieldsAll(g: Layout, fs: Fs, i: nat, k: nat)
    requires i <= k < Len(g, fs) && Used(g, fs, k)
    ensures k in Yielded(g, fs, i)
    decreases k - i
  {
    var next := NextUsed(g, fs, i);
    if next != k {
      IterationYieldsAll(g, fs, next + 1, k);
    }
  }

  /** The first used place is the one that is used and has no used place before it. */
  lemma NextUsedIs(g: Layout, fs: Fs, i: nat, k: nat)
    requires i <= k <= Len(g, fs) && forall l :: i <= l < k ==> !Used(g, fs, l)
    requires k < Len(g, fs) ==> Used(g, fs, k)
    ensures NextUsed(g, fs, i) == k
  {
    hide Used;
  }

  lemma FirstEmptyIs(g: Layout, fs: Fs, k: nat)
    requires k <= Len(g, fs) && forall l :: 0 <= l < k ==> Used(g, fs, l)
    requires k < Len(g, fs) ==> !Used(g, fs, k)
    ensures FirstEmpty(g, fs, 0) == k
  {
    hide Used;
  }

  /** With unique names any entry that carries a name decides its lookup. */
  lemma LookupFound(g: Layout, fs: Fs, name: Name, i: nat)
    requires DirOk(g, fs) && i < Len(g, fs) && Names(g, fs, i, name)
    ensures FirstNamed(g, fs, name, 0) == i && Lookup(g, fs, name) == EntryIno(Entry(g, fs, i))
  {
    var k := FirstNamed(g, fs, name, 0);
    assert Used(g, fs, k) && Used(g, fs, i);
  }

  lemma LookupNone(g: Layout, fs: Fs, name: Name)
    ensures Lookup(g, fs, name) == 0 <==> forall i :: 0 <= i < Len(g, fs) ==> !Names(g, fs, i, name)
  {
    var k := FirstNamed(g, fs, name, 0);
    if k < Len(g, fs) {
      assert Names(g, fs, k, name);
    }
  }

  /** Lookup of a name in two directories that agree on the entries carrying it. */
  lemma LookupSame(g: Layout, fs: Fs, fs': Fs, name: Name)
    requires DirOk(g, fs')
    requires forall i :: 0 <= i < Len(g, fs) && Names(g, fs, i, name) ==>
      i < Len(g, fs') && Entry(g, fs', i) == Entry(g, fs, i)
    requires forall i :: 0 <= i < Len(g, fs') && Names(g, fs', i, name) ==>
      i < Len(g, fs) && Entry(g, fs', i) == Entry(g, fs, i)
    ensures Lookup(g, fs', name) == Lookup(g, fs, name)
  {
    LookupNone(g, fs, name);
    LookupNone(g, fs', name);
    if Lookup(g, fs, name) != 0 {
      var k := FirstNamed(g, fs, name, 0);
      LookupFound(g, fs', name, k);
    } else {
      forall i | 0 <= i < Len(g, fs') ensures !Names(g, fs', i, name) {
        assert i < Len(g, fs) ==> !Names(g, fs, i, name);
      }
    }
  }

  // ---------------------------------------------------------------- operations

  datatype LinkResult = LinkResult(fs: Fs, ok: bool)

  /** sfs_dir_link on the root directory: into the first empty place, else at the start of a new block. */
  function Link(g: Layout, fs: Fs, name: Name, ino: Inode): LinkResult
    requires |name| == g.words - 1
  {
    var h := FirstEmpty(g, fs, 0);
    PlaceOf(g, Blocks(fs), 0);
    var was := if h < Len(g, fs) then Content(fs, ROOT, BlockNo(g, h)) else ZERO_BLOCK;
    var w := WriteBlock(fs, Ino(fs, ROOT), BlockNo(g, h), PutEntry(g, was, SlotOf(g, h), [ino.inumber] + name));
    if !w.ok then LinkResult(w.fs, false)
    else
      var dir := if h < Len(g, fs) then w.ino else w.ino.(size := BLOCK_SIZE * (Blocks(fs) + 1));
      LinkResult(SetIno(SetIno(w.fs, dir), Inc(ino)), true)
  }

  /** The write that sfs_dir_link makes does not trip over a stale indirect block. */
  predicate LinkClean(g: Layout, fs: Fs) {
    Clean(fs, Ino(fs, ROOT), BlockNo(g, FirstEmpty(g, fs, 0)))
  }

  /** Give up one reference to an inode; the last one frees it (src/dir.c:116-128, src/sfs.c:642-657). */
  function DropLink(fs: Fs, n: Word): Fs {
    var ino := Dec(Ino(fs, n));
    if ino.links == 0 then Deallocate(fs, ino) else SetIno(fs, ino)
  }

  /** sfs_dir_iter_unlink of the entry at place k. */
  function Unlink(g: Layout, fs: Fs, k: nat): Fs {
    var dropped := DropLink(fs, EntryIno(Entry(g, fs, k)));
    var blk := ClearEntry(g, Content(fs, ROOT, BlockNo(g, k)), SlotOf(g, k));
    WriteBlock(dropped, Ino(dropped, ROOT), BlockNo(g, k), blk).fs
  }

  // ---------------------------------------------------------------- effects

  /** fs' has the entries of fs, except that place h holds e; further places are empty. */
  ghost predicate EntriesBecome(g: Layout, fs: Fs, fs': Fs, blocks: nat, h: nat, e: seq<Word>) {
    && Ino(fs', ROOT).size == BLOCK_SIZE * blocks && blocks <= MAX_IBLOCKS
    && (forall k :: 0 <= k < PlaceNo(g, blocks, 0) ==>
          Entry(g, fs', k) == if k == h then e else if k < Len(g, fs) then Entry(g, fs, k) else Zeros(g.words))
  }

  function NewInos(g: Layout, fs: Fs, h: nat, n: Word): seq<Word>
    requires h <= Len(g, fs)
  {
    if h < Len(g, fs) then Inos(g, fs)[h := n] else Inos(g, fs) + [n] + Zeros(g.count - 1)
  }

  ghost predicate Adds(g: Layout, fs: Fs, fs': Fs, h: nat, e: seq<Word>) {
    && |e| == g.words && EntryIno(e) != 0 && h == FirstEmpty(g, fs, 0)
    && EntriesBecome(g, fs, fs', if h < Len(g, fs) then Blocks(fs) else Blocks(fs) + 1, h, e)
  }

  lemma LenAdded(g: Layout, fs: Fs, fs': Fs, h: nat, e: seq<Word>)
    requires Adds(g, fs, fs', h, e)
    ensures Len(g, fs') == Len(g, fs) + if h < Len(g, fs) then 0 else g.count
    ensures h < Len(g, fs') && |e| == g.words && EntryIno(e) != 0
    ensures forall k :: 0 <= k < Len(g, fs') ==>
      Entry(g, fs', k) == if k == h then e else if k < Len(g, fs) then Entry(g, fs, k) else Zeros(g.words)
  {
    hide Entry, PlaceNo;
    PlaceNext(g, Blocks(fs), 0);
  }

  lemma AddedIsUnique(g: Layout, fs: Fs, fs': Fs, h: nat, e: seq<Word>)
    requires DirOk(g, fs) && Adds(g, fs, fs', h, e) && Lookup(g, fs, EntryName(e)) == 0
    ensures DirOk(g, fs')
  {
    hide Entry;
    LenAdded(g, fs, fs', h, e);
    LookupNone(g, fs, EntryName(e));
    forall i, j | 0 <= i < j < Len(g, fs') && Used(g, fs', i) && Used(g, fs', j)
      ensures EntryName(Entry(g, fs', i)) != EntryName(Entry(g, fs', j)) {
      assert j != h ==> Used(g, fs, j) && !Names(g, fs, j, EntryName(e));
      assert i != h ==> Used(g, fs, i) && !Names(g, fs, i, EntryName(e));
    }
  }

  lemma EntryAdded(g: Layout, fs: Fs, fs': Fs, h: nat, e: seq<Word>)
    requires DirOk(g, fs) && Adds(g, fs, fs', h, e) && Lookup(g, fs, EntryName(e)) == 0
    ensures DirOk(g, fs')
    ensures Inos(g, fs') == NewInos(g, fs, h, EntryIno(e))
    ensures h < Len(g, fs) ==> Inos(g, fs)[h] == 0
    ensures forall nm: Name :: Lookup(g, fs', nm) == if nm == EntryName(e) then EntryIno(e) else Lookup(g, fs, nm)
  {
    hide Entry, Adds, Len, DirOk;
    AddedIsUnique(g, fs, fs', h, e);
    LenAdded(g, fs, fs', h, e);
    HoleIsFree(g, fs, fs', h, e);
    forall nm: Name ensures Lookup(g, fs', nm) == if nm == EntryName(e) then EntryIno(e) else Lookup(g, fs, nm) {
      if nm == EntryName(e) {
        LookupFound(g, fs', nm, h);
      } else {
        LookupSame(g, fs, fs', nm);
      }
    }
  }

  lemma HoleIsFree(g: Layout, fs: Fs, fs': Fs, h: nat, e: seq<Word>)
    requires Adds(g, fs, fs', h, e)
    ensures h <= Len(g, fs) && (h < Len(g, fs) ==> !Used(g, fs, h))
  {
  }

  lemma EntryRemoved(g: Layout, fs: Fs, fs': Fs, k: nat, e: seq<Word>)
    requires DirOk(g, fs) && k < Len(g, fs) && Used(g, fs, k)
    requires |e| == g.words && EntriesBecome(g, fs, fs', Blocks(fs), k, e) && EntryIno(e) == 0
    ensures DirOk(g, fs')
    ensures Inos(g, fs') == Inos(g, fs)[k := 0]
    ensures forall nm: Name :: Lookup(g, fs', nm) == if nm == EntryName(Entry(g, fs, k)) then 0 else Lookup(g, fs, nm)
  {
    hide Entry;
    forall nm: Name ensures Lookup(g, fs', nm) == if nm == EntryName(Entry(g, fs, k)) then 0 else Lookup(g, fs, nm) {
      if nm == EntryName(Entry(g, fs, k)) {
        LookupNone(g, fs', nm);
      } else {
        LookupSame(g, fs, fs', nm);
      }
    }
  }

  lemma EntriesKept(g: Layout, fs: Fs, fs': Fs)
    requires DirOk(g, fs) && Ino(fs', ROOT).size == Ino(fs, ROOT).size
    requires forall i: nat :: i < MAX_IBLOCKS ==> Content(fs', ROOT, i) == Content(fs, ROOT, i)
    ensures DirOk(g, fs') && Inos(g, fs') == Inos(g, fs)
    ensures forall nm: Name :: Lookup(g, fs', nm) == Lookup(g, fs, nm)
    ensures forall k :: 0 <= k < Len(g, fs) ==> Entry(g, fs', k) == Entry(g, fs, k)
  {
    hide Content;
    forall k: nat | k < Len(g, fs) ensures Entry(g, fs', k) == Entry(g, fs, k) {
      PlaceBelow(g, k, Blocks(fs));
    }
    SameEntriesKept(g, fs, fs');
  }

  lemma SameEntriesKept(g: Layout, fs: Fs, fs': Fs)
    requires DirOk(g, fs) && Ino(fs', ROOT).size == Ino(fs, ROOT).size
    requires forall k :: 0 <= k < Len(g, fs) ==> Entry(g, fs', k) == Entry(g, fs, k)
    ensures DirOk(g, fs') && Inos(g, fs') == Inos(g, fs)
    ensures forall nm: Name :: Lookup(g, fs', nm) == Lookup(g, fs, nm)
  {
    hide Entry;
    forall nm: Name ensures Lookup(g, fs', nm) == Lookup(g, fs, nm) {
      LookupSame(g, fs, fs', nm);
    }
  }

  lemma RootIsLive(fs: Fs)
    requires DiskInv(fs)
    ensures Live(fs, ROOT) && Ino(fs, ROOT).inumber == ROOT
  {
    FreeInodesInRange(fs.inodes, Count(fs), fs.ihead, fs.ilist);
  }

  /** fs' has the inodes of fs except perhaps the root and n, and the contents of all files but the root's. */
  ghost predicate Kept(fs: Fs, fs': Fs, n: Word) {
    && fs'.tb == fs.tb && fs'.ihead == fs.ihead && fs'.ilist == fs.ilist
    && (forall m: Word :: m != ROOT && m != n ==> Ino(fs', m) == Ino(fs, m))
    && (forall m: Word, k: nat :: Live(fs, m) && m != ROOT && k < MAX_IBLOCKS ==>
      Content(fs', m, k) == Content(fs, m, k))
  }

  /** Block i of the directory becomes blk if ok, all others stay. */
  ghost predicate RootBecomes(fs: Fs, fs': Fs, i: nat, blk: Block, ok: bool) {
    forall l: nat :: l < MAX_IBLOCKS ==> Content(fs', ROOT, l) == if ok && l == i then blk else Content(fs, ROOT, l)
  }

  /** Writing block i of the directory. */
  lemma RootWrite(fs: Fs, i: nat, blk: Block, w: Written)
    requires DiskInv(fs) && Clean(fs, Ino(fs, ROOT), i)
    requires w == WriteBlock(fs, Ino(fs, ROOT), i, blk)
    ensures DiskInv(w.fs) && Kept(fs, w.fs, 0) && Agrees(w.fs, w.ino) && w.ino.inumber == ROOT
    ensures Conserves(fs, w.fs)
    ensures w.ino.size == Ino(fs, ROOT).size
    ensures w.ok ==> i < MAX_IBLOCKS
    ensures RootBecomes(fs, w.fs, i, blk, w.ok)
  {
    hide StoreOk, Owned, Target, Conserves;
    RootIsLive(fs);
    WriteBlockRefinesMap(fs, Ino(fs, ROOT), i, blk, w);
    forall l: nat | l < MAX_IBLOCKS
      ensures Content(w.fs, ROOT, l) == if w.ok && l == i then blk else Content(fs, ROOT, l) {
      assert Content(w.fs, ROOT, l) == if w.ok && ROOT == ROOT && l == i then blk else Content(fs, ROOT, l);
    }
  }

  /** The two inode writes that end sfs_dir_link. */
  lemma SetRootAndInode(fs: Fs, dir: Inode, ino: Inode, fs': Fs)
    requires DiskInv(fs) && dir.inumber == ROOT && 2 <= ino.inumber && Live(fs, ino.inumber)
    requires dir.ptrs == Ino(fs, ROOT).ptrs && ino.ptrs == Ino(fs, ino.inumber).ptrs
    requires fs' == SetIno(SetIno(fs, dir), ino)
    ensures DiskInv(fs') && Kept(fs, fs', ino.inumber) && Conserves(fs, fs')
    ensures Ino(fs', ROOT) == dir && Ino(fs', ino.inumber) == ino
    ensures forall i: nat :: Content(fs', ROOT, i) == Content(fs, ROOT, i)
  {
    hide StoreOk, Owned, Target, Conserves;
    RootIsLive(fs);
    UpdateIno(fs, dir);
    UpdateIno(SetIno(fs, dir), ino);
    ConservesChain(fs, SetIno(fs, dir), fs');
  }

  /** The entries after entry e was put at place h of its block, a new block of zeros if h is past the end. */
  lemma EntriesPut(g: Layout, fs: Fs, fs': Fs, h: nat, e: seq<Word>)
    requires h <= Len(g, fs) && |e| == g.words && BlockNo(g, h) < MAX_IBLOCKS && Blocks(fs) <= MAX_IBLOCKS
    requires var was := if h < Len(g, fs) then Content(fs, ROOT, BlockNo(g, h)) else ZERO_BLOCK;
      RootBecomes(fs, fs', BlockNo(g, h), PutEntry(g, was, SlotOf(g, h), e), true)
    ensures h == Len(g, fs) ==> BlockNo(g, h) == Blocks(fs)
    ensures forall k: nat :: k < Len(g, fs) || BlockNo(g, k) == BlockNo(g, h) ==>
      Entry(g, fs', k) == if k == h then e else if k < Len(g, fs) then Entry(g, fs, k) else Zeros(g.words)
  {
    hide Content, PutEntry, EntryAt, PlaceNo, BlockNo, SlotOf;
    PlaceBelow(g, h, Blocks(fs));
    if h == Len(g, fs) {
      PlaceOf(g, Blocks(fs), 0);
    }
    var was := if h < Len(g, fs) then Content(fs, ROOT, BlockNo(g, h)) else ZERO_BLOCK;
    forall k: nat | k < Len(g, fs) || BlockNo(g, k) == BlockNo(g, h)
      ensures Entry(g, fs', k) == if k == h then e else if k < Len(g, fs) then Entry(g, fs, k) else Zeros(g.words) {
      PlaceBelow(g, k, Blocks(fs));
      if BlockNo(g, k) == BlockNo(g, h) {
        PutEntryAt(g, was, SlotOf(g, h), e, SlotOf(g, k));
        ZeroEntry(g, SlotOf(g, k));
      }
    }
  }

  /** The directory's side of sfs_dir_link. */
  lemma LinkedEntries(g: Layout, fs: Fs, name: Name, n: Word, fs': Fs, ok: bool)
    requires DirOk(g, fs) && Lookup(g, fs, name) == 0 && n != 0 && |name| == g.words - 1
    requires var h := FirstEmpty(g, fs, 0);
      var was := if h < Len(g, fs) then Content(fs, ROOT, BlockNo(g, h)) else ZERO_BLOCK;
      && (ok ==> BlockNo(g, h) < MAX_IBLOCKS)
      && RootBecomes(fs, fs', BlockNo(g, h), PutEntry(g, was, SlotOf(g, h), [n] + name), ok)
      && Ino(fs', ROOT).size == if ok && h == Len(g, fs) then BLOCK_SIZE * (Blocks(fs) + 1) else Ino(fs, ROOT).size
    ensures DirOk(g, fs')
    ensures ok ==>
      (var h := FirstEmpty(g, fs, 0);
       && (h < Len(g, fs) ==> Inos(g, fs)[h] == 0)
       && Inos(g, fs') == NewInos(g, fs, h, n))
    ensures !ok ==> Inos(g, fs') == Inos(g, fs)
    ensures forall nm: Name :: Lookup(g, fs', nm) == if ok && nm == name then n else Lookup(g, fs, nm)
  {
    hide Entry, Content, PutEntry, PlaceNo;
    if ok {
      var h := FirstEmpty(g, fs, 0);
      EntriesPut(g, fs, fs', h, [n] + name);
      var blocks := if h < Len(g, fs) then Blocks(fs) else Blocks(fs) + 1;
      forall k: nat | k < PlaceNo(g, blocks, 0) ensures k < Len(g, fs) || BlockNo(g, k) == BlockNo(g, h) {
        PlaceBelow(g, k, blocks);
        PlaceBelow(g, k, Blocks(fs));
      }
      assert EntryName([n] + name) == name;
      EntryAdded(g, fs, fs', h, [n] + name);
    } else {
      EntriesKept(g, fs, fs');
    }
  }

  lemma KeptChain(a: Fs, b: Fs, c: Fs, n: Word)
    requires Kept(a, b, 0) && Kept(b, c, n)
    ensures Kept(a, c, n)
  {
    hide Content;
    forall m: Word, k: nat | Live(a, m) && m != ROOT && k < MAX_IBLOCKS ensures Content(c, m, k) == Content(a, m, k) {
      assert Live(b, m);
    }
  }

  lemma KeptMore(fs: Fs, fs': Fs, n: Word)
    requires Kept(fs, fs', 0)
    ensures Kept(fs, fs', n)
  {
    hide Content;
  }

  lemma KeptInode(fs: Fs, fs': Fs, n: Word)
    requires Kept(fs, fs', 0)
    ensures Live(fs, n) ==> Live(fs', n)
    ensures 2 <= n ==> Ino(fs', n) == Ino(fs, n)
  {
  }

  lemma RootStays(fs: Fs, mid: Fs, fs': Fs, i: nat, blk: Block)
    requires RootBecomes(fs, mid, i, blk, true) && forall l: nat :: Content(fs', ROOT, l) == Content(mid, ROOT, l)
    ensures RootBecomes(fs, fs', i, blk, true)
  {
    hide Content;
  }

  /** What sfs_dir_link promises: one more entry, in the first empty place or at the start of one appended block,
      one more link on the inode, nothing else changed; on failure neither. */
  lemma LinkAddsOneEntry(g: Layout, fs: Fs, name: Name, ino: Inode, r: LinkResult)
    requires DiskInv(fs) && DirOk(g, fs) && Agrees(fs, ino) && 2 <= ino.inumber
    requires |name| == g.words - 1 && Lookup(g, fs, name) == 0 && LinkClean(g, fs)
    requires r == Link(g, fs, name, ino)
    ensures DiskInv(r.fs) && DirOk(g, r.fs) && Kept(fs, r.fs, ino.inumber) && Conserves(fs, r.fs)
    ensures Ino(r.fs, ino.inumber) == if r.ok then Inc(ino) else ino
    ensures r.ok ==>
      (var h := FirstEmpty(g, fs, 0);
       && (h < Len(g, fs) ==> Inos(g, fs)[h] == 0)
       && Inos(g, r.fs) == NewInos(g, fs, h, ino.inumber))
    ensures !r.ok ==> Inos(g, r.fs) == Inos(g, fs)
    ensures forall nm: Name :: Lookup(g, r.fs, nm) == if r.ok && nm == name then ino.inumber else Lookup(g, fs, nm)
  {
    hide StoreOk, Owned, Target, TableOk, WriteBlock, DirOk, Lookup, Conserves, PutEntry, NewInos, Inos, Content, Entry,
         SlotOf, SetIno, Kept, DiskInv, RootBecomes;
    var h := FirstEmpty(g, fs, 0);
    var was := if h < Len(g, fs) then Content(fs, ROOT, BlockNo(g, h)) else ZERO_BLOCK;
    var blk := PutEntry(g, was, SlotOf(g, h), [ino.inumber] + name);
    var w := WriteBlock(fs, Ino(fs, ROOT), BlockNo(g, h), blk);
    RootWrite(fs, BlockNo(g, h), blk, w);
    KeptInode(fs, w.fs, ino.inumber);
    PlaceOf(g, Blocks(fs), 0);
    if w.ok {
      var dir := if h < Len(g, fs) then w.ino else w.ino.(size := BLOCK_SIZE * (Blocks(fs) + 1));
      SetRootAndInode(w.fs, dir, Inc(ino), r.fs);
      ConservesChain(fs, w.fs, r.fs);
      KeptChain(fs, w.fs, r.fs, ino.inumber);
      RootStays(fs, w.fs, r.fs, BlockNo(g, h), blk);
    } else {
      KeptMore(fs, w.fs, ino.inumber);
    }
    LinkedEntries(g, fs, name, ino.inumber, r.fs, r.ok);
  }

  /** The state after giving up one of the references to inode n. */
  ghost predicate Dropped(fs: Fs, n: Word, fs': Fs) {
    && DiskInv(fs') && fs'.tb == fs.tb
    && fs'.ilist == (if Ino(fs, n).links == 1 then [n] + fs.ilist else fs.ilist)
    && (forall m: Word :: m != n ==> Ino(fs', m) == Ino(fs, m))
    && (Ino(fs, n).links != 1 ==> Ino(fs', n) == Dec(Ino(fs, n)))
    && (forall m: Word, k: nat :: Live(fs, m) && Live(fs', m) && k < MAX_IBLOCKS ==>
      Content(fs', m, k) == Content(fs, m, k))
  }

  /** The last link of an inode with an indirect block. */
  predicate LosesBlocks(fs: Fs, n: Word) {
    Ino(fs, n).links == 1 && Ino(fs, n).ptrs[IND] != 0
  }

  lemma DropLinkEffect(fs: Fs, n: Word)
    requires DiskInv(fs) && Live(fs, n) && 2 <= n && Ino(fs, n).links > 0
    ensures Dropped(fs, n, DropLink(fs, n))
    ensures Conserves(fs, DropLink(fs, n)) <==> !LosesBlocks(fs, n)
  {
    hide StoreOk, Owned, Target, Conserves, Deallocate;
    var ino := Dec(Ino(fs, n));
    if ino.links == 0 {
      DeallocateFrees(fs, ino);
      DeallocateConservesIffNoIndirect(fs, ino);
    } else {
      UpdateIno(fs, ino);
    }
  }

  /** A used entry lies in a mapped block: clearing it can neither fail nor allocate. */
  lemma UsedEntryIsMapped(g: Layout, fs: Fs, k: nat)
    requires DiskInv(fs) && BlockNo(g, k) < MAX_IBLOCKS && Used(g, fs, k)
    ensures var dir := Ino(fs, ROOT); Clean(fs, dir, BlockNo(g, k)) && Needed(fs, dir, BlockNo(g, k)) == 0
    ensures Target(fs, Leaf(ROOT, BlockNo(g, k))) != 0
  {
    RootIsLive(fs);
    ZeroEntry(g, SlotOf(g, k));
    assert Target(fs, Leaf(ROOT, BlockNo(g, k))) != 0;
  }

  lemma ConservesBack(a: Fs, b: Fs, c: Fs)
    requires Conserves(b, c)
    ensures Conserves(a, c) <==> Conserves(a, b)
  {
    hide Accounted;
  }

  /** The entries after the inode number at place k was zeroed. */
  lemma EntriesCleared(g: Layout, fs: Fs, fs': Fs, k: nat)
    requires k < Len(g, fs) && Blocks(fs) <= MAX_IBLOCKS
    requires RootBecomes(fs, fs', BlockNo(g, k), ClearEntry(g, Content(fs, ROOT, BlockNo(g, k)), SlotOf(g, k)), true)
    ensures forall l: nat :: l < Len(g, fs) ==>
      Entry(g, fs', l) == if l == k then Entry(g, fs, k)[0 := 0] else Entry(g, fs, l)
  {
    hide Content, ClearEntry, EntryAt, PlaceNo, BlockNo, SlotOf;
    PlaceBelow(g, k, Blocks(fs));
    forall l: nat | l < Len(g, fs)
      ensures Entry(g, fs', l) == if l == k then Entry(g, fs, k)[0 := 0] else Entry(g, fs, l) {
      PlaceBelow(g, l, Blocks(fs));
      ClearEntryAt(g, Content(fs, ROOT, BlockNo(g, k)), SlotOf(g, k), SlotOf(g, l));
    }
  }

  /** Unlinking during iteration clears the entry just yielded, in its own block, gives up one link of its inode,
      and frees the inode exactly when that was the last one; every other entry stays, and every other file keeps
      its inode and contents. */
  lemma UnlinkRemovesEntry(g: Layout, fs: Fs, k: nat, fs': Fs)
    requires DiskInv(fs) && DirOk(g, fs) && k < Len(g, fs) && Used(g, fs, k)
    requires var n := EntryIno(Entry(g, fs, k)); 2 <= n && Live(fs, n) && Ino(fs, n).links > 0
    requires fs' == Unlink(g, fs, k)
    ensures var n := EntryIno(Entry(g, fs, k));
      && DiskInv(fs') && DirOk(g, fs')
      && Kept(DropLink(fs, n), fs', 0)
      && Inos(g, fs') == Inos(g, fs)[k := 0]
      && (forall nm: Name :: Lookup(g, fs', nm) == if nm == EntryName(Entry(g, fs, k)) then 0 else Lookup(g, fs, nm))
      && (Conserves(fs, fs') <==> !LosesBlocks(fs, n))
  {
    hide StoreOk, Owned, Target, WriteBlock, DropLink, Conserves, LosesBlocks, Content, ClearEntry, Lookup;
    var e, i := Entry(g, fs, k), BlockNo(g, k);
    var mid := DropLink(fs, EntryIno(e));
    RootIsLive(fs);
    DropLinkEffect(fs, EntryIno(e));
    RootIsLive(mid);
    EntriesKept(g, fs, mid);
    PlaceBelow(g, k, Blocks(fs));
    UsedEntryIsMapped(g, mid, k);
    var blk := ClearEntry(g, Content(fs, ROOT, i), SlotOf(g, k));
    var w := WriteBlock(mid, Ino(mid, ROOT), i, blk);
    WriteBlockRefinesMap(mid, Ino(mid, ROOT), i, blk, w);
    RootWrite(mid, i, blk, w);
    ConservesBack(fs, mid, w.fs);
    EntriesCleared(g, mid, fs', k);
    EntryRemoved(g, fs, fs', k, e[0 := 0]);
  }
}
