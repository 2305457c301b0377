/** format_fs (src/fs.c:47-175): the layout of a new file system and the free lists it writes. */
module Formatting {
  import opened Words
  import opened FreeList
  import opened Inodes
  import opened InodeCache
  import opened Mounted
  import opened System
  import Dir = Directory
  import Fd = Descriptors

  const SLOTS_PER_NODE := 63

  datatype Outcome = TooSmall | AssertFailed | Formatted(disk: Disk)

  /** A sixteenth of the disk for inodes, at least one block. */
  function TableBlocks(blocks: nat): nat
    requires blocks > 0
  {
    if (blocks - 1) / 16 == 0 then 1 else (blocks - 1) / 16
  }

  /** First block of the free list. */
  function Head(blocks: nat): nat
    requires blocks > 0
  {
    2 + TableBlocks(blocks)
  }

  /** Number of blocks from the head to the end of the disk. */
  function FreeCount(blocks: nat): (f: nat)
    requires blocks >= 3
  {
    blocks - Head(blocks)
  }

  /** Number of index nodes: one for every 64 blocks or part of it. */
  function NodeCount(f: nat): nat { (f + 63) / 64 }

  function FirstData(blocks: nat): nat
    requires blocks >= 3
  {
    Head(blocks) + NodeCount(FreeCount(blocks))
  }

  /** The sizes for which the final assertion of format_fs holds. */
  predicate GoodSize(f: nat) {
    f == 1 || (f > 1 && f % 64 != 1)
  }

  /** st_size is a signed 64-bit byte count. */
  const MAX_BLOCKS := 0x40_0000_0000_0000

  function Counting(first: Word, n: nat): (s: seq<Word>)
    requires first + n < 0x1_0000_0000_0000_0000
    ensures |s| == n
    ensures forall i :: 0 <= i < n ==> s[i] == first + i
    decreases n
  {
    if n == 0 then [] else [first] + Counting(first + 1, n - 1)
  }

  /** Index node k, full: the next node and 63 consecutive data blocks. */
  function FullNode(blocks: nat, k: nat): (b: Block)
    requires 3 <= blocks <= MAX_BLOCKS && k < NodeCount(FreeCount(blocks))
  {
    [if k + 1 < NodeCount(FreeCount(blocks)) then Head(blocks) + k + 1 else 0]
    + Counting(FirstData(blocks) + SLOTS_PER_NODE * k, SLOTS_PER_NODE)
  }

  /** Inode n as formatted: the root, or free and linked to the next number. */
  function NewInodeAt(n: Word): Inode
    requires n < MAX_BLOCKS
  {
    if n == 1 then Inode(1, 1, 0, NO_PTRS) else Inode(n, 0, n + 1, NO_PTRS)
  }

  ghost predicate FreshTable(table: seq<InodeBlock>)
    requires |table| < MAX_BLOCKS / 4
  {
    forall b, j :: 0 <= b < |table| && 0 <= j < INODES_PER_BLOCK ==>
      table[b][j] == NewInodeAt(INODES_PER_BLOCK * b + j + 1)
  }

  lemma NodeArithmetic(f: nat)
    ensures f - f * SLOTS_PER_NODE / (SLOTS_PER_NODE + 1) == NodeCount(f)
    ensures f - NodeCount(f) <= SLOTS_PER_NODE * NodeCount(f) && NodeCount(f) <= f
    ensures (f - NodeCount(f)) / SLOTS_PER_NODE == f / 64
    ensures f > NodeCount(f) ==> ((f - NodeCount(f) - 1) / SLOTS_PER_NODE == NodeCount(f) - 1 <==> f % 64 != 1)
  {
    var q, r := f / 64, f % 64;
    assert f == 64 * q + r;
    assert NodeCount(f) == if r == 0 then q else q + 1;
    assert f * 63 == 64 * (63 * q) + 63 * r;
    assert f * 63 / 64 == 63 * q + 63 * r / 64;
  }

  /** The loop over the inode table (src/fs.c:89-120). */
  method FormatTable(tb: nat) returns (table: seq<InodeBlock>)
    requires 1 <= tb < MAX_BLOCKS / 8
    ensures |table| == tb && FreshTable(table)
  {
    table := [];
    var nextFree: Word := 3;
    var tmp: InodeBlock := [NULL_INODE, NULL_INODE, NULL_INODE];
    var i := 1;
    while i < tb + 1
      invariant 1 <= i <= tb + 1 && |table| == i - 1 && FreshTable(table)
      invariant nextFree == if i == 1 then 3 else INODES_PER_BLOCK * (i - 1) + 2
    {
      var j := 0;
      while j < INODES_PER_BLOCK
        invariant 0 <= j <= INODES_PER_BLOCK
        invariant nextFree == if i == 1 && j == 0 then 3 else INODES_PER_BLOCK * (i - 1) + j + 2
        invariant forall l :: 0 <= l < j ==> tmp[l] == NewInodeAt(INODES_PER_BLOCK * (i - 1) + l + 1)
      {
        if i == 1 && j == 0 {
          tmp := tmp[0 := Inode(1, 1, 0, NO_PTRS)];
        } else {
          tmp := tmp[j := Inode(nextFree - 1, 0, nextFree, NO_PTRS)];
          nextFree := nextFree + 1;
        }
        j := j + 1;
      }
      table := table + [tmp];
      i := i + 1;
    }
  }

  /** The full nodes are on disk; nothing else changed. A partial last node is never written. */
  ghost predicate Indexed(data: seq<Block>, data': seq<Block>)
    requires 3 <= |data| <= MAX_BLOCKS
  {
    var head, full := Head(|data|), FreeCount(|data|) / 64;
    && |data'| == |data|
    && (forall x :: 0 <= x < |data| ==>
          data'[x] == if head <= x < head + full then FullNode(|data|, x - head) else data[x])
  }

  /** Words 0..p-1 of the node being filled. */
  ghost predicate Filled(blocks: nat, k: nat, tmp: Block, p: nat)
    requires 3 <= blocks <= MAX_BLOCKS && k < NodeCount(FreeCount(blocks)) && p <= BLOCK_WORDS
  {
    forall j :: 0 <= j < p ==> tmp[j] == FullNode(blocks, k)[j]
  }

  /** full nodes of the list have been written, and nothing else. */
  ghost predicate Flushed(data: seq<Block>, data': seq<Block>, full: nat)
    requires 3 <= |data| <= MAX_BLOCKS && full <= NodeCount(FreeCount(|data|))
  {
    && |data'| == |data|
    && (forall x :: 0 <= x < |data| ==>
          data'[x] == if Head(|data|) <= x < Head(|data|) + full then FullNode(|data|, x - Head(|data|)) else data[x])
  }

  lemma FlushOne(data: seq<Block>, data': seq<Block>, k: nat, tmp: Block)
    requires 3 <= |data| <= MAX_BLOCKS && k < NodeCount(FreeCount(|data|)) && Flushed(data, data', k)
    requires Filled(|data|, k, tmp, BLOCK_WORDS)
    ensures Head(|data|) + k < |data| == |data'|
    ensures Flushed(data, data'[Head(|data|) + k := tmp], k + 1)
  {
    hide FullNode;
    NodeArithmetic(FreeCount(|data|));
    assert tmp == FullNode(|data|, k);
  }

  lemma FillOne(blocks: nat, k: nat, tmp: Block, c: nat, i: Word)
    requires 3 <= blocks <= MAX_BLOCKS && k < NodeCount(FreeCount(blocks)) && c < SLOTS_PER_NODE
    requires Filled(blocks, k, tmp, c + 1) && i == FirstData(blocks) + SLOTS_PER_NODE * k + c
    ensures Filled(blocks, k, SetWord(tmp, c + 1, i), c + 2)
  {
  }

  /** The free-index loop (src/fs.c:126-167). stale is what the block buffer holds after the inode loop; ok
      tells whether the final assertion holds. The assertion inside the loop is proved. */
  method FormatIndex(data: seq<Block>, stale: Block) returns (ok: bool, data': seq<Block>)
    requires 3 <= |data| <= MAX_BLOCKS
    ensures ok <==> GoodSize(FreeCount(|data|))
    ensures Indexed(data, data')
  {
    hide FullNode, Filled, Flushed, Indexed;
    var blocks := |data|;
    var head := Head(blocks);
    var f := blocks - head;
    var slotsPerBlock := BLOCK_WORDS - 1;
    var first := head + f - f * slotsPerBlock / (slotsPerBlock + 1);
    NodeArithmetic(f);
    ghost var nodes := NodeCount(f);
    data' := data;
    var tmp := stale;
    var cur, pos := head, 0;
    NothingFlushed(data);
    // node k is being filled and holds c data blocks
    ghost var k, c := 0, 0;
    var i := first;
    while i < blocks
      invariant first <= i <= blocks && i - first == SLOTS_PER_NODE * k + c && c <= SLOTS_PER_NODE
      invariant c == 0 ==> k == 0
      invariant cur == head + k && pos == if c == 0 then 0 else c + 1
      invariant c > 0 ==> k < nodes && Filled(blocks, k, tmp, pos)
      invariant k <= nodes && Flushed(data, data', if c == SLOTS_PER_NODE then k + 1 else k)
    {
      if pos == BLOCK_WORDS {
        cur := cur + 1;
        pos := 0;
        k, c := k + 1, 0;
      }
      assert cur < first;
      if pos == 0 {
        tmp := SetWord(tmp, 0, if cur < first - 1 then cur + 1 else 0);
        StartNode(blocks, k, tmp);
        pos := pos + 1;
      }
      FillOne(blocks, k, tmp, c, i);
      tmp := SetWord(tmp, pos, i);
      pos := pos + 1;
      c := c + 1;
      if pos == BLOCK_WORDS {
        FlushOne(data, data', k, tmp);
        data' := data'[cur := tmp];
      }
      i := i + 1;
    }
    EndOfIndex(data, data', k, c);
    ok := cur == first - 1;
  }

  lemma NothingFlushed(data: seq<Block>)
    requires 3 <= |data| <= MAX_BLOCKS
    ensures Flushed(data, data, 0)
  {
  }

  lemma StartNode(blocks: nat, k: nat, tmp: Block)
    requires 3 <= blocks <= MAX_BLOCKS && k < NodeCount(FreeCount(blocks))
    requires tmp[0] == if Head(blocks) + k < FirstData(blocks) - 1 then Head(blocks) + k + 1 else 0
    ensures Filled(blocks, k, tmp, 1)
  {
  }

  lemma EndOfIndex(data: seq<Block>, data': seq<Block>, k: nat, c: nat)
    requires 3 <= |data| <= MAX_BLOCKS
    requires var f := FreeCount(|data|); f - NodeCount(f) == SLOTS_PER_NODE * k + c && k <= NodeCount(f)
    requires c <= SLOTS_PER_NODE && (c == 0 ==> k == 0) && (c > 0 ==> k < NodeCount(FreeCount(|data|)))
    requires Flushed(data, data', if c == SLOTS_PER_NODE then k + 1 else k)
    ensures Indexed(data, data')
    ensures k == NodeCount(FreeCount(|data|)) - 1 <==> GoodSize(FreeCount(|data|))
  {
    hide FullNode;
    var f := FreeCount(|data|);
    NodeArithmetic(f);
    assert f == 64 * (f / 64) + f % 64;
    assert (if c == SLOTS_PER_NODE then k + 1 else k) == f / 64;
  }

  /** format_fs. The unused block after the table stays as it was, and would read as inodes. */
  method FormatFs(data: seq<Block>, stale: Block) returns (r: Outcome)
    requires |data| <= MAX_BLOCKS
    ensures |data| < 3 ==> r == TooSmall
    ensures |data| >= 3 ==> (r.Formatted? <==> GoodSize(FreeCount(|data|))) && r != TooSmall
    ensures r.Formatted? ==> FormattedDisk(data, r.disk) && LaidOut(|data|, r.disk.super)
  {
    var blocks := |data|;
    if blocks < 3 {
      return TooSmall;
    }
    var tb := (blocks - 1) / 16;
    if tb == 0 {
      tb := 1;
    }
    var table := FormatTable(tb);
    var ok, data' := FormatIndex(data, stale);
    if !ok {
      return AssertFailed;
    }
    var super := Superblock(true, tb, tb * INODES_PER_BLOCK, blocks, 2 + tb, 2);
    return Formatted(Disk(super, table + [AsInodes(data[tb + 1])], data'));
  }

  ghost predicate FormattedDisk(data: seq<Block>, d: Disk)
    requires |data| <= MAX_BLOCKS
  {
    && |data| >= 3
    && d.super == Superblock(true, TableBlocks(|data|), INODES_PER_BLOCK * TableBlocks(|data|), |data|, Head(|data|), 2)
    && |d.table| == TableBlocks(|data|) + 1 && d.table[TableBlocks(|data|)] == AsInodes(data[TableBlocks(|data|) + 1])
    && FreshTable(d.table[..TableBlocks(|data|)])
    && Indexed(data, d.data)
  }

  /** The layout in numbers: a signed superblock, a sixteenth of the disk for inodes or one block, three inodes to a
      block, and both lists starting behind what they skip. */
  ghost predicate LaidOut(blocks: nat, super: Superblock) {
    && super.signed && super.blocks == blocks
    && (blocks >= 17 ==> 16 * super.tb <= blocks - 1 < 16 * (super.tb + 1))
    && (blocks < 17 ==> super.tb == 1)
    && super.inodes == 3 * super.tb
    && super.head == super.tb + 2 && super.ihead == 2
  }

  lemma FormattedLayout(data: seq<Block>, d: Disk)
    requires |data| <= MAX_BLOCKS && FormattedDisk(data, d)
    ensures LaidOut(|data|, d.super) && |d.table| == d.super.tb + 1 && |d.data| == |data|
  {
    hide FreshTable, FullNode;
  }

  /** Where inode n of a formatted disk is, and what it holds. */
  lemma FormattedInode(data: seq<Block>, d: Disk, n: nat)
    requires |data| <= MAX_BLOCKS && FormattedDisk(data, d) && 1 <= n <= d.super.inodes
    ensures (n - 1) / 3 < d.super.tb && d.table[(n - 1) / 3][(n - 1) % 3] ==
      if n == 1 then Inode(1, 1, 0, NO_PTRS) else Inode(n, 0, n + 1, NO_PTRS)
  {
    hide Indexed;
    var tb, b, j := d.super.tb, (n - 1) / 3, (n - 1) % 3;
    assert n == INODES_PER_BLOCK * b + j + 1 && b < tb;
    assert d.table[..tb][b] == d.table[b];
  }

  /** Word j of full index node k: the link to the next node, or one of the 63 blocks that come after those of the nodes
      before it, which begin after the last node. */
  lemma FormattedNode(data: seq<Block>, d: Disk, k: nat, j: nat)
    requires |data| <= MAX_BLOCKS && FormattedDisk(data, d)
    requires k < (|data| - d.super.head) / 64 && j < 64
    ensures var head, nodes := d.super.head, (|data| - d.super.head + 63) / 64;
      && head + k < |d.data|
      && d.data[head + k][j] ==
           if j > 0 then head + nodes + 63 * k + j - 1 else if k + 1 < nodes then head + k + 1 else 0
  {
    hide FreshTable, FullNode;
    NodeArithmetic(FreeCount(|data|));
    FullNodeWord(|data|, k, j);
    assert d.data[d.super.head + k] == FullNode(|data|, k);
  }

  lemma FullNodeWord(blocks: nat, k: nat, j: nat)
    requires 3 <= blocks <= MAX_BLOCKS && k < NodeCount(FreeCount(blocks)) && j < BLOCK_WORDS
    ensures FullNode(blocks, k)[j] ==
      if j > 0 then FirstData(blocks) + SLOTS_PER_NODE * k + j - 1
      else if k + 1 < NodeCount(FreeCount(blocks)) then Head(blocks) + k + 1 else 0
  {
    if j > 0 {
      assert FullNode(blocks, k)[j] == Counting(FirstData(blocks) + SLOTS_PER_NODE * k, SLOTS_PER_NODE)[j - 1];
    }
  }

  // ---------------------------------------------------------------- the new block list

  /** Inode numbers n, n + 1, ... up to the last of the table. */
  function InodesFrom(tb: nat, n: nat): seq<Word>
    requires tb < MAX_BLOCKS && n <= INODES_PER_BLOCK * tb + 1
  {
    Counting(n, INODES_PER_BLOCK * tb + 1 - n)
  }

  /** Number of index nodes that are written. */
  function FullCount(blocks: nat): nat
    requires blocks >= 3
  {
    FreeCount(blocks) / 64
  }

  /** The full nodes from k on. */
  function FullNodes(blocks: nat, k: nat): seq<Word>
    requires 3 <= blocks <= MAX_BLOCKS && k <= FullCount(blocks)
  {
    Counting(Head(blocks) + k, FullCount(blocks) - k)
  }

  /** The node that is linked after the full ones but never written; 0 if there is none. */
  function After(blocks: nat): Word
    requires 3 <= blocks <= MAX_BLOCKS
  {
    if FullCount(blocks) < NodeCount(FreeCount(blocks)) then Head(blocks) + FullCount(blocks) else 0
  }

  /** The node linked before node k: k itself while it is full, then the one after. */
  function NodeAt(blocks: nat, k: nat): Word
    requires 3 <= blocks <= MAX_BLOCKS && k <= FullCount(blocks)
  {
    if k < FullCount(blocks) then Head(blocks) + k else After(blocks)
  }

  /** Block x is a full node from k on, or in a slot of one. */
  predicate Indexes(blocks: nat, k: nat, x: int)
    requires blocks >= 3
  {
    || Head(blocks) + k <= x < Head(blocks) + FullCount(blocks)
    || FirstData(blocks) + SLOTS_PER_NODE * k <= x < FirstData(blocks) + SLOTS_PER_NODE * FullCount(blocks)
  }

  /** What formatting leaves of the list: read from the node it never writes, as the disk was before, the list must be
      well formed, in range, and apart from the nodes that are written and from their slots. */
  ghost predicate TailOk(data: seq<Block>)
    requires 3 <= |data| <= MAX_BLOCKS
  {
    var tail := ListOf(data, After(|data|));
    && Linked(data, After(|data|), tail) && Separate(data, tail)
    && (forall x :: x in FreeOf(data, tail) ==> Head(|data|) <= x < |data| && !Indexes(|data|, 0, x))
  }

  lemma FullNodeSlots(blocks: nat, k: nat)
    requires 3 <= blocks <= MAX_BLOCKS && k < NodeCount(FreeCount(blocks))
    ensures SlotsDistinct(FullNode(blocks, k))
    ensures forall x: Word :: x in Slots(FullNode(blocks, k)) <==>
      FirstData(blocks) + SLOTS_PER_NODE * k <= x < FirstData(blocks) + SLOTS_PER_NODE * (k + 1)
  {
    var node := FullNode(blocks, k);
    var base := FirstData(blocks) + SLOTS_PER_NODE * k;
    forall j | 1 <= j < BLOCK_WORDS ensures node[j] == base + j - 1 {
      assert node[1..] == Counting(base, SLOTS_PER_NODE);
      assert node[1..][j - 1] == node[j];
    }
    forall x: Word | base <= x < base + SLOTS_PER_NODE ensures x in Slots(node) {
      assert node[x - base + 1] == x;
    }
  }

  /** One node in front of the rest of the list. */
  lemma ListCons(data: seq<Block>, head: Word, rest: seq<Word>, next: Word)
    requires 0 < head < |data| && data[head][0] == next && SlotsDistinct(data[head]) && head !in Slots(data[head])
    requires Linked(data, next, rest) && Separate(data, rest)
    requires ({head} + Slots(data[head])) !! FreeOf(data, rest)
    ensures Linked(data, head, [head] + rest) && Separate(data, [head] + rest)
    ensures FreeOf(data, [head] + rest) == {head} + Slots(data[head]) + FreeOf(data, rest)
  {
    assert ([head] + rest)[1..] == rest;
  }

  lemma FullNodeStep(blocks: nat, k: nat)
    requires 3 <= blocks <= MAX_BLOCKS && k < FullCount(blocks)
    ensures k < NodeCount(FreeCount(blocks)) && Head(blocks) + k < FirstData(blocks) <= blocks
    ensures FullNode(blocks, k)[0] == NodeAt(blocks, k + 1)
    ensures FullNodes(blocks, k) == [Head(blocks) + k] + FullNodes(blocks, k + 1)
    ensures forall x: Word :: Indexes(blocks, k, x) <==>
      Indexes(blocks, k + 1, x) || x == Head(blocks) + k || x in Slots(FullNode(blocks, k))
    ensures SlotsDistinct(FullNode(blocks, k)) && Head(blocks) + k !in Slots(FullNode(blocks, k))
    ensures forall x: Word :: Indexes(blocks, k + 1, x) ==> x != Head(blocks) + k && x !in Slots(FullNode(blocks, k))
  {
    NodeArithmetic(FreeCount(blocks));
    FullNodeSlots(blocks, k);
    hide FullNode;
    var f := FreeCount(blocks);
    assert f == 64 * (f / 64) + f % 64;
  }

  /** Full nodes from k on in front of a list that is apart from them. */
  lemma {:induction false} FullThenTail(data: seq<Block>, data': seq<Block>, k: nat, tail: seq<Word>)
    requires 3 <= |data| <= MAX_BLOCKS && Indexed(data, data') && k <= FullCount(|data|)
    requires Linked(data', After(|data|), tail) && Separate(data', tail)
    requires forall x: Word :: x in FreeOf(data', tail) ==> !Indexes(|data|, k, x)
    ensures var chain := FullNodes(|data|, k) + tail;
      && Linked(data', NodeAt(|data|, k), chain) && Separate(data', chain)
      && (forall x: Word :: x in FreeOf(data', chain) <==> x in FreeOf(data', tail) || Indexes(|data|, k, x))
    decreases FullCount(|data|) - k
  {
    hide FullNode, Linked, Separate, FreeOf, SlotsDistinct, Slots, Indexes, FullNodes, After;
    var blocks := |data|;
    if k < FullCount(blocks) {
      FullNodeStep(blocks, k);
      FullThenTail(data, data', k + 1, tail);
      var head, rest := Head(blocks) + k, FullNodes(blocks, k + 1) + tail;
      assert data'[head] == FullNode(blocks, k);
      ListCons(data', head, rest, NodeAt(blocks, k + 1));
      assert FullNodes(blocks, k) + tail == [head] + rest;
    } else {
      NoFullNodes(blocks);
      assert FullNodes(blocks, k) + tail == tail;
    }
  }

  lemma NoFullNodes(blocks: nat)
    requires 3 <= blocks <= MAX_BLOCKS
    ensures FullNodes(blocks, FullCount(blocks)) == [] && forall x: Word :: !Indexes(blocks, FullCount(blocks), x)
  {
  }

  /** Conversely, a list from full node k on has such a tail. */
  lemma {:induction false} TailOfFull(data: seq<Block>, data': seq<Block>, k: nat,
      chain: seq<Word>) returns (tail: seq<Word>)
    requires 3 <= |data| <= MAX_BLOCKS && Indexed(data, data') && k <= FullCount(|data|)
    requires Linked(data', NodeAt(|data|, k), chain) && Separate(data', chain)
    ensures Linked(data', After(|data|), tail) && Separate(data', tail) && FreeOf(data', tail) <= FreeOf(data', chain)
    ensures forall x: Word :: x in FreeOf(data', tail) ==> !Indexes(|data|, k, x)
    decreases FullCount(|data|) - k
  {
    hide FullNode, Linked, Separate, FreeOf, SlotsDistinct, Slots, Indexes, After;
    var blocks := |data|;
    if k < FullCount(blocks) {
      FullNodeStep(blocks, k);
      var head := Head(blocks) + k;
      assert data'[head] == FullNode(blocks, k);
      ListUncons(data', head, chain);
      tail := TailOfFull(data, data', k + 1, chain[1..]);
    } else {
      NoFullNodes(blocks);
      tail := chain;
    }
  }

  lemma ListUncons(data: seq<Block>, head: Word, chain: seq<Word>)
    requires head != 0 && Linked(data, head, chain) && Separate(data, chain)
    ensures chain != [] && head < |data| && Linked(data, data[head][0], chain[1..]) && Separate(data, chain[1..])
    ensures FreeOf(data, chain[1..]) <= FreeOf(data, chain)
    ensures ({head} + Slots(data[head])) !! FreeOf(data, chain[1..])
  {
  }

  /** A list apart from the full nodes is the same before and after formatting. */
  lemma TailFrame(data: seq<Block>, data': seq<Block>, tail: seq<Word>)
    requires 3 <= |data| <= MAX_BLOCKS && Indexed(data, data')
    requires (forall x :: x in FreeOf(data, tail) ==> !Indexes(|data|, 0, x))
      || (forall x :: x in FreeOf(data', tail) ==> !Indexes(|data|, 0, x))
    ensures FreeOf(data, tail) == FreeOf(data', tail) && Separate(data, tail) == Separate(data', tail)
    ensures Linked(data, After(|data|), tail) == Linked(data', After(|data|), tail)
  {
    hide FullNode, Linked, Separate, FreeOf, After, Indexes;
    assert forall x: nat :: !Indexes(|data|, 0, x) ==> Get(data, x) == Get(data', x) by { SameOutside(data, data'); }
    if forall x :: x in FreeOf(data, tail) ==> !Indexes(|data|, 0, x) {
      NodesAreFree(data, tail);
    } else {
      NodesAreFree(data', tail);
    }
    ListFrame(data, data', After(|data|), tail);
  }

  lemma SameOutside(data: seq<Block>, data': seq<Block>)
    requires 3 <= |data| <= MAX_BLOCKS && Indexed(data, data')
    ensures |data'| == |data| && forall x: nat :: !Indexes(|data|, 0, x) ==> Get(data, x) == Get(data', x)
  {
    hide FullNode;
  }

  /** The list on a formatted disk is well formed if and only if what follows the full nodes was well formed on the disk
      before, whatever the disk was. */
  lemma FormattedListIff(data: seq<Block>, d: Disk)
    requires |data| <= MAX_BLOCKS && FormattedDisk(data, d) && GoodSize(FreeCount(|data|))
    ensures (exists chain :: StoreOk(Store(d.super.head, chain, d.data), Head(|data|))) <==> TailOk(data)
  {
    hide FullNode, Linked, Separate, FreeOf, Indexed, FreshTable, Indexes;
    HeadIsNode(|data|);
    if TailOk(data) {
      FormattedFree(data, d);
    } else if chain :| StoreOk(Store(d.super.head, chain, d.data), Head(|data|)) {
      var tail := TailOfFull(data, d.data, 0, chain);
      TailFrame(data, d.data, tail);
      ListOfIs(data, After(|data|), tail);
      IndexedInRange(data, d.data);
    }
  }

  lemma HeadIsNode(blocks: nat)
    requires 3 <= blocks <= MAX_BLOCKS && GoodSize(FreeCount(blocks))
    ensures NodeAt(blocks, 0) == Head(blocks) && FirstData(blocks) + SLOTS_PER_NODE * FullCount(blocks) <= blocks
    ensures NodeCount(FreeCount(blocks)) <= FullCount(blocks) + 1
  {
    NodeArithmetic(FreeCount(blocks));
    var f := FreeCount(blocks);
    assert f == 64 * (f / 64) + f % 64;
  }

  /** The free blocks of a formatted disk: the nodes written, what is in their slots, and what the rest of the list was
      already holding. */
  lemma FormattedFree(data: seq<Block>, d: Disk)
    requires |data| <= MAX_BLOCKS && FormattedDisk(data, d) && GoodSize(FreeCount(|data|)) && TailOk(data)
    ensures var chain := ListOf(d.data, d.super.head); var st := Store(d.super.head, chain, d.data);
      && StoreOk(st, Head(|data|))
      && (forall x: Word :: x in Free(st) <==>
            Indexes(|data|, 0, x) || x in FreeOf(data, ListOf(data, After(|data|))))
  {
    hide FullNode, Linked, Separate, FreeOf, Indexed, FreshTable, Indexes;
    HeadIsNode(|data|);
    var tail := ListOf(data, After(|data|));
    TailFrame(data, d.data, tail);
    FullThenTail(data, d.data, 0, tail);
    var chain := FullNodes(|data|, 0) + tail;
    ListOfIs(d.data, d.super.head, chain);
    IndexedInRange(data, d.data);
  }

  lemma IndexedInRange(data: seq<Block>, data': seq<Block>)
    requires 3 <= |data| <= MAX_BLOCKS && GoodSize(FreeCount(|data|)) && Indexed(data, data')
    ensures |data'| == |data| && forall x :: Indexes(|data|, 0, x) ==> Head(|data|) <= x < |data|
  {
    HeadIsNode(|data|);
    NodeArithmetic(FreeCount(|data|));
  }

  /** The one node that is linked but not written reads as zeros. */
  predicate ZeroTail(data: seq<Block>)
    requires 3 <= |data| <= MAX_BLOCKS
  {
    After(|data|) != 0 ==> Get(data, After(|data|)) == ZERO_BLOCK
  }

  lemma ZeroTailOk(data: seq<Block>)
    requires 3 <= |data| <= MAX_BLOCKS && GoodSize(FreeCount(|data|)) && ZeroTail(data)
    ensures TailOk(data)
    ensures FreeOf(data, ListOf(data, After(|data|))) == if After(|data|) == 0 then {} else {After(|data|)}
  {
    var after := After(|data|);
    NodeArithmetic(FreeCount(|data|));
    if after == 0 {
      ListOfIs(data, 0, []);
    } else {
      assert Slots(ZERO_BLOCK) == {} && [after][1..] == [];
      ListOfIs(data, after, [after]);
      assert FreeOf(data, [after]) == {after};
    }
  }

  /** If that node reads as zeros, the free blocks are the index nodes and the data blocks of the full nodes. They are
      all blocks from the head on exactly when the number of those blocks is 1 or a multiple of 64; otherwise the rest
      is lost. */
  lemma FormattedFreeBlocks(data: seq<Block>, d: Disk)
    requires |data| <= MAX_BLOCKS && FormattedDisk(data, d) && ZeroTail(data) && GoodSize(FreeCount(|data|))
    ensures var f, free := FreeCount(|data|), Free(Store(d.super.head, ListOf(d.data, d.super.head), d.data));
      && (forall x: Word :: x in free <==> Head(|data|) <= x < FirstData(|data|) + SLOTS_PER_NODE * (f / 64))
      && ((forall x: Word :: Head(|data|) <= x < |data| ==> x in free) <==> f == 1 || f % 64 == 0)
  {
    hide FullNode, Linked, Separate, Free, Indexed, FreshTable, TailOk, ZeroTail;
    ZeroTailOk(data);
    FormattedFree(data, d);
    var f, free := FreeCount(|data|), Free(Store(d.super.head, ListOf(d.data, d.super.head), d.data));
    AllInList(f);
    var bound := FirstData(|data|) + SLOTS_PER_NODE * (f / 64);
    assert bound == |data| <==> f == 1 || f % 64 == 0;
    WholeRange(free, Head(|data|), bound, |data|);
  }

  lemma WholeRange(s: set<Word>, lo: nat, bound: nat, hi: nat)
    requires (forall x: Word :: x in s <==> lo <= x < bound) && bound <= hi && lo < hi < 0x1_0000_0000_0000_0000
    ensures (forall x: Word :: lo <= x < hi ==> x in s) <==> bound == hi
  {
    var last: Word := hi - 1;
    assert last in s <==> bound == hi;
  }

  lemma AllInList(f: nat)
    requires GoodSize(f)
    ensures NodeCount(f) == f / 64 + (if f % 64 == 0 then 0 else 1)
    ensures NodeCount(f) + SLOTS_PER_NODE * (f / 64) <= f
    ensures NodeCount(f) + SLOTS_PER_NODE * (f / 64) == f <==> f == 1 || f % 64 == 0
  {
    assert f == 64 * (f / 64) + f % 64;
  }

  /** A failing input: a disk of 4 blocks whose block 3, the node never written, names itself. Formatting reports
      success, and no list on the disk is well formed. */
  lemma NodeNamesItself(data: seq<Block>, d: Disk)
    requires |data| == 4 && data[3][1] == 3 && FormattedDisk(data, d)
    ensures GoodSize(FreeCount(|data|)) && !TailOk(data)
    ensures !exists chain :: StoreOk(Store(d.super.head, chain, d.data), Head(|data|))
  {
    assert After(4) == 3;
    var tail := ListOf(data, 3);
    if Linked(data, 3, tail) {
      assert 3 in Slots(Get(data, tail[0]));
    }
    FormattedListIff(data, d);
  }

  lemma {:induction false} InodeList(inodes: seq<Inode>, tb: nat, n: nat)
    requires tb < MAX_BLOCKS / 8 && 2 <= n <= INODES_PER_BLOCK * tb + 1 && INODES_PER_BLOCK * tb <= |inodes|
    requires forall k :: 0 <= k < INODES_PER_BLOCK * tb ==> inodes[k] == NewInodeAt(k + 1)
    ensures InodesLinked(inodes, INODES_PER_BLOCK * tb, n, InodesFrom(tb, n))
    decreases INODES_PER_BLOCK * tb - n
  {
    if n <= INODES_PER_BLOCK * tb {
      InodeList(inodes, tb, n + 1);
      assert InodesFrom(tb, n)[1..] == InodesFrom(tb, n + 1);
    }
  }

  // ---------------------------------------------------------------- the new file system is sound

  /** The file system on a freshly formatted disk. */
  ghost function NewFs(d: Disk): Fs
    requires 3 <= d.super.blocks <= MAX_BLOCKS && d.super.tb < MAX_BLOCKS
  {
    OnDisk(d, ListOf(d.data, d.super.head), InodesFrom(d.super.tb, if d.super.tb > 0 then 2 else 0))
  }

  /** Every block of the inode table has an int number. */
  predicate CacheFits(blocks: nat)
    requires blocks > 0
  {
    TableBlocks(blocks) + 1 < INT_LIMIT
  }

  /** d was just formatted, and is of a size for which formatting and the inode cache are right. */
  ghost predicate NewDisk(data: seq<Block>, d: Disk) {
    |data| <= MAX_BLOCKS && FormattedDisk(data, d) && GoodSize(FreeCount(|data|)) && CacheFits(|data|)
  }

  /** The file system every run starts from. */
  ghost function Start(data: seq<Block>, d: Disk): Sys
    requires NewDisk(data, d)
  {
    Sys(NewFs(d), Fd.NewPool(), {})
  }

  lemma FormattedInodes(data: seq<Block>, d: Disk)
    requires |data| <= MAX_BLOCKS && FormattedDisk(data, d)
    ensures var fs := NewFs(d);
      && |fs.inodes| == INODES_PER_BLOCK * d.super.tb + INODES_PER_BLOCK
      && (forall k :: 0 <= k < INODES_PER_BLOCK * d.super.tb ==> fs.inodes[k] == NewInodeAt(k + 1))
      && PastEnd(fs) == AsInode(data[d.super.tb + 1], 0)
  {
    hide Indexed, FreshTable, InodesFrom, AsInode;
    forall k | 0 <= k < INODES_PER_BLOCK * d.super.tb ensures NewFs(d).inodes[k] == NewInodeAt(k + 1) {
      FormattedInode(data, d, k + 1);
    }
  }

  lemma FormattedTable(data: seq<Block>, d: Disk)
    requires |data| <= MAX_BLOCKS && FormattedDisk(data, d) && CacheFits(|data|)
    ensures TableOk(NewFs(d))
    ensures Ino(NewFs(d), Dir.ROOT) == Inode(Dir.ROOT, 1, 0, NO_PTRS)
    ensures forall n: Word :: 2 <= n ==> !Live(NewFs(d), n)
  {
    hide Indexed, FreshTable, Flatten;
    var fs := NewFs(d);
    FormattedInodes(data, d);
    InodeList(fs.inodes, d.super.tb, 2);
    forall n: Word | 2 <= n ensures !Live(fs, n) {
      if n <= INODES_PER_BLOCK * d.super.tb {
        assert fs.ilist[n - 2] == n;
      }
    }
  }

  lemma NothingOpen(n: Word)
    requires n != 0
    ensures multiset(Fd.Opens(Fd.NewPool()))[n] == 0
  {
    var none := Fd.Pool([], Fd.Null, []);
    assert Fd.NewPool() == Fd.Grow(none);
    var opens: seq<Word> := Fd.Opens(Fd.NewPool());
    forall fd | 0 <= fd < |opens| ensures opens[fd] == 0 {
      assert Fd.Grow(none).slabs[fd / Fd.SLOTS][fd % Fd.SLOTS] == Fd.NewSlot(0, fd % Fd.SLOTS);
    }
    assert n !in opens;
  }

  /** Nothing is open, named or mapped yet. */
  lemma NothingReferred(data: seq<Block>, d: Disk)
    requires NewDisk(data, d)
    ensures var s := Start(data, d);
      && Owned(s.fs) && Dir.DirOk(SFS_DIR, s.fs) && LinksOk(s.fs, Refs(s)) && (forall r :: Target(s.fs, r) == 0)
  {
    hide Indexed, FreshTable, Fd.NewPool, StoreOk, TableOk, Fd.Opens, InodesFrom, Flatten, GoodSize;
    var s := Start(data, d);
    FormattedTable(data, d);
    assert forall r :: Target(s.fs, r) == 0;
    assert Dir.Inos(SFS_DIR, s.fs) == [];
    forall n: Word | n != 0 ensures Refs(s)[n] == 0 {
      NothingOpen(n);
    }
  }

  lemma FormattedStoreIff(data: seq<Block>, d: Disk)
    requires NewDisk(data, d)
    ensures StoreOk(NewFs(d).store, Lo(NewFs(d))) <==> TailOk(data)
  {
    hide Indexed, FreshTable, StoreOk, InodesFrom, Flatten, GoodSize, TailOk;
    FormattedListIff(data, d);
    if TailOk(data) {
      FormattedFree(data, d);
    }
  }

  /** The state every run starts from satisfies the invariant if and only if the list does. */
  lemma FormattedIsSoundIff(data: seq<Block>, d: Disk)
    requires NewDisk(data, d)
    ensures SysInv(Start(data, d)) <==> TailOk(data)
  {
    hide Indexed, FreshTable, Fd.NewPool, StoreOk, TableOk, Owned, Fd.Opens, InodesFrom, Flatten, GoodSize, TailOk,
         LinksOk, Refs, Dir.DirOk;
    NothingReferred(data, d);
    FormattedTable(data, d);
    FormattedStoreIff(data, d);
    Fd.NewPoolOk();
    OneSlab();
  }

  lemma OneSlab()
    ensures |Fd.NewPool().slabs| == 1
  {
  }

  /** From formatting on: every permitted run from a fresh file system keeps every invariant. */
  lemma EveryRunIsSound(data: seq<Block>, d: Disk, ops: seq<Op>)
    requires NewDisk(data, d) && TailOk(data)
    requires Permitted(Start(data, d), ops)
    ensures SysInv(Run(Start(data, d), ops))
  {
    hide Permitted, Run, SysInv, NewDisk, TailOk, Start;
    FormattedIsSoundIff(data, d);
    RunKeepsInv(Start(data, d), ops);
  }

  /** If the unused block after the table holds a harmless inode, what creates find past the table needs no
      hypothesis. */
  lemma EveryAllowedRunIsSound(data: seq<Block>, d: Disk, ops: seq<Op>)
    requires NewDisk(data, d) && TailOk(data) && Allowed(Start(data, d), ops)
    requires var e := AsInode(data[TableBlocks(|data|) + 1], 0);
      e.inumber == 0 && (e.size == 0 || e.size == INODES_PER_BLOCK * TableBlocks(|data|) + 1)
    ensures SysInv(Run(Start(data, d), ops))
  {
    hide Permitted, Allowed, Run, SysInv, TailOk, AsInode, Indexed, FreshTable, PastEnd, InodesFrom, GoodSize;
    FormattedIsSoundIff(data, d);
    FormattedInodes(data, d);
    AllowedIsPermitted(Start(data, d), ops);
    EveryRunIsSound(data, d, ops);
  }
}
