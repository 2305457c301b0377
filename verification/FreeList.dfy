/** The free-block index list as a value: what allocating and freeing a block do to the disk,
    and the set of free blocks the list stands for (src/fs.c:581-693). */
module FreeList {
  import opened Words

  /** The superblock's list head, the nodes reached from it in order, and the blocks of the disk. */
  datatype Store = Store(head: Word, chain: seq<Word>, blocks: seq<Block>)

  /** Word 0 of a node is the next node; 0 ends the list. */
  predicate Linked(blocks: seq<Block>, head: Word, chain: seq<Word>)
    decreases chain
  {
    if chain == [] then head == 0
    else
      && head == chain[0]
      && 0 < head < |blocks|
      && Linked(blocks, blocks[head][0], chain[1..])
  }

  /** The free block numbers a node holds in words 1..63. */
  function Slots(node: Block): set<Word> {
    set j | 1 <= j < BLOCK_WORDS && node[j] != 0 :: node[j]
  }

  predicate SlotsDistinct(node: Block) {
    forall i, j :: 1 <= i < j < BLOCK_WORDS && node[i] != 0 ==> node[i] != node[j]
  }

  /** All free blocks: the nodes themselves and the block numbers they hold. */
  function FreeOf(blocks: seq<Block>, chain: seq<Word>): set<Word> {
    if chain == [] then {}
    else {chain[0]} + Slots(Get(blocks, chain[0])) + FreeOf(blocks, chain[1..])
  }

  /** No block number occurs twice anywhere in the list. */
  predicate Separate(blocks: seq<Block>, chain: seq<Word>) {
    chain != [] ==>
      && SlotsDistinct(Get(blocks, chain[0]))
      && chain[0] !in Slots(Get(blocks, chain[0]))
      && ({chain[0]} + Slots(Get(blocks, chain[0]))) !! FreeOf(blocks, chain[1..])
      && Separate(blocks, chain[1..])
  }

  predicate InRange(s: set<Word>, lo: nat, hi: nat) {
    forall x :: x in s ==> lo <= x < hi
  }

  function Free(st: Store): set<Word> {
    FreeOf(st.blocks, st.chain)
  }

  /** The list is acyclic, mentions no block twice, and stays inside [lo, |blocks|). */
  predicate StoreOk(st: Store, lo: nat) {
    && 0 < lo <= |st.blocks|
    && Linked(st.blocks, st.head, st.chain)
    && Separate(st.blocks, st.chain)
    && InRange(Free(st), lo, |st.blocks|)
  }

  /** Index of the first used slot from i on, or 64. */
  function FirstUsed(node: Block, i: nat): (k: nat)
    requires i <= BLOCK_WORDS
    ensures i <= k <= BLOCK_WORDS
    ensures forall j :: i <= j < k ==> node[j] == 0
    ensures k < BLOCK_WORDS ==> node[k] != 0
    decreases BLOCK_WORDS - i
  {
    if i == BLOCK_WORDS || node[i] != 0 then i else FirstUsed(node, i + 1)
  }

  /** Index of the first empty slot from i on, or 64. */
  function FirstHole(node: Block, i: nat): (k: nat)
    requires i <= BLOCK_WORDS
    ensures i <= k <= BLOCK_WORDS
    ensures forall j :: i <= j < k ==> node[j] != 0
    ensures k < BLOCK_WORDS ==> node[k] == 0
    decreases BLOCK_WORDS - i
  {
    if i == BLOCK_WORDS || node[i] == 0 then i else FirstHole(node, i + 1)
  }

  /** The block the next allocation hands out; 0 when there is none. */
  function Next(st: Store): Word {
    if st.head == 0 then 0
    else
      var node := Get(st.blocks, st.head);
      var i := FirstUsed(node, 1);
      if i < BLOCK_WORDS then node[i] else st.head
  }

  /** sfs_fs_allocate_block: take the head node's first used slot, else the head node itself. */
  function Alloc(st: Store): Store {
    if st.head == 0 then st
    else
      var node := Get(st.blocks, st.head);
      var i := FirstUsed(node, 1);
      if i < BLOCK_WORDS then Store(st.head, st.chain, Put(st.blocks, st.head, SetWord(node, i, 0)))
      else Store(node[0], if st.chain == [] then [] else st.chain[1..], st.blocks)
  }

  /** The blocks after the chain walk of sfs_fs_free_block: the first node with a hole takes the block;
      if every node is full the block becomes the new, empty last node. */
  function FilledBlocks(blocks: seq<Block>, chain: seq<Word>, b: Word): seq<Block>
    requires chain != []
  {
    var node := Get(blocks, chain[0]);
    var i := FirstHole(node, 1);
    if i < BLOCK_WORDS then Put(blocks, chain[0], SetWord(node, i, b))
    else if |chain| == 1 then Put(Put(blocks, chain[0], SetWord(node, 0, b)), b, ZERO_BLOCK)
    else FilledBlocks(blocks, chain[1..], b)
  }

  predicate AllFull(blocks: seq<Block>, chain: seq<Word>) {
    forall x :: x in chain ==> FirstHole(Get(blocks, x), 1) == BLOCK_WORDS
  }

  /** sfs_fs_free_block. */
  function Release(st: Store, b: Word): Store {
    if st.chain == [] then Store(b, [b], Put(st.blocks, b, ZERO_BLOCK))
    else Store(st.head,
               if AllFull(st.blocks, st.chain) then st.chain + [b] else st.chain,
               FilledBlocks(st.blocks, st.chain, b))
  }

  // ---------------------------------------------------------------- framing

  /** The list only depends on the content of its nodes. */
  lemma {:induction false} ListFrame(blocks: seq<Block>, blocks': seq<Block>, head: Word, chain: seq<Word>)
    requires |blocks| == |blocks'|
    requires forall x :: x in chain ==> Get(blocks, x) == Get(blocks', x)
    ensures FreeOf(blocks, chain) == FreeOf(blocks', chain)
    ensures Separate(blocks, chain) == Separate(blocks', chain)
    ensures Linked(blocks, head, chain) == Linked(blocks', head, chain)
    decreases chain
  {
    if chain == [] {
    } else {
      assert chain[0] in chain;
      assert forall x :: x in chain[1..] ==> x in chain;
      var next := Get(blocks, chain[0])[0];
      ListFrame(blocks, blocks', next, chain[1..]);
    }
  }

  lemma {:induction false} NodesAreFree(blocks: seq<Block>, chain: seq<Word>)
    ensures forall x :: x in chain ==> x in FreeOf(blocks, chain)
  {
    if chain != [] {
      NodesAreFree(blocks, chain[1..]);
      assert chain == [chain[0]] + chain[1..];
    }
  }

  /** The nodes of the list are determined by the disk: the chain is not a free choice of the model. */
  lemma {:induction false} ChainIsDetermined(blocks: seq<Block>, head: Word, c: seq<Word>, d: seq<Word>)
    requires Linked(blocks, head, c) && Linked(blocks, head, d)
    ensures c == d
    decreases c
  {
    if c != [] && d != [] {
      ChainIsDetermined(blocks, blocks[head][0], c[1..], d[1..]);
      assert c == [c[0]] + c[1..] && d == [d[0]] + d[1..];
    }
  }

  /** The list that the disk holds from head on; [] if the links from there never end. */
  ghost function ListOf(blocks: seq<Block>, head: Word): (chain: seq<Word>)
    ensures (exists c :: Linked(blocks, head, c)) ==> Linked(blocks, head, chain)
  {
    if exists c :: Linked(blocks, head, c) then var c :| Linked(blocks, head, c); c else []
  }

  lemma ListOfIs(blocks: seq<Block>, head: Word, c: seq<Word>)
    requires Linked(blocks, head, c)
    ensures ListOf(blocks, head) == c
  {
    ChainIsDetermined(blocks, head, ListOf(blocks, head), c);
  }

  // ---------------------------------------------------------------- allocation

  lemma ClearSlot(node: Block, i: nat)
    requires 1 <= i < BLOCK_WORDS && node[i] != 0 && SlotsDistinct(node)
    ensures SlotsDistinct(SetWord(node, i, 0))
    ensures Slots(SetWord(node, i, 0)) == Slots(node) - {node[i]}
  {
    var node' := SetWord(node, i, 0);
    forall x | x in Slots(node) - {node[i]} ensures x in Slots(node') {
      var j :| 1 <= j < BLOCK_WORDS && node[j] != 0 && node[j] == x;
      assert node'[j] == x;
    }
    forall x | x in Slots(node') ensures x in Slots(node) - {node[i]} {
      var j :| 1 <= j < BLOCK_WORDS && node'[j] != 0 && node'[j] == x;
      assert node[j] == x && j != i;
    }
  }

  /** Which block an allocation takes: the first number in words 1 to 63 of the head node, or, if they are all 0, the
      head node itself, whose word 0 is the next head. */
  lemma AllocTakesFirst(st: Store, j: nat)
    requires 0 < st.head < |st.blocks| && 1 <= j <= 64
    requires forall l :: 1 <= l < j ==> st.blocks[st.head][l] == 0
    requires j < 64 ==> st.blocks[st.head][j] != 0
    ensures var node, st' := st.blocks[st.head], Alloc(st);
      if j < 64
      then Next(st) == node[j] && st'.head == st.head && st'.blocks == st.blocks[st.head := node[j := 0]]
      else Next(st) == st.head && st'.head == node[0] && st'.blocks == st.blocks
  {
  }

  /** Where a freed block goes: into the first empty word of the first node that has one. */
  lemma {:induction false} ReleaseFillsFirst(blocks: seq<Block>, chain: seq<Word>, c: nat, j: nat, b: Word)
    requires c < |chain| && chain[c] < |blocks| && 1 <= j < 64 && blocks[chain[c]][j] == 0
    requires forall l :: 1 <= l < j ==> blocks[chain[c]][l] != 0
    requires forall d, l :: 0 <= d < c && 1 <= l < 64 ==> Get(blocks, chain[d])[l] != 0
    ensures FilledBlocks(blocks, chain, b) == blocks[chain[c] := blocks[chain[c]][j := b]]
    decreases chain
  {
    if c > 0 {
      ReleaseFillsFirst(blocks, chain[1..], c - 1, j, b);
    }
  }

  /** What sfs_fs_allocate_block promises: it fails exactly when nothing is free; otherwise the block it
      returns leaves the free set, nothing else does, and no block outside the new free set changes. */
  lemma AllocTakesOne(st: Store, lo: nat)
    requires StoreOk(st, lo)
    ensures Next(st) == 0 <==> Free(st) == {}
    ensures Next(st) == 0 ==> Alloc(st) == st
    ensures |Alloc(st).blocks| == |st.blocks|
    ensures StoreOk(Alloc(st), lo)
    ensures Next(st) != 0 ==> Next(st) in Free(st) && lo <= Next(st) < |st.blocks|
    ensures Free(Alloc(st)) == Free(st) - {Next(st)}
    ensures forall x :: 0 <= x < |st.blocks| && x !in Free(Alloc(st)) ==> Alloc(st).blocks[x] == st.blocks[x]
  {
    if st.head != 0 {
      var node := Get(st.blocks, st.head);
      var rest := st.chain[1..];
      var i := FirstUsed(node, 1);
      var st' := Alloc(st);
      NodesAreFree(st.blocks, rest);
      assert st.head !in rest;
      if i < BLOCK_WORDS {
        assert node[i] in Slots(node);
        ClearSlot(node, i);
        ListFrame(st.blocks, st'.blocks, node[0], rest);
        assert Free(st') == {st.head} + Slots(SetWord(node, i, 0)) + FreeOf(st.blocks, rest);
        assert st.head in Free(st');
      } else {
        assert Slots(node) == {};
        assert Free(st) == {st.head} + FreeOf(st.blocks, rest);
      }
    }
  }

  // ---------------------------------------------------------------- freeing

  lemma FillSlot(node: Block, i: nat, b: Word)
    requires 1 <= i < BLOCK_WORDS && node[i] == 0 && b != 0 && SlotsDistinct(node) && b !in Slots(node)
    ensures SlotsDistinct(SetWord(node, i, b))
    ensures Slots(SetWord(node, i, b)) == Slots(node) + {b}
  {
    var node' := SetWord(node, i, b);
    forall x | x in Slots(node) + {b} ensures x in Slots(node') {
      if x == b {
        assert node'[i] == x;
      } else {
        var j :| 1 <= j < BLOCK_WORDS && node[j] != 0 && node[j] == x;
        assert node'[j] == x;
      }
    }
    forall x | x in Slots(node') ensures x in Slots(node) + {b} {
      var j :| 1 <= j < BLOCK_WORDS && node'[j] != 0 && node'[j] == x;
      assert j == i || node[j] == x;
    }
    forall p, q | 1 <= p < q < BLOCK_WORDS && node'[p] != 0 ensures node'[p] != node'[q] {
      assert p != i ==> node[p] in Slots(node);
      assert q != i && node[q] != 0 ==> node[q] in Slots(node);
    }
  }

  /** What the walk makes of a list: same blocks elsewhere, one more free block, still well formed. */
  ghost predicate Gains(blocks: seq<Block>, blocks': seq<Block>, head: Word, chain: seq<Word>, chain': seq<Word>,
    b: Word) {
    && |blocks'| == |blocks|
    && Linked(blocks', head, chain') && Separate(blocks', chain')
    && FreeOf(blocks', chain') == FreeOf(blocks, chain) + {b}
    && (forall x :: 0 <= x < |blocks| && x !in chain && x != b ==> blocks'[x] == blocks[x])
  }

  lemma FillHeadNode(blocks: seq<Block>, chain: seq<Word>, i: nat, b: Word)
    requires chain != [] && Linked(blocks, chain[0], chain) && Separate(blocks, chain)
    requires 0 < b < |blocks| && b !in FreeOf(blocks, chain)
    requires 1 <= i < BLOCK_WORDS && blocks[chain[0]][i] == 0
    ensures Gains(blocks, Put(blocks, chain[0], SetWord(blocks[chain[0]], i, b)), chain[0], chain, chain, b)
  {
    var head, rest := chain[0], chain[1..];
    var node := blocks[head];
    var blocks' := Put(blocks, head, SetWord(node, i, b));
    NodesAreFree(blocks, rest);
    FillSlot(node, i, b);
    ListFrame(blocks, blocks', node[0], rest);
    assert chain == [head] + rest;
  }

  lemma FillLaterNode(blocks: seq<Block>, blocks': seq<Block>, chain: seq<Word>, rest': seq<Word>, b: Word)
    requires chain != [] && Linked(blocks, chain[0], chain) && Separate(blocks, chain)
    requires 0 < b < |blocks| && b !in FreeOf(blocks, chain)
    requires Gains(blocks, blocks', blocks[chain[0]][0], chain[1..], rest', b)
    ensures Gains(blocks, blocks', chain[0], chain, [chain[0]] + rest', b)
  {
    var head, rest := chain[0], chain[1..];
    NodesAreFree(blocks, rest);
    assert chain == [head] + rest;
    assert ([head] + rest')[1..] == rest';
    assert blocks'[head] == blocks[head];
  }

  lemma Tail(blocks: seq<Block>, head: Word, chain: seq<Word>)
    requires chain != [] && Linked(blocks, head, chain) && Separate(blocks, chain)
    ensures head == chain[0] && head < |blocks| && Get(blocks, head) == blocks[head]
    ensures Linked(blocks, blocks[head][0], chain[1..]) && Separate(blocks, chain[1..])
    ensures FreeOf(blocks, chain[1..]) <= FreeOf(blocks, chain)
  {
  }

  lemma {:induction false} FillAddsOne(blocks: seq<Block>, head: Word, chain: seq<Word>, b: Word)
    requires chain != [] && Linked(blocks, head, chain) && Separate(blocks, chain)
    requires 0 < b < |blocks| && b !in FreeOf(blocks, chain)
    ensures Gains(blocks, FilledBlocks(blocks, chain, b), head, chain,
                  if AllFull(blocks, chain) then chain + [b] else chain, b)
    decreases chain
  {
    hide FreeOf, Separate, Linked, Gains, Put;
    Tail(blocks, head, chain);
    var i := FirstHole(Get(blocks, head), 1);
    var rest := chain[1..];
    assert chain == [head] + rest;
    if i < BLOCK_WORDS {
      assert head in chain;
      FillHeadNode(blocks, chain, i, b);
    } else if |chain| == 1 {
      assert AllFull(blocks, chain);
      assert chain == [head];
      AppendNode(blocks, head, b);
    } else {
      FillAddsOne(blocks, blocks[head][0], rest, b);
      assert AllFull(blocks, chain) == AllFull(blocks, rest);
      var rest' := if AllFull(blocks, rest) then rest + [b] else rest;
      assert [head] + rest' == if AllFull(blocks, chain) then chain + [b] else chain;
      FillLaterNode(blocks, FilledBlocks(blocks, chain, b), chain, rest', b);
    }
  }

  lemma AppendNode(blocks: seq<Block>, head: Word, b: Word)
    requires Linked(blocks, head, [head]) && Separate(blocks, [head])
    requires 0 < b < |blocks| && b !in FreeOf(blocks, [head])
    ensures var blocks' := Put(Put(blocks, head, SetWord(blocks[head], 0, b)), b, ZERO_BLOCK);
      Gains(blocks, blocks', head, [head], [head] + [b], b)
  {
    var node := blocks[head];
    var blocks' := Put(Put(blocks, head, SetWord(node, 0, b)), b, ZERO_BLOCK);
    var chain' := [head] + [b];
    assert chain'[1..] == [b] && [b][1..] == [] && [head][1..] == [];
    assert Slots(ZERO_BLOCK) == {};
    assert Slots(SetWord(node, 0, b)) == Slots(node) by {
      assert forall j :: 1 <= j < BLOCK_WORDS ==> SetWord(node, 0, b)[j] == node[j];
    }
    assert FreeOf(blocks', [b]) == {b};
    assert Linked(blocks', b, [b]) && Separate(blocks', [b]);
  }

  /** What sfs_fs_free_block promises: the block joins the free set, nothing else does, the list stays
      acyclic and free of duplicates, and no block outside the new free set changes. */
  lemma ReleaseAddsOne(st: Store, lo: nat, b: Word)
    requires StoreOk(st, lo) && lo <= b < |st.blocks| && b !in Free(st)
    ensures |Release(st, b).blocks| == |st.blocks|
    ensures StoreOk(Release(st, b), lo)
    ensures Free(Release(st, b)) == Free(st) + {b}
    ensures forall x :: 0 <= x < |st.blocks| && x !in Free(Release(st, b)) ==> Release(st, b).blocks[x] == st.blocks[x]
  {
    if st.chain == [] {
      assert Slots(ZERO_BLOCK) == {};
      var st' := Release(st, b);
      assert [b][1..] == [];
      assert Linked(st'.blocks, b, [b]);
    } else {
      FillAddsOne(st.blocks, st.head, st.chain, b);
      NodesAreFree(st.blocks, st.chain);
    }
  }

  // ---------------------------------------------------------------- runs

  /** A caller of the pool: it allocates, and frees only blocks it was handed and has not freed since. */
  datatype PoolOp = Take | Give(b: Word)

  /** The store together with the blocks handed out and not yet freed. */
  datatype Account = Account(st: Store, out: set<Word>)

  function Perform(a: Account, op: PoolOp): Account {
    match op
    case Take => if Next(a.st) == 0 then a else Account(Alloc(a.st), a.out + {Next(a.st)})
    case Give(b) => if b in a.out then Account(Release(a.st, b), a.out - {b}) else a
  }

  function PerformAll(a: Account, ops: seq<PoolOp>): Account
    decreases ops
  {
    if ops == [] then a else PerformAll(Perform(a, ops[0]), ops[1..])
  }

  ghost predicate Balanced(a: Account, lo: nat, pool: set<Word>) {
    && StoreOk(a.st, lo)
    && a.out !! Free(a.st)
    && a.out + Free(a.st) == pool
    && InRange(pool, lo, |a.st.blocks|)
  }

  /** Over every interleaving of allocations and frees the outstanding and the free blocks partition the
      pool: nothing is lost, nothing is handed out twice while outstanding. */
  lemma {:induction false} PoolIsConserved(a: Account, ops: seq<PoolOp>, lo: nat, pool: set<Word>)
    requires Balanced(a, lo, pool)
    ensures Balanced(PerformAll(a, ops), lo, pool)
    decreases ops
  {
    if ops != [] {
      match ops[0] {
        case Take => AllocTakesOne(a.st, lo);
        case Give(b) => if b in a.out { ReleaseAddsOne(a.st, lo, b); }
      }
      PoolIsConserved(Perform(a, ops[0]), ops[1..], lo, pool);
    }
  }

  /** The blocks returned by n allocations in a row (0 for a failure). */
  function TakeMany(st: Store, n: nat): (got: seq<Word>)
    ensures |got| == n
    decreases n
  {
    if n == 0 then [] else [Next(st)] + TakeMany(Alloc(st), n - 1)
  }

  /** got is a record of allocations drawing from the set free without replacement. */
  predicate Draws(got: seq<Word>, free: set<Word>)
    decreases got
  {
    got != [] ==>
      && (got[0] == 0 <==> free == {})
      && (got[0] != 0 ==> got[0] in free)
      && Draws(got[1..], free - {got[0]})
  }

  lemma {:induction false} DrawsAreDistinct(got: seq<Word>, free: set<Word>)
    requires Draws(got, free) && 0 !in free
    ensures forall i :: 0 <= i < |got| ==> (got[i] != 0 <==> i < |free|)
    ensures forall i :: 0 <= i < |got| && got[i] != 0 ==> got[i] in free
    ensures forall i, j :: 0 <= i < j < |got| && got[i] != 0 ==> got[i] != got[j]
    decreases got
  {
    if got != [] {
      var b, later := got[0], got[1..];
      DrawsAreDistinct(later, free - {b});
      assert forall i :: 1 <= i < |got| ==> got[i] == later[i - 1];
      if b != 0 {
        assert |free - {b}| == |free| - 1;
      }
    }
  }

  lemma {:induction false} AllocationsDraw(st: Store, lo: nat, n: nat)
    requires StoreOk(st, lo)
    ensures Draws(TakeMany(st, n), Free(st))
    decreases n
  {
    if n != 0 {
      AllocTakesOne(st, lo);
      AllocationsDraw(Alloc(st), lo, n - 1);
      assert TakeMany(st, n)[1..] == TakeMany(Alloc(st), n - 1);
    }
  }

  /** From a pool of k free blocks exactly the first k of any number of allocations succeed,
      and they return k different blocks. */
  lemma ExactlyKAllocationsSucceed(st: Store, lo: nat, n: nat)
    requires StoreOk(st, lo)
    ensures var got := TakeMany(st, n);
      && (forall i :: 0 <= i < n ==> (got[i] != 0 <==> i < |Free(st)|))
      && (forall i :: 0 <= i < n && got[i] != 0 ==> got[i] in Free(st))
      && (forall i, j :: 0 <= i < j < n && got[i] != 0 ==> got[i] != got[j])
  {
    AllocationsDraw(st, lo, n);
    DrawsAreDistinct(TakeMany(st, n), Free(st));
  }
}
