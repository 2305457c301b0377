/** The file-descriptor slab pool (src/filedescriptor.c). */
module Descriptors {
  import opened Words

  const SLOTS := 4088

  /** The address of a slot: a slab of the slab list and an index in its data array. */
  datatype Ptr = Null | At(slab: nat, idx: nat)

  /** The eight bytes that the union shares between a free node's next pointer and an open descriptor's inumber. */
  datatype Shared = Next(p: Ptr) | Inum(n: Word)

  /** fd is at the same offset in both views of the union; flags is unset until a caller stores it. */
  datatype Flags = Unset | Flags(bits: nat)
  datatype Slot = Slot(fd: nat, shared: Shared, flags: Flags)

  type Slab = s: seq<Slot> | |s| == SLOTS witness seq(SLOTS, i => Slot(0, Next(Null), Unset))

  /** The slabs in list order, the head of the freelist, and the slots on the freelist in order. */
  datatype Pool = Pool(slabs: seq<Slab>, freelist: Ptr, flist: seq<Ptr>)

  predicate In(slabs: seq<Slab>, p: Ptr) {
    p.At? && p.slab < |slabs| && p.idx < SLOTS
  }

  function Deref(slabs: seq<Slab>, p: Ptr): Slot
    requires In(slabs, p)
  {
    slabs[p.slab][p.idx]
  }

  function Assign(slabs: seq<Slab>, p: Ptr, s: Slot): seq<Slab>
    requires In(slabs, p)
  {
    slabs[p.slab := slabs[p.slab][p.idx := s]]
  }

  function Number(p: Ptr): nat
    requires p.At?
  {
    p.slab * SLOTS + p.idx
  }

  predicate FreeLinked(slabs: seq<Slab>, freelist: Ptr, flist: seq<Ptr>)
    decreases flist
  {
    if flist == [] then freelist == Null
    else
      && freelist == flist[0]
      && In(slabs, freelist)
      && freelist !in flist[1..]
      && Deref(slabs, freelist).shared.Next?
      && FreeLinked(slabs, Deref(slabs, freelist).shared.p, flist[1..])
  }

  /** Slot k stores fd k and the freelist is acyclic. */
  ghost predicate PoolOk(pool: Pool) {
    && |pool.slabs| > 0
    && (forall p :: In(pool.slabs, p) ==> Deref(pool.slabs, p).fd == Number(p))
    && FreeLinked(pool.slabs, pool.freelist, pool.flist)
  }

  /** The freelist holds exactly the slots that are not in use; every other slot is open on an inode. */
  ghost predicate Settled(pool: Pool) {
    forall p :: In(pool.slabs, p) ==>
      && (p in pool.flist <==> Deref(pool.slabs, p).shared.Next?)
      && Deref(pool.slabs, p).shared != Inum(0)
  }

  function NewSlot(m: nat, i: nat): Slot {
    Slot(m * SLOTS + i, Next(if i < SLOTS - 1 then At(m, i + 1) else Null), Unset)
  }

  function NewSlab(m: nat): Slab {
    seq(SLOTS, i requires 0 <= i < SLOTS => NewSlot(m, i))
  }

  function SlotsFrom(m: nat, i: nat): (ps: seq<Ptr>)
    requires i <= SLOTS
    ensures |ps| == SLOTS - i
    ensures forall k :: 0 <= k < |ps| ==> ps[k] == At(m, i + k)
    decreases SLOTS - i
  {
    if i == SLOTS then [] else [At(m, i)] + SlotsFrom(m, i + 1)
  }

  /** A new slab at the end of the list; all of its slots are free. */
  function Grow(pool: Pool): Pool {
    var m := |pool.slabs|;
    Pool(pool.slabs + [NewSlab(m)], At(m, 0), SlotsFrom(m, 0))
  }

  /** sfs_filedescriptor_pool_init: one slab, all free. */
  function NewPool(): Pool {
    Grow(Pool([], Null, []))
  }

  function Ready(pool: Pool): Pool {
    if pool.freelist == Null then Grow(pool) else pool
  }

  function Pop(pool: Pool): Pool {
    if In(pool.slabs, pool.freelist) && Deref(pool.slabs, pool.freelist).shared.Next? && pool.flist != []
    then Pool(pool.slabs, Deref(pool.slabs, pool.freelist).shared.p, pool.flist[1..])
    else pool
  }

  /** sfs_filedescriptor_allocate: the slot at the head of the (possibly grown) freelist. */
  function Allocate(pool: Pool): (Pool, Ptr) {
    (Pop(Ready(pool)), Ready(pool).freelist)
  }

  /** sfs_filedescriptor_get_from_fd. */
  function GetFromFd(pool: Pool, fd: nat): (p: Ptr)
    ensures p.At? ==> In(pool.slabs, p)
  {
    if fd / SLOTS < |pool.slabs| then At(fd / SLOTS, fd % SLOTS) else Null
  }

  /** The caller's stores into a descriptor it was given (src/sfs.c:408-409, 585-586). */
  function SetOpen(pool: Pool, p: Ptr, n: Word, flags: nat): Pool {
    if !In(pool.slabs, p) then pool
    else pool.(slabs := Assign(pool.slabs, p, Slot(Deref(pool.slabs, p).fd, Inum(n), Flags(flags))))
  }

  /** sfs_filedescriptor_free. */
  function FreeSlot(pool: Pool, p: Ptr): Pool {
    if !In(pool.slabs, p) then pool
    else Pool(Assign(pool.slabs, p, Deref(pool.slabs, p).(shared := Next(pool.freelist))), p, [p] + pool.flist)
  }

  // ---------------------------------------------------------------- lemmas

  lemma {:induction false} FreshSlotsLinked(slabs: seq<Slab>, m: nat, i: nat)
    requires m < |slabs| && slabs[m] == NewSlab(m) && i <= SLOTS
    ensures FreeLinked(slabs, if i < SLOTS then At(m, i) else Null, SlotsFrom(m, i))
    decreases SLOTS - i
  {
    if i < SLOTS {
      FreshSlotsLinked(slabs, m, i + 1);
      assert slabs[m][i] == NewSlot(m, i);
      assert SlotsFrom(m, i)[1..] == SlotsFrom(m, i + 1);
    }
  }

  /** The freelist only depends on the slots on it. */
  lemma {:induction false} FreeListFrame(slabs: seq<Slab>, slabs': seq<Slab>, freelist: Ptr, flist: seq<Ptr>)
    requires FreeLinked(slabs, freelist, flist) && |slabs| <= |slabs'|
    requires forall p :: p in flist && In(slabs, p) ==> Deref(slabs', p).shared == Deref(slabs, p).shared
    ensures FreeLinked(slabs', freelist, flist)
    ensures forall p :: p in flist ==> In(slabs, p)
    decreases flist
  {
    if flist != [] {
      assert forall p :: p in flist[1..] ==> p in flist;
      assert flist == [freelist] + flist[1..];
      FreeListFrame(slabs, slabs', Deref(slabs, freelist).shared.p, flist[1..]);
    }
  }

  /** Slots of the old slabs are as they were; those of the new slab are numbered on and all free. */
  lemma GrowOk(pool: Pool)
    requires pool.freelist == Null && FreeLinked(pool.slabs, Null, pool.flist)
    requires forall p :: In(pool.slabs, p) ==> Deref(pool.slabs, p).fd == Number(p)
    ensures PoolOk(Grow(pool)) && Grow(pool).flist != []
    ensures forall p :: In(pool.slabs, p) ==>
      In(Grow(pool).slabs, p) && Deref(Grow(pool).slabs, p) == Deref(pool.slabs, p)
    ensures Settled(pool) ==> Settled(Grow(pool))
  {
    var grown, m := Grow(pool), |pool.slabs|;
    FreshSlotsLinked(grown.slabs, m, 0);
    forall p | In(grown.slabs, p)
      ensures Deref(grown.slabs, p).fd == Number(p)
      ensures Settled(pool) ==>
        (p in grown.flist <==> Deref(grown.slabs, p).shared.Next?) && Deref(grown.slabs, p).shared != Inum(0)
    {
      if p.slab == m {
        assert Deref(grown.slabs, p) == NewSlot(m, p.idx);
        assert grown.flist[p.idx] == p;
      } else {
        assert In(pool.slabs, p);
      }
    }
  }

  lemma NewPoolOk()
    ensures PoolOk(NewPool()) && Settled(NewPool())
  {
    GrowOk(Pool([], Null, []));
  }

  lemma ReadyOk(pool: Pool)
    requires PoolOk(pool)
    ensures PoolOk(Ready(pool)) && Ready(pool).flist != []
    ensures forall p :: In(pool.slabs, p) ==>
      In(Ready(pool).slabs, p) && Deref(Ready(pool).slabs, p) == Deref(pool.slabs, p)
    ensures Settled(pool) ==> Settled(Ready(pool))
  {
    if pool.freelist == Null {
      GrowOk(pool);
    }
  }

  /** sfs_filedescriptor_allocate hands out a slot that was not in use, keeps the freelist sound, and leaves
      every slot that existed as it was. */
  lemma AllocateGivesUnusedSlot(pool: Pool)
    requires PoolOk(pool)
    ensures var (pool', p) := Allocate(pool);
      && PoolOk(pool') && In(pool'.slabs, p)
      && pool'.slabs == Ready(pool).slabs
      && Ready(pool).flist == [p] + pool'.flist && p !in pool'.flist
      && (forall q :: In(pool.slabs, q) ==> In(pool'.slabs, q) && Deref(pool'.slabs, q) == Deref(pool.slabs, q))
      && (Settled(pool) && In(pool.slabs, p) ==> Deref(pool.slabs, p).shared.Next?)
  {
    ReadyOk(pool);
    var ready := Ready(pool);
    assert ready.flist == [ready.flist[0]] + ready.flist[1..];
    if Settled(pool) && In(pool.slabs, ready.freelist) {
      assert Deref(ready.slabs, ready.freelist).shared.Next?;
    }
  }

  /** Opening: allocate a slot and store into it. */
  function Open(pool: Pool, n: Word, flags: nat): (Pool, Ptr) {
    var a := Allocate(pool);
    (SetOpen(a.0, a.1, n, flags), a.1)
  }

  lemma OpenOk(pool: Pool, n: Word, flags: nat)
    requires PoolOk(pool) && Settled(pool) && n != 0
    ensures var (pool', p) := Open(pool, n, flags);
      && PoolOk(pool') && Settled(pool')
      && In(pool'.slabs, p) && Deref(pool'.slabs, p) == Slot(Number(p), Inum(n), Flags(flags))
      && pool'.slabs == Assign(Ready(pool).slabs, p, Deref(pool'.slabs, p))
      && Deref(Ready(pool).slabs, p).shared.Next?
  {
    hide Grow, FreeLinked;
    AllocateGivesUnusedSlot(pool);
    ReadyOk(pool);
    var a := Allocate(pool);
    var pool' := SetOpen(a.0, a.1, n, flags);
    FreeListFrame(a.0.slabs, pool'.slabs, a.0.freelist, a.0.flist);
    forall q | In(pool'.slabs, q)
      ensures Deref(pool'.slabs, q).fd == Number(q)
      ensures q in pool'.flist <==> Deref(pool'.slabs, q).shared.Next?
      ensures Deref(pool'.slabs, q).shared != Inum(0)
    {
      assert In(a.0.slabs, q);
      assert q != a.1 ==> Deref(pool'.slabs, q) == Deref(a.0.slabs, q);
      assert q in Ready(pool).flist <==> q == a.1 || q in pool'.flist;
    }
  }

  lemma FreeSlotOk(pool: Pool, p: Ptr)
    requires PoolOk(pool) && Settled(pool) && In(pool.slabs, p) && Deref(pool.slabs, p).shared.Inum?
    ensures PoolOk(FreeSlot(pool, p)) && Settled(FreeSlot(pool, p))
    ensures forall q :: q != p && In(pool.slabs, q) ==> Deref(FreeSlot(pool, p).slabs, q) == Deref(pool.slabs, q)
  {
    var pool' := FreeSlot(pool, p);
    assert p !in pool.flist;
    FreeListFrame(pool.slabs, pool'.slabs, pool.freelist, pool.flist);
    assert pool'.flist[1..] == pool.flist;
    forall q | In(pool'.slabs, q)
      ensures Deref(pool'.slabs, q).fd == Number(q)
      ensures q in pool'.flist <==> Deref(pool'.slabs, q).shared.Next?
      ensures Deref(pool'.slabs, q).shared != Inum(0)
    {
      assert In(pool.slabs, q);
    }
  }

  /** Looking up a descriptor number inverts allocation: the number of a slot finds that very slot, whichever
      slab it is in, and exactly the numbers past the last slab find nothing. */
  lemma LookupInvertsNumber(pool: Pool, fd: nat)
    requires PoolOk(pool)
    ensures forall p :: In(pool.slabs, p) ==> GetFromFd(pool, Deref(pool.slabs, p).fd) == p
    ensures GetFromFd(pool, fd) == Null <==> fd >= |pool.slabs| * SLOTS
    ensures GetFromFd(pool, fd) != Null ==> Deref(pool.slabs, GetFromFd(pool, fd)).fd == fd
  {
    hide FreeLinked;
    forall p | In(pool.slabs, p) ensures GetFromFd(pool, Deref(pool.slabs, p).fd) == p {
      assert Deref(pool.slabs, p).fd == Number(p);
      assert Number(p) / SLOTS == p.slab && Number(p) % SLOTS == p.idx;
    }
  }

  // ---------------------------------------------------------------- allocation order

  /** n allocations in a row without a free. */
  ghost function AllocateMany(pool: Pool, n: nat): (Pool, seq<nat>)
    requires PoolOk(pool)
    decreases n
  {
    if n == 0 then (pool, [])
    else
      AllocateGivesUnusedSlot(pool);
      var a := Allocate(pool);
      var rest := AllocateMany(a.0, n - 1);
      (rest.0, [Deref(a.0.slabs, a.1).fd] + rest.1)
  }

  /** A pool from which nothing was ever freed: the free slots are those numbered from k on, in order. */
  ghost predicate Sequential(pool: Pool, k: nat) {
    && k + |pool.flist| == |pool.slabs| * SLOTS
    && (forall i :: 0 <= i < |pool.flist| ==> pool.flist[i] == At((k + i) / SLOTS, (k + i) % SLOTS))
  }

  lemma SequentialStep(pool: Pool, k: nat)
    requires PoolOk(pool) && Sequential(pool, k)
    ensures var (pool', p) := Allocate(pool); Sequential(pool', k + 1) && Deref(pool'.slabs, p).fd == k
    ensures |pool.flist| <= SLOTS ==> |Allocate(pool).0.flist| < SLOTS
  {
    AllocateGivesUnusedSlot(pool);
    ReadyOk(pool);
    var ready := Ready(pool);
    assert Sequential(ready, k);
    assert ready.flist[0] == At(k / SLOTS, k % SLOTS);
    var a := Allocate(pool);
    assert forall i :: 0 <= i < |a.0.flist| ==> a.0.flist[i] == ready.flist[i + 1];
  }

  function CountUp(k: nat, n: nat): (s: seq<nat>)
    ensures |s| == n
    ensures forall i :: 0 <= i < n ==> s[i] == k + i
    decreases n
  {
    if n == 0 then [] else [k] + CountUp(k + 1, n - 1)
  }

  lemma {:induction false} SequentialAllocations(pool: Pool, k: nat, n: nat)
    requires PoolOk(pool) && Sequential(pool, k) && |pool.flist| <= SLOTS
    ensures AllocateMany(pool, n).1 == CountUp(k, n)
    ensures var last := AllocateMany(pool, n).0;
      Sequential(last, k + n) && |last.slabs| > 0 && |last.flist| <= if n > 0 then SLOTS - 1 else SLOTS
    decreases n
  {
    hide Sequential, Grow, FreeLinked;
    if n > 0 {
      AllocateGivesUnusedSlot(pool);
      SequentialStep(pool, k);
      SequentialAllocations(Allocate(pool).0, k + 1, n - 1);
    }
  }

  lemma GrownIsSequential(pool: Pool)
    ensures Sequential(Grow(pool), |pool.slabs| * SLOTS)
  {
  }

  lemma SlabsNeeded(m: nat, n: nat, free: nat)
    requires n + free == m * SLOTS && m > 0 && free <= if n > 0 then SLOTS - 1 else SLOTS
    ensures m == if n == 0 then 1 else (n + 4087) / 4088
  {
  }

  /** A fresh pool numbers its descriptors 0, 1, 2, ... and takes a slab for every 4088 of them. */
  lemma FreshPoolCountsUp(n: nat)
    ensures PoolOk(NewPool())
    ensures AllocateMany(NewPool(), n).1 == CountUp(0, n)
    ensures |AllocateMany(NewPool(), n).0.slabs| == if n == 0 then 1 else (n + 4087) / 4088
  {
    hide AllocateMany, CountUp, PoolOk;
    var none := Pool([], Null, []);
    GrowOk(none);
    GrownIsSequential(none);
    assert NewPool() == Grow(none);
    SequentialAllocations(Grow(none), 0, n);
    var last := AllocateMany(NewPool(), n).0;
    SlabsNeeded(|last.slabs|, n, |last.flist|);
  }

  /** A descriptor freed last is the one allocated next. */
  lemma FreeThenAllocate(pool: Pool, p: Ptr)
    requires PoolOk(pool) && Settled(pool) && In(pool.slabs, p) && Deref(pool.slabs, p).shared.Inum?
    ensures PoolOk(FreeSlot(pool, p))
    ensures var (pool', q) := Allocate(FreeSlot(pool, p));
      q == p && pool'.freelist == pool.freelist && pool'.flist == pool.flist
  {
    FreeSlotOk(pool, p);
  }

  // ---------------------------------------------------------------- what is open

  /** The inode each descriptor number is open on, 0 for a number not in use. */
  function OpenOn(pool: Pool, fd: nat): Word
    requires fd < |pool.slabs| * SLOTS
  {
    match pool.slabs[fd / SLOTS][fd % SLOTS].shared
    case Inum(n) => n
    case Next(_) => 0
  }

  function Opens(pool: Pool): seq<Word> {
    seq(|pool.slabs| * SLOTS, fd requires 0 <= fd < |pool.slabs| * SLOTS => OpenOn(pool, fd))
  }

  function ZeroPad(s: seq<Word>, n: nat): seq<Word> {
    s + Zeros(n)
  }

  /** Opening puts the inode number at the new descriptor's place; growth adds unused places only. */
  lemma OpensAfterOpen(pool: Pool, n: Word, flags: nat)
    requires PoolOk(pool) && Settled(pool) && n != 0
    ensures var (pool', p) := Open(pool, n, flags);
      var before := ZeroPad(Opens(pool), if pool.freelist == Null then SLOTS else 0);
      && In(pool'.slabs, p) && Number(p) < |before| && before[Number(p)] == 0
      && Opens(pool') == before[Number(p) := n]
  {
    hide FreeLinked, Settled;
    OpenOk(pool, n, flags);
    ReadyOk(pool);
    var o := Open(pool, n, flags);
    var before := ZeroPad(Opens(pool), if pool.freelist == Null then SLOTS else 0);
    assert |before| == |o.0.slabs| * SLOTS;
    forall fd | 0 <= fd < |before| ensures before[fd] == OpenOn(Ready(pool), fd) {
      var q := At(fd / SLOTS, fd % SLOTS);
      if fd < |pool.slabs| * SLOTS {
        assert In(pool.slabs, q);
      } else {
        assert Deref(Ready(pool).slabs, q) == NewSlot(|pool.slabs|, q.idx);
      }
    }
    forall fd | 0 <= fd < |before| ensures OpenOn(o.0, fd) == before[Number(o.1) := n][fd] {
      var q := At(fd / SLOTS, fd % SLOTS);
      assert Number(q) == fd;
      assert In(Ready(pool).slabs, q);
    }
  }

  lemma OpensAfterFree(pool: Pool, p: Ptr)
    requires PoolOk(pool) && Settled(pool) && In(pool.slabs, p) && Deref(pool.slabs, p).shared.Inum?
    ensures Number(p) < |Opens(pool)| && Opens(pool)[Number(p)] == Deref(pool.slabs, p).shared.n
    ensures Opens(FreeSlot(pool, p)) == Opens(pool)[Number(p) := 0]
  {
    var pool' := FreeSlot(pool, p);
    forall fd | 0 <= fd < |Opens(pool)| ensures OpenOn(pool', fd) == Opens(pool)[Number(p) := 0][fd] {
      var q := At(fd / SLOTS, fd % SLOTS);
      assert Number(q) == fd;
    }
  }
}
