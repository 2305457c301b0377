/** The slab pool updated in place, each operation proved equal to its specification in Descriptors. */
module SlabPool {
  import opened Words
  import opened Descriptors

  /** The loop that numbers the slots of slab m, whose first descriptor is base, and chains them up. */
  method MakeSlab(m: nat, base: nat) returns (s: Slab)
    requires base == m * SLOTS
    ensures s == NewSlab(m)
  {
    var data := new Slot[SLOTS](_ => Slot(0, Next(Null), Unset));
    var i := 0;
    while i < SLOTS - 1
      invariant 0 <= i <= SLOTS - 1
      invariant forall k :: 0 <= k < i ==> data[k] == NewSlot(m, k)
    {
      data[i] := Slot(base + i, Next(At(m, i + 1)), Unset);
      i := i + 1;
    }
    data[SLOTS - 1] := Slot(base + SLOTS - 1, Next(Null), Unset);
    s := data[..];
  }

  class DescriptorPool {
    var slabs: seq<Slab>
    var freelist: Ptr
    ghost var flist: seq<Ptr>

    ghost function Abs(): Pool
      reads this
    {
      Pool(slabs, freelist, flist)
    }

    /** sfs_filedescriptor_pool_init. */
    constructor ()
      ensures Abs() == NewPool() && PoolOk(Abs()) && Settled(Abs())
    {
      var s := MakeSlab(0, 0);
      slabs, freelist := [s], At(0, 0);
      ghost var none: seq<Slab> := [];
      flist := SlotsFrom(|none|, 0);
      new;
      NewPoolOk();
      assert none + [s] == [s];
    }

    /** sfs_filedescriptor_allocate: pop the freelist, growing the pool by one slab when it is empty. */
    method Allocate() returns (p: Ptr)
      requires PoolOk(Abs())
      modifies this
      ensures (Abs(), p) == Descriptors.Allocate(old(Abs()))
      decreases freelist == Null
    {
      ReadyOk(Abs());
      if freelist != Null {
        p := freelist;
        freelist := Deref(slabs, p).shared.p;
        flist := flist[1..];
        return;
      }
      var already := SLOTS;
      var it := 0;
      while it + 1 < |slabs|
        invariant 0 <= it < |slabs|
        invariant already == (it + 1) * SLOTS
      {
        already := already + SLOTS;
        it := it + 1;
      }
      var m := |slabs|;
      var s := MakeSlab(m, already);
      slabs := slabs + [s];
      freelist := At(m, 0);
      flist := SlotsFrom(m, 0);
      p := Allocate();
    }

    /** sfs_filedescriptor_get_from_fd: walk the slab list to the right slab. */
    method GetFromFd(fd: nat) returns (p: Ptr)
      ensures p == Descriptors.GetFromFd(Abs(), fd)
    {
      var slabIndex, slotIndex := fd / SLOTS, fd % SLOTS;
      var s := 0;
      while s < slabIndex
        invariant 0 <= s <= slabIndex && s <= |slabs|
      {
        if s == |slabs| {
          return Null;
        }
        s := s + 1;
      }
      if s == |slabs| {
        return Null;
      }
      return At(s, slotIndex);
    }

    /** The stores of a caller into the descriptor it was given. */
    method SetOpen(p: Ptr, n: Word, flags: nat)
      requires In(slabs, p)
      modifies this
      ensures Abs() == Descriptors.SetOpen(old(Abs()), p, n, flags)
    {
      slabs := slabs[p.slab := slabs[p.slab][p.idx := Slot(slabs[p.slab][p.idx].fd, Inum(n), Flags(flags))]];
    }

    /** sfs_filedescriptor_free. */
    method Free(p: Ptr)
      requires In(slabs, p)
      modifies this
      ensures Abs() == FreeSlot(old(Abs()), p)
    {
      slabs := slabs[p.slab := slabs[p.slab][p.idx := slabs[p.slab][p.idx].(shared := Next(freelist))]];
      freelist := p;
      flist := [p] + flist;
    }
  }
}
