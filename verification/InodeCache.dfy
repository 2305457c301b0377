/** The one-block write-back cache of the inode table (src/fs.c:16-23, 230-249, 306-372). The number of the
    cached block is a C int while block numbers are 64 bits wide. */
module InodeCache {
  import opened Words
  import opened Inodes

  /** table[i] is block i + 1 of the disk, seen as inodes. number 0 means that nothing is cached. */
  datatype Cache = Cache(table: seq<InodeBlock>, dirty: bool, number: int, data: InodeBlock)

  /** Storing a 64-bit block number into the int. */
  function ToInt(n: nat): int {
    (n + INT_LIMIT) % (2 * INT_LIMIT) - INT_LIMIT
  }

  /** Comparing the int with a 64-bit number, or passing it for one. */
  function ToUnsigned(i: int): int {
    if i < 0 then i + 0x1_0000_0000_0000_0000 else i
  }

  function Home(n: Word): nat
    requires n > 0
  {
    (n - 1) / INODES_PER_BLOCK + 1
  }

  function Place(n: Word): nat
    requires n > 0
  {
    (n - 1) % INODES_PER_BLOCK
  }

  /** Write the cached block to the disk. A negative number makes a negative file offset, an error; number 0 puts
      the data over the superblock and not into the table. */
  function WriteBack(c: Cache): (r: Option<Cache>)
    ensures r.Some? ==> |r.value.table| == |c.table|
  {
    if c.number < 0 then None
    else if 1 <= c.number <= |c.table| then Some(c.(table := c.table[c.number - 1 := c.data]))
    else Some(c)
  }

  function Flushed(c: Cache): Option<Cache> {
    if c.dirty then WriteBack(c) else Some(c)
  }

  /** Make block number the cached one; None when writing back the old one fails. */
  function Fetch(c: Cache, number: nat): Option<Cache>
    requires 1 <= number <= |c.table|
  {
    if ToUnsigned(c.number) == number then Some(c)
    else
      match Flushed(c)
      case None => None
      case Some(b) => Some(Cache(b.table, false, ToInt(number), b.table[number - 1]))
  }

  datatype Access = ReadOf(n: Word) | WriteOf(n: Word, ino: Inode)

  predicate InTable(a: Access, table: seq<InodeBlock>) {
    1 <= a.n <= INODES_PER_BLOCK * |table|
  }

  /** sfs_fs_read_inode and sfs_fs_write_inode; the second component is the inode read or written. */
  function Serve(c: Cache, a: Access): (Cache, Option<Inode>)
    requires InTable(a, c.table)
  {
    match Fetch(c, Home(a.n))
    case None => (c, None)
    case Some(c') =>
      match a
      case ReadOf(n) => (c', Some(c'.data[Place(n)]))
      case WriteOf(n, ino) => (c'.(dirty := true, data := c'.data[Place(n) := ino]), Some(ino))
  }

  // ---------------------------------------------------------------- the plain array it stands for

  /** The inodes in number order. */
  function Flatten(table: seq<InodeBlock>): (s: seq<Inode>)
    ensures |s| == INODES_PER_BLOCK * |table|
    ensures forall k :: 0 <= k < |s| ==> s[k] == table[k / INODES_PER_BLOCK][k % INODES_PER_BLOCK]
  {
    seq(INODES_PER_BLOCK * |table|,
        k requires 0 <= k < INODES_PER_BLOCK * |table| => table[k / INODES_PER_BLOCK][k % INODES_PER_BLOCK])
  }

  lemma FlattenUpdate(table: seq<InodeBlock>, n: Word, ino: Inode)
    requires 1 <= n <= INODES_PER_BLOCK * |table|
    ensures Flatten(table[Home(n) - 1 := table[Home(n) - 1][Place(n) := ino]]) == Flatten(table)[n - 1 := ino]
  {
    var s, t := Flatten(table[Home(n) - 1 := table[Home(n) - 1][Place(n) := ino]]), Flatten(table)[n - 1 := ino];
    forall k | 0 <= k < |s| ensures s[k] == t[k] {
      assert k == k / INODES_PER_BLOCK * INODES_PER_BLOCK + k % INODES_PER_BLOCK;
    }
  }

  /** Nothing cached, or a block of the table; a clean one agrees with the disk. */
  ghost predicate CacheOk(c: Cache) {
    && 0 <= c.number <= |c.table|
    && (c.number == 0 ==> !c.dirty)
    && (c.number != 0 && !c.dirty ==> c.table[c.number - 1] == c.data)
  }

  /** The table as it is seen: the cached block hides the one on disk. */
  function Seen(c: Cache): seq<InodeBlock> {
    if 1 <= c.number <= |c.table| then c.table[c.number - 1 := c.data] else c.table
  }

  /** The cache when the disk has just been opened. */
  function Cold(table: seq<InodeBlock>, data: InodeBlock): Cache {
    Cache(table, false, 0, data)
  }

  /** What an access returns from, and does to, a plain array. */
  function Answer(inodes: seq<Inode>, a: Access): Inode
    requires 1 <= a.n <= |inodes|
  {
    match a
    case ReadOf(n) => inodes[n - 1]
    case WriteOf(_, ino) => ino
  }

  function Updated(inodes: seq<Inode>, a: Access): seq<Inode>
    requires 1 <= a.n <= |inodes|
  {
    match a
    case ReadOf(_) => inodes
    case WriteOf(n, ino) => inodes[n - 1 := ino]
  }

  predicate AllInTable(accs: seq<Access>, table: seq<InodeBlock>) {
    forall i :: 0 <= i < |accs| ==> InTable(accs[i], table)
  }

  lemma TableLength(c: Cache, a: Access)
    requires InTable(a, c.table)
    ensures |Serve(c, a).0.table| == |c.table|
  {
  }

  /** Every access of the sequence succeeds and returns what the plain array would, and writing the cache back
      afterwards, as closing does, leaves the array on disk. */
  ghost predicate ActsAsArray(c: Cache, inodes: seq<Inode>, accs: seq<Access>)
    requires |inodes| == INODES_PER_BLOCK * |c.table| && AllInTable(accs, c.table)
    decreases accs
  {
    if accs == [] then
      Flushed(c).Some? && Flatten(Flushed(c).value.table) == inodes
    else
      var (c', r) := Serve(c, accs[0]);
      TableLength(c, accs[0]);
      r == Some(Answer(inodes, accs[0])) && ActsAsArray(c', Updated(inodes, accs[0]), accs[1..])
  }

  lemma IntIsExact(n: nat)
    requires n < INT_LIMIT
    ensures ToInt(n) == n == ToUnsigned(n)
  {
  }

  lemma FetchOk(c: Cache, number: nat)
    requires CacheOk(c) && 1 <= number <= |c.table| < INT_LIMIT
    ensures Fetch(c, number).Some?
    ensures var c' := Fetch(c, number).value;
      && CacheOk(c') && c'.number == number && |c'.table| == |c.table|
      && Seen(c') == Seen(c) && c'.data == Seen(c)[number - 1]
  {
    IntIsExact(number);
    IntIsExact(c.number);
  }

  /** One access through the cache is one access to the array. */
  lemma ServeOk(c: Cache, a: Access)
    requires CacheOk(c) && |c.table| < INT_LIMIT && InTable(a, c.table)
    ensures var (c', r) := Serve(c, a);
      && CacheOk(c') && |c'.table| == |c.table|
      && r == Some(Answer(Flatten(Seen(c)), a))
      && Flatten(Seen(c')) == Updated(Flatten(Seen(c)), a)
  {
    FetchOk(c, Home(a.n));
    if a.WriteOf? {
      FlattenUpdate(Seen(c), a.n, a.ino);
    }
  }

  /** As long as every block number of the table fits the int, the cache is invisible: over any sequence of
      accesses reads return the last write, and a miss never loses a dirty block. */
  lemma {:induction false} CacheIsInvisible(c: Cache, accs: seq<Access>)
    requires CacheOk(c) && |c.table| < INT_LIMIT && AllInTable(accs, c.table)
    ensures ActsAsArray(c, Flatten(Seen(c)), accs)
    decreases accs
  {
    hide Flatten, Serve, Updated, Answer;
    if accs != [] {
      ServeOk(c, accs[0]);
      CacheIsInvisible(Serve(c, accs[0]).0, accs[1..]);
    }
  }

  /** Otherwise it is not: an inode of block 2147483648 is written, and the write-back fails. */
  lemma WriteBackFails(table: seq<InodeBlock>, data: InodeBlock, ino: Inode)
    requires |table| >= INT_LIMIT
    ensures var n: Word := INODES_PER_BLOCK * (INT_LIMIT - 1) + 1;
      && AllInTable([WriteOf(n, ino), ReadOf(1)], table)
      && Serve(Cold(table, data), WriteOf(n, ino)).1 == Some(ino)
      && Serve(Serve(Cold(table, data), WriteOf(n, ino)).0, ReadOf(1)).1 == None
  {
    var n: Word := INODES_PER_BLOCK * (INT_LIMIT - 1) + 1;
    assert Home(n) == INT_LIMIT;
    assert ToInt(INT_LIMIT) == -INT_LIMIT;
  }

  /** From block 4294967297 on it is silent: that block is then taken for block 1. */
  lemma WrongBlockHit(table: seq<InodeBlock>, data: InodeBlock)
    requires |table| > 2 * INT_LIMIT
    ensures var n: Word := INODES_PER_BLOCK * (2 * INT_LIMIT) + 1;
      && InTable(ReadOf(n), table)
      && Serve(Serve(Cold(table, data), ReadOf(n)).0, ReadOf(1)).1 == Some(Flatten(table)[n - 1])
  {
    var n: Word := INODES_PER_BLOCK * (2 * INT_LIMIT) + 1;
    assert Home(n) == 2 * INT_LIMIT + 1;
    assert ToInt(2 * INT_LIMIT + 1) == 1;
  }

  /** So the cache stands for a plain array of inodes if and only if every block of the table has an int number. */
  lemma CacheIsRightIff(table: seq<InodeBlock>, data: InodeBlock)
    ensures (forall accs: seq<Access> :: AllInTable(accs, table) ==>
      ActsAsArray(Cold(table, data), Flatten(table), accs))
      <==> |table| < INT_LIMIT
  {
    hide Flatten;
    var c := Cold(table, data);
    if |table| < INT_LIMIT {
      forall accs: seq<Access> | AllInTable(accs, table) ensures ActsAsArray(c, Flatten(table), accs) {
        CacheIsInvisible(c, accs);
      }
    } else {
      WriteBackFails(table, data, NULL_INODE);
      var accs := [WriteOf(INODES_PER_BLOCK * (INT_LIMIT - 1) + 1, NULL_INODE), ReadOf(1)];
      assert accs[1..][0] == ReadOf(1);
      assert !ActsAsArray(c, Flatten(table), accs);
    }
  }
}
