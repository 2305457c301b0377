/** The same block as 512 bytes, and names as the 256-byte buffers strncpy leaves. */
module Bytes {
  import opened Words

  type Byte = b: int | 0 <= b < 256

  const WORD_BYTES := 8

  function Pow256(n: nat): nat
    decreases n
  {
    if n == 0 then 1 else 256 * Pow256(n - 1)
  }

  /** Little-endian value of some bytes. */
  function FromBytes(bs: seq<Byte>): nat
    decreases bs
  {
    if bs == [] then 0 else bs[0] + 256 * FromBytes(bs[1..])
  }

  /** The n low bytes of a value, least significant first. */
  function ToBytes(w: nat, n: nat): (bs: seq<Byte>)
    ensures |bs| == n
    decreases n
  {
    if n == 0 then [] else [w % 256] + ToBytes(w / 256, n - 1)
  }

  lemma {:induction false} FromBytesBounded(bs: seq<Byte>)
    ensures FromBytes(bs) < Pow256(|bs|)
    decreases bs
  {
    if bs != [] {
      FromBytesBounded(bs[1..]);
    }
  }

  lemma {:induction false} ToFrom(bs: seq<Byte>)
    ensures ToBytes(FromBytes(bs), |bs|) == bs
    decreases bs
  {
    if bs != [] {
      ToFrom(bs[1..]);
      var w := FromBytes(bs);
      assert w % 256 == bs[0] && w / 256 == FromBytes(bs[1..]);
      assert ToBytes(w, |bs|) == [w % 256] + ToBytes(w / 256, |bs| - 1);
    }
  }

  lemma {:induction false} FromTo(w: nat, n: nat)
    requires w < Pow256(n)
    ensures FromBytes(ToBytes(w, n)) == w
    decreases n
  {
    if n != 0 {
      FromTo(w / 256, n - 1);
    }
  }

  lemma WordIsEightBytes()
    ensures Pow256(WORD_BYTES) == 0x1_0000_0000_0000_0000
  {
    assert Pow256(4) == 0x1_0000_0000;
    assert Pow256(6) == 0x1_0000_0000_0000;
  }

  function WordOf(bs: seq<Byte>): Word
    requires |bs| == WORD_BYTES
  {
    FromBytesBounded(bs);
    WordIsEightBytes();
    FromBytes(bs)
  }

  /** A run of words as bytes. */
  function Unpack(ws: seq<Word>): (bs: seq<Byte>)
    ensures |bs| == WORD_BYTES * |ws|
    decreases ws
  {
    if ws == [] then [] else ToBytes(ws[0], WORD_BYTES) + Unpack(ws[1..])
  }

  /** Bytes as a run of words. */
  function Pack(bs: seq<Byte>): (ws: seq<Word>)
    requires |bs| % WORD_BYTES == 0
    ensures |ws| == |bs| / WORD_BYTES
    decreases |bs|
  {
    if bs == [] then [] else [WordOf(bs[..WORD_BYTES])] + Pack(bs[WORD_BYTES..])
  }

  /** The two views of a block are the same data: no byte string is lost ... */
  lemma {:induction false} UnpackPack(bs: seq<Byte>)
    requires |bs| % WORD_BYTES == 0
    ensures Unpack(Pack(bs)) == bs
    decreases |bs|
  {
    if bs != [] {
      ToFrom(bs[..WORD_BYTES]);
      UnpackPack(bs[WORD_BYTES..]);
      assert Pack(bs)[1..] == Pack(bs[WORD_BYTES..]);
      assert bs == bs[..WORD_BYTES] + bs[WORD_BYTES..];
    }
  }

  /** ... and no word is. */
  lemma {:induction false} PackUnpack(ws: seq<Word>)
    ensures Pack(Unpack(ws)) == ws
    decreases ws
  {
    if ws != [] {
      WordIsEightBytes();
      FromTo(ws[0], WORD_BYTES);
      PackUnpack(ws[1..]);
      assert Unpack(ws)[..WORD_BYTES] == ToBytes(ws[0], WORD_BYTES);
      assert Unpack(ws)[WORD_BYTES..] == Unpack(ws[1..]);
    }
  }

  function BlockBytes(b: Block): (bs: seq<Byte>)
    ensures |bs| == BLOCK_SIZE
  {
    Unpack(b)
  }

  function BlockOf(bs: seq<Byte>): Block
    requires |bs| == BLOCK_SIZE
  {
    Pack(bs)
  }

  /** Where the bytes of a word are. */
  lemma {:induction false} UnpackWord(ws: seq<Word>, i: nat)
    requires i < |ws|
    ensures Unpack(ws)[WORD_BYTES * i..WORD_BYTES * i + WORD_BYTES] == ToBytes(ws[i], WORD_BYTES)
    decreases ws
  {
    hide ToBytes;
    var first, rest := ToBytes(ws[0], WORD_BYTES), Unpack(ws[1..]);
    assert Unpack(ws) == first + rest;
    if i > 0 {
      UnpackWord(ws[1..], i - 1);
      var at := WORD_BYTES * (i - 1);
      assert (first + rest)[WORD_BYTES + at..WORD_BYTES + at + WORD_BYTES] == rest[at..at + WORD_BYTES];
    }
  }

  lemma {:induction false} UnpackJoin(a: seq<Word>, b: seq<Word>)
    ensures Unpack(a + b) == Unpack(a) + Unpack(b)
    decreases a
  {
    hide ToBytes;
    if a == [] {
      assert a + b == b;
    } else {
      UnpackJoin(a[1..], b);
      assert (a + b)[1..] == a[1..] + b;
    }
  }

  /** The bytes of some of the words are some of the bytes. */
  lemma UnpackSlice(ws: seq<Word>, i: nat, k: nat)
    requires i <= k <= |ws|
    ensures Unpack(ws[i..k]) == Unpack(ws)[WORD_BYTES * i..WORD_BYTES * k]
  {
    hide Unpack;
    assert ws == ws[..k] + ws[k..] && ws[..k] == ws[..i] + ws[i..k];
    UnpackJoin(ws[..k], ws[k..]);
    UnpackJoin(ws[..i], ws[i..k]);
    MiddleOf(Unpack(ws[..i]), Unpack(ws[i..k]), Unpack(ws[k..]));
  }

  lemma MiddleOf(a: seq<Byte>, b: seq<Byte>, c: seq<Byte>)
    ensures (a + b + c)[|a|..|a| + |b|] == b
  {
  }

  /** A word, read from its bytes. */
  lemma WordAtByte(ws: seq<Word>, i: nat)
    requires i < |ws|
    ensures FromBytes(Unpack(ws)[WORD_BYTES * i..WORD_BYTES * i + WORD_BYTES]) == ws[i]
  {
    UnpackWord(ws, i);
    WordIsEightBytes();
    FromTo(ws[i], WORD_BYTES);
  }

  /** Words are little-endian. */
  lemma LittleEndian(ws: seq<Word>, i: nat)
    requires i < |ws|
    ensures var b: seq<int> := Unpack(ws)[8 * i..8 * i + 8];
      ws[i] == b[0] + 0x100 * b[1] + 0x1_0000 * b[2] + 0x100_0000 * b[3] + 0x1_0000_0000 * b[4]
               + 0x100_0000_0000 * b[5] + 0x1_0000_0000_0000 * b[6] + 0x100_0000_0000_0000 * b[7]
  {
    hide Unpack, FromBytes;
    WordAtByte(ws, i);
    EightBytes(Unpack(ws)[8 * i..8 * i + 8]);
  }

  lemma EightBytes(bs: seq<Byte>)
    requires |bs| == 8
    ensures var b: seq<int> := bs;
      FromBytes(bs) == b[0] + 0x100 * b[1] + 0x1_0000 * b[2] + 0x100_0000 * b[3] + 0x1_0000_0000 * b[4]
                       + 0x100_0000_0000 * b[5] + 0x1_0000_0000_0000 * b[6] + 0x100_0000_0000_0000 * b[7]
  {
    FourBytes(bs[..4]);
    FourBytes(bs[4..]);
    FromBytesJoin(bs[..4], bs[4..]);
    assert bs == bs[..4] + bs[4..];
    assert Pow256(4) == 0x1_0000_0000;
  }

  lemma FourBytes(bs: seq<Byte>)
    requires |bs| == 4
    ensures var b: seq<int> := bs; FromBytes(bs) == b[0] + 0x100 * b[1] + 0x1_0000 * b[2] + 0x100_0000 * b[3]
  {
    assert bs[1..][1..] == bs[2..] && bs[2..][1..] == bs[3..] && bs[3..][1..] == [];
    assert FromBytes(bs[3..]) == bs[3];
    assert FromBytes(bs[2..]) == bs[2] + 256 * FromBytes(bs[3..]);
    assert FromBytes(bs[1..]) == bs[1] + 256 * FromBytes(bs[2..]);
  }

  lemma {:induction false} FromBytesJoin(a: seq<Byte>, b: seq<Byte>)
    ensures FromBytes(a + b) == FromBytes(a) + Pow256(|a|) * FromBytes(b)
    decreases a
  {
    if a == [] {
      assert a + b == b;
    } else {
      FromBytesJoin(a[1..], b);
      assert (a + b)[1..] == a[1..] + b;
      assert FromBytes(a + b) == a[0] + 256 * (FromBytes(a[1..]) + Pow256(|a| - 1) * FromBytes(b));
      assert 256 * (Pow256(|a| - 1) * FromBytes(b)) == Pow256(|a|) * FromBytes(b);
    }
  }

  // ---------------------------------------------------------------- names

  const NAME_BYTES := 256

  /** A C string that fits a directory entry: no NUL, at most 255 characters. */
  predicate IsName(name: seq<Byte>) {
    |name| < NAME_BYTES && forall i :: 0 <= i < |name| ==> name[i] != 0
  }

  function ZeroBytes(n: nat): (bs: seq<Byte>)
    ensures |bs| == n
    ensures forall i :: 0 <= i < n ==> bs[i] == 0
    decreases n
  {
    if n == 0 then [] else [0] + ZeroBytes(n - 1)
  }

  /** strncpy(buf, name, 256), seen as words. */
  function NameWords(name: seq<Byte>): (ws: seq<Word>)
    requires IsName(name)
    ensures |ws| == NAME_BYTES / WORD_BYTES
  {
    Pack(name + ZeroBytes(NAME_BYTES - |name|))
  }

  /** The stored bytes: the characters first, then zeros. */
  lemma StoredNameAt(name: seq<Byte>, k: nat)
    requires IsName(name) && k < 256
    ensures |Unpack(NameWords(name))| == 256 && Unpack(NameWords(name))[k] == if k < |name| then name[k] else 0
  {
    hide Pack, Unpack;
    UnpackPack(name + ZeroBytes(NAME_BYTES - |name|));
  }

  /** What a reader of a C string sees: the bytes before the first zero. */
  function CString(bs: seq<Byte>): (s: seq<Byte>)
    ensures |s| <= |bs| && s == bs[..|s|] && (forall i :: 0 <= i < |s| ==> s[i] != 0)
    ensures |s| < |bs| ==> bs[|s|] == 0
    decreases bs
  {
    if bs == [] || bs[0] == 0 then [] else [bs[0]] + CString(bs[1..])
  }

  /** A stored name reads back as the name. */
  lemma StoredNameReadsBack(name: seq<Byte>)
    requires IsName(name)
    ensures CString(Unpack(NameWords(name))) == name
  {
    hide NameWords, Unpack;
    var bs := Unpack(NameWords(name));
    forall k: nat | k < 256 ensures |bs| == 256 && bs[k] == if k < |name| then name[k] else 0 {
      StoredNameAt(name, k);
    }
    var s := CString(bs);
    assert bs[..|name|] == name && bs[|name|] == 0;
    assert |s| == |name|;
  }

  /** Comparing stored names word by word decides equality of the names, as strncmp over 256 bytes does. */
  lemma NameWordsInjective(a: seq<Byte>, b: seq<Byte>)
    requires IsName(a) && IsName(b)
    ensures NameWords(a) == NameWords(b) <==> a == b
  {
    hide Pack, Unpack;
    var pa, pb := a + ZeroBytes(NAME_BYTES - |a|), b + ZeroBytes(NAME_BYTES - |b|);
    UnpackPack(pa);
    UnpackPack(pb);
    assert |a| < |b| ==> pa[|a|] == 0 && pb[|a|] == b[|a|];
    assert |b| < |a| ==> pb[|b|] == 0 && pa[|b|] == a[|b|];
    assert a == pa[..|a|] && b == pb[..|b|];
  }
}
