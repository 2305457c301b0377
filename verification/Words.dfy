/** Disk words and blocks.
    A block is 512 bytes, seen by the file system as 64 little-endian 64-bit words; the same words are
    a free-index node, an indirect block, a directory block or file data depending on who reads them. */
module Words {
  /** Bytes and words of a block. */
  const BLOCK_SIZE := 512
  const BLOCK_WORDS := 64

  type Word = w: int | 0 <= w < 0x1_0000_0000_0000_0000

  type Block = b: seq<Word> | |b| == BLOCK_WORDS witness Zeros(BLOCK_WORDS)

  function Zeros(n: nat): (s: seq<Word>)
    ensures |s| == n
    ensures forall i :: 0 <= i < n ==> s[i] == 0
  {
    if n == 0 then [] else Zeros(n - 1) + [0]
  }

  const ZERO_BLOCK: Block := Zeros(BLOCK_WORDS)

  function SetWord(b: Block, i: nat, w: Word): Block
    requires i < BLOCK_WORDS
  {
    b[i := w]
  }

  /** Reading past the end of the disk file yields zeros (src/block.c clears the buffer). */
  function Get(blocks: seq<Block>, n: nat): Block {
    if n < |blocks| then blocks[n] else ZERO_BLOCK
  }

  function Put(blocks: seq<Block>, n: nat, b: Block): seq<Block> {
    if n < |blocks| then blocks[n := b] else blocks
  }
}
