/** Disk blocks as the kernel sees them: BSIZE raw bytes, read either as bytes,
    as 32-bit little-endian words (log header, indirect tables) or as bits (free map). */
module Blocks {
  import opened Common

  const BSIZE := 1024
  const WORDS := 256        // BSIZE / sizeof(uint)
  const BPB := 8192         // bitmap bits per block

  type Block = b: seq<Byte> | |b| == BSIZE witness seq(BSIZE, _ => 0)
  type Word = w: int | 0 <= w < 0x1_0000_0000

  type Disk = seq<Block>

  /** A block of zero bytes. */
  function Zeros(): (b: Block)
    ensures forall i | 0 <= i < BSIZE :: b[i] == 0
  {
    seq(BSIZE, _ => 0)
  }

  /** The j-th 32-bit word of a block, least significant byte first. */
  function GetWord(b: Block, j: nat): (w: Word)
    requires j < WORDS
  {
    b[4*j] + 0x100 * (b[4*j+1] as int) + 0x1_0000 * (b[4*j+2] as int) + 0x100_0000 * (b[4*j+3] as int)
  }

  /** Store w as the j-th 32-bit word of a block. */
  function PutWord(b: Block, j: nat, w: Word): (r: Block)
    requires j < WORDS
    ensures GetWord(r, j) == w
    ensures forall i: nat | i < WORDS && i != j :: GetWord(r, i) == GetWord(b, i)
  {
    var w1 := w / 0x100;
    var w2 := w1 / 0x100;
    var w3 := w2 / 0x100;
    b[4*j := w % 0x100][4*j+1 := w1 % 0x100][4*j+2 := w2 % 0x100][4*j+3 := w3]
  }

  lemma ZeroWords(j: nat)
    requires j < WORDS
    ensures GetWord(Zeros(), j) == 0
  {
  }

  /** x & (1 << k) != 0 */
  predicate HasBit(x: nat, k: nat)
  {
    if k == 0 then x % 2 == 1 else HasBit(x / 2, k - 1)
  }

  /** x | (1 << k) when on, x & ~(1 << k) when not. */
  function WithBit(x: nat, k: nat, on: bool): (r: nat)
  {
    if k == 0 then x - x % 2 + (if on then 1 else 0) else 2 * WithBit(x / 2, k - 1, on) + x % 2
  }

  function Pow2(k: nat): (p: nat) { if k == 0 then 1 else 2 * Pow2(k - 1) }

  /** Writing bit k changes bit k and no other, and does not carry into higher bits. */
  lemma {:induction false} WithBitBits(x: nat, k: nat, on: bool, i: nat)
    ensures HasBit(WithBit(x, k, on), i) == if i == k then on else HasBit(x, i)
  {
    if k > 0 && i > 0 {
      WithBitBits(x / 2, k - 1, on, i - 1);
      assert WithBit(x, k, on) / 2 == WithBit(x / 2, k - 1, on);
    }
  }

  lemma {:induction false} WithBitBound(x: nat, k: nat, on: bool, m: nat)
    requires k < m && x < Pow2(m)
    ensures WithBit(x, k, on) < Pow2(m)
  {
    var half := Pow2(m - 1);
    assert Pow2(m) == 2 * half && x / 2 < half;
    if k == 0 {
      assert WithBit(x, k, on) <= 2 * (x / 2) + 1;
    } else {
      WithBitBound(x / 2, k - 1, on, m - 1);
      assert WithBit(x, k, on) == 2 * WithBit(x / 2, k - 1, on) + x % 2;
    }
  }

  /** data[bi/8] & (1 << bi%8) != 0 */
  predicate GetBit(b: Block, bi: nat)
    requires bi < BPB
  {
    HasBit(b[bi / 8], bi % 8)
  }

  /** data[bi/8] |= 1 << bi%8, or data[bi/8] &= ~(1 << bi%8). */
  function PutBit(b: Block, bi: nat, on: bool): (r: Block)
    requires bi < BPB
  {
    WithBitByte(b[bi / 8], bi % 8, on);
    b[bi / 8 := WithBit(b[bi / 8], bi % 8, on)]
  }

  lemma WithBitByte(x: Byte, k: nat, on: bool)
    requires k < 8
    ensures WithBit(x, k, on) < 256
  {
    assert Pow2(8) == 256;
    WithBitBound(x, k, on, 8);
  }

  /** Writing one bit of a block changes that bit and no other. */
  lemma PutBitBits(b: Block, bi: nat, on: bool, i: nat)
    requires bi < BPB && i < BPB
    ensures GetBit(PutBit(b, bi, on), i) == if i == bi then on else GetBit(b, i)
  {
    WithBitBits(b[bi / 8], bi % 8, on, i % 8);
  }
}
