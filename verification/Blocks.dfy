/**
 The unit of disk storage: a block of BSIZE bytes, read as bytes, as little-endian
 32-bit words (the log header and indirect blocks) or as bits (the free map).
 */
module Blocks {

  import opened Basics

  const BSIZE: nat := 512
  const WORDS: nat := 128      // BSIZE / sizeof(uint)
  const BPB: nat := 4096       // bits per block

  type Block = b: seq<Byte> | |b| == 512 witness seq(512, _ => 0)

  /** A block whose bytes are all `x`, as memset leaves it. */
  function FilledBlock(x: Byte): (b: Block)
    ensures forall i :: 0 <= i < 512 ==> b[i] == x
  {
    seq(512, _ => x)
  }

  const ZERO_BLOCK: Block := FilledBlock(0)

  /** The 32-bit word at word index `i`, least significant byte first. */
  function Word(b: Block, i: nat): (w: Uint)
    requires i < WORDS
  {
    (b[4 * i] as int) + 0x100 * (b[4 * i + 1] as int)
    + 0x1_0000 * (b[4 * i + 2] as int) + 0x100_0000 * (b[4 * i + 3] as int)
  }

  /** The bytes of a word. */
  lemma Digits(w: Uint)
    ensures w / 0x100 / 0x100 / 0x100 < 0x100
    ensures w == w % 0x100 + 0x100 * (w / 0x100 % 0x100) + 0x1_0000 * (w / 0x100 / 0x100 % 0x100)
                 + 0x100_0000 * (w / 0x100 / 0x100 / 0x100)
  {
    var a := w / 0x100;
    var c := a / 0x100;
    assert w == 0x100 * a + w % 0x100;
    assert a == 0x100 * c + a % 0x100;
    assert c == 0x100 * (c / 0x100) + c % 0x100;
  }

  function SetWord(b: Block, i: nat, w: Uint): (b': Block)
    requires i < WORDS
    ensures Word(b', i) == w
    ensures forall j: nat :: j < WORDS && j != i ==> Word(b', j) == Word(b, j)
  {
    Digits(w);
    b[4 * i := w % 0x100][4 * i + 1 := w / 0x100 % 0x100]
     [4 * i + 2 := w / 0x100 / 0x100 % 0x100][4 * i + 3 := w / 0x100 / 0x100 / 0x100]
  }

  lemma ZeroWord(i: nat)
    requires i < WORDS
    ensures Word(ZERO_BLOCK, i) == 0
  {
  }

  /** The words `ws` stored one after the other from word index `at`. */
  function PutWords(b: Block, at: nat, ws: seq<Uint>): (b': Block)
    requires at + |ws| <= WORDS
    ensures forall j: nat :: j < WORDS ==> Word(b', j) == if at <= j < at + |ws| then ws[j - at] else Word(b, j)
    decreases |ws|
  {
    if ws == [] then b else PutWords(SetWord(b, at, ws[0]), at + 1, ws[1..])
  }

  // ---------- bits ----------

  /** 1 << k */
  function Mask(k: nat): nat {
    if k == 0 then 1 else 2 * Mask(k - 1)
  }

  /** (x & (1 << k)) != 0 */
  predicate ByteBit(x: nat, k: nat) {
    if k == 0 then x % 2 == 1 else ByteBit(x / 2, k - 1)
  }

  predicate Bit(b: Block, i: nat)
    requires i < BPB
  {
    ByteBit(b[i / 8], i % 8)
  }

  /** The bit tested is the one of value 2^(i % 8) in byte i / 8. */
  lemma BitValue(b: Block, i: nat)
    requires i < BPB
    ensures Mask(i % 8) == [1, 2, 4, 8, 16, 32, 64, 128][i % 8]
    ensures Bit(b, i) <==> b[i / 8] / [1, 2, 4, 8, 16, 32, 64, 128][i % 8] % 2 == 1
  {
    MaskOfByte();
    BitOf(b[i / 8], i % 8);
  }

  lemma {:induction false} BitOf(x: nat, k: nat)
    ensures Mask(k) > 0 && (ByteBit(x, k) <==> x / Mask(k) % 2 == 1)
  {
    if k > 0 {
      BitOf(x / 2, k - 1);
      HalfThen(x, Mask(k - 1));
    }
  }

  lemma HalfThen(x: nat, m: nat)
    requires m > 0
    ensures x / (2 * m) == x / 2 / m
  {
    var q, r := x / 2 / m, x / 2 % m;
    assert x == 2 * (m * q + r) + x % 2 && 2 * r + x % 2 < 2 * m;
    assert x == (2 * m) * q + (2 * r + x % 2);
    Quotient(x, 2 * m, q, 2 * r + x % 2);
  }

  lemma Quotient(x: nat, d: nat, q: nat, r: nat)
    requires x == d * q + r && r < d
    ensures x / d == q
  {
    var k := x / d;
    assert x == d * k + x % d;
    assert k > q ==> d * k >= d * (q + 1);
    assert k < q ==> d * q >= d * (k + 1);
  }

  lemma {:induction false} ByteSet(x: nat, k: nat, j: nat, top: nat)
    requires k < top && !ByteBit(x, k) && x < Mask(top)
    ensures x + Mask(k) < Mask(top)
    ensures ByteBit(x + Mask(k), j) <==> j == k || ByteBit(x, j)
  {
    if k > 0 {
      ByteSet(x / 2, k - 1, if j > 0 then j - 1 else 0, top - 1);
    }
  }

  lemma {:induction false} ByteClear(x: nat, k: nat, j: nat)
    requires ByteBit(x, k)
    ensures x >= Mask(k)
    ensures ByteBit(x - Mask(k), j) <==> j != k && ByteBit(x, j)
  {
    if k > 0 {
      ByteClear(x / 2, k - 1, if j > 0 then j - 1 else 0);
    }
  }

  lemma MaskOfByte()
    ensures Mask(8) == 256
  {
    assert Mask(6) == 64;
  }

  /** data[i/8] |= 1 << i%8, where the bit is clear. */
  function SetBit(b: Block, i: nat): (b': Block)
    requires i < BPB && !Bit(b, i)
    ensures forall j: nat :: j < BPB ==> (Bit(b', j) <==> j == i || Bit(b, j))
  {
    MaskOfByte();
    ByteSet(b[i / 8], i % 8, 0, 8);
    assert forall j: nat | j < BPB :: (Bit(b[i / 8 := b[i / 8] + Mask(i % 8)], j) <==> j == i || Bit(b, j)) by {
      forall j: nat | j < BPB ensures Bit(b[i / 8 := b[i / 8] + Mask(i % 8)], j) <==> j == i || Bit(b, j) {
        ByteSet(b[i / 8], i % 8, j % 8, 8);
      }
    }
    b[i / 8 := b[i / 8] + Mask(i % 8)]
  }

  /** data[i/8] &= ~(1 << i%8), where the bit is set. */
  function ClearBit(b: Block, i: nat): (b': Block)
    requires i < BPB && Bit(b, i)
    ensures forall j: nat :: j < BPB ==> (Bit(b', j) <==> j != i && Bit(b, j))
  {
    ByteClear(b[i / 8], i % 8, 0);
    assert forall j: nat | j < BPB :: (Bit(b[i / 8 := b[i / 8] - Mask(i % 8)], j) <==> j != i && Bit(b, j)) by {
      forall j: nat | j < BPB ensures Bit(b[i / 8 := b[i / 8] - Mask(i % 8)], j) <==> j != i && Bit(b, j) {
        ByteClear(b[i / 8], i % 8, j % 8);
      }
    }
    b[i / 8 := b[i / 8] - Mask(i % 8)]
  }
}
