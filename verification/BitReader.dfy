/**
 The bit reader of the THP decoder, switch/patches/aurora-switch-platform-compat.patch:144-172:
 the loop it had and the shifted four-byte read that replaced it, against the value of a run of
 bits, most significant first. A shift is that many doublings or halvings.
 */
module BitReader {
  import opened Sequences
  import opened Endian

  type Word = w: nat | w < U32

  function ShiftRight(x: nat, n: nat): (r: nat)
    ensures r <= x
    decreases n
  {
    if n == 0 then x else ShiftRight(x, n - 1) / 2
  }

  /** A left shift in 32-bit arithmetic. */
  function ShiftLeft(w: Word, n: nat): Word
    decreases n
  {
    if n == 0 then w else ShiftLeft(w, n - 1) * 2 % U32
  }

  /** Bit `i` of the data: bit 7 of a byte comes first. */
  function Bit(data: seq<byte>, i: nat): (b: nat)
    requires i / 8 < |data|
    ensures b < 2
  {
    ShiftRight(data[i / 8], 7 - i % 8) % 2
  }

  /** The `n` bits from `pos` on, as a number. */
  function Bits(data: seq<byte>, pos: nat, n: nat): (v: nat)
    requires pos + n <= 8 * |data|
    decreases n
  {
    if n == 0 then 0 else 2 * Bits(data, pos, n - 1) + Bit(data, pos + n - 1)
  }

  function WordAt(data: seq<byte>, k: nat): Word
    requires k + 4 <= |data|
  {
    Be32(data[k..k + 4])
  }

  /** What the four-byte read computes from the word at the byte position. */
  function Shifted(data: seq<byte>, pos: nat, count: nat): nat
    requires pos / 8 + 4 <= |data| && count <= 32
  {
    ShiftRight(ShiftLeft(WordAt(data, pos / 8), pos % 8), 32 - count)
  }

  // ---------- bits of a word ----------

  function WordBit(w: Word, i: nat): (b: nat)
    requires i < 32
    ensures b < 2
  {
    ShiftRight(w, 31 - i) % 2
  }

  function Pow2(n: nat): (p: nat)
    ensures p >= 1
    decreases n
  {
    if n == 0 then 1 else 2 * Pow2(n - 1)
  }

  lemma Powers()
    ensures Pow2(8) == 0x100 && Pow2(31) == 0x8000_0000 && Pow2(32) == U32
  {
    assert Pow2(4) == 16;
    assert Pow2(8) == 0x100;
    assert Pow2(12) == 0x1000;
    assert Pow2(16) == 0x1_0000;
    assert Pow2(20) == 0x10_0000;
    assert Pow2(24) == 0x100_0000;
    assert Pow2(28) == 0x1000_0000;
    assert Pow2(31) == 0x8000_0000;
  }

  lemma {:induction false} ShiftRightHalf(x: nat, n: nat)
    ensures ShiftRight(x, n + 1) == ShiftRight(x / 2, n)
    decreases n
  {
    if n > 0 {
      ShiftRightHalf(x, n - 1);
    }
  }

  lemma {:induction false} ShiftRightOut(x: nat, n: nat)
    requires x < Pow2(n)
    ensures ShiftRight(x, n) == 0
    decreases n
  {
    if n > 0 {
      ShiftRightHalf(x, n - 1);
      ShiftRightOut(x / 2, n - 1);
    }
  }

  /** A high power of two stays out of the way of the lower bits. */
  lemma {:induction false} ShiftRightAdd(x: nat, n: nat, j: nat)
    requires j <= n
    ensures ShiftRight(x + Pow2(n), j) == ShiftRight(x, j) + Pow2(n - j)
    decreases j
  {
    if j > 0 {
      ShiftRightAdd(x, n, j - 1);
    }
  }

  /** The first bits of a word, one more at a time. */
  lemma TopBit(w: Word, k: nat)
    requires 1 <= k <= 32
    ensures ShiftRight(w, 32 - k) == 2 * ShiftRight(w, 32 - (k - 1)) + WordBit(w, k - 1)
  {
    assert 32 - (k - 1) == (32 - k) + 1;
  }

  /** Doubling a word moves every bit up by one and makes the last one zero. */
  lemma DoubleMoves(w: Word, i: nat)
    requires i < 32
    ensures WordBit(w * 2 % U32, i) == if i < 31 then WordBit(w, i + 1) else 0
  {
    assert ShiftRight(w * 2 % U32, 0) == w * 2 % U32;
    hide ShiftRight, Pow2;
    if i < 31 {
      var low := if w >= 0x8000_0000 then w - 0x8000_0000 else w;
      DoubleDropsTop(w);
      ShiftRightHalf(2 * low, 30 - i);
      assert 2 * low / 2 == low;
      TopBitIsHigh(low, i);
    }
  }

  lemma DoubleDropsTop(w: Word)
    ensures w * 2 % U32 == 2 * if w >= 0x8000_0000 then w - 0x8000_0000 else w
  {
    if w >= 0x8000_0000 {
      assert w * 2 == U32 + 2 * (w - 0x8000_0000);
    }
  }

  /** The first bit of a word is not among the others. */
  lemma TopBitIsHigh(low: nat, i: nat)
    requires i < 31
    ensures ShiftRight(low + 0x8000_0000, 30 - i) % 2 == ShiftRight(low, 30 - i) % 2
  {
    Powers();
    ShiftRightAdd(low, 31, 30 - i);
    assert Pow2(i + 1) == 2 * Pow2(i);
    SameParity(ShiftRight(low, 30 - i), Pow2(i));
    hide ShiftRight, Pow2;
  }

  lemma SameParity(a: nat, b: nat)
    ensures (a + 2 * b) % 2 == a % 2
  {
  }

  /** Shifting a word left moves its bits up and fills with zeros. */
  lemma {:induction false} ShiftLeftMoves(w: Word, off: nat, i: nat)
    requires i < 32
    ensures WordBit(ShiftLeft(w, off), i) == if i + off < 32 then WordBit(w, i + off) else 0
    decreases off
  {
    if off > 0 {
      DoubleMoves(ShiftLeft(w, off - 1), i);
      if i < 31 {
        ShiftLeftMoves(w, off - 1, i + 1);
      }
    }
  }

  // ---------- bits of the data are bits of the word ----------

  /** Below a byte: halving `j` times, for j under 8, leaves the byte's own bit in front. */
  lemma {:induction false} LowByte(hi: nat, b: byte, j: nat)
    requires j <= 8
    ensures ShiftRight(hi * 256 + b, j) == hi * Pow2(8 - j) + ShiftRight(b, j)
    decreases j
  {
    if j == 0 {
      Powers();
    } else {
      LowByte(hi, b, j - 1);
      EvenProduct(hi, Pow2(8 - j));
    }
  }

  lemma EvenProduct(x: nat, y: nat)
    ensures x * (2 * y) == 2 * (x * y)
  {
  }

  lemma LowBit(hi: nat, b: byte, j: nat)
    requires j < 8
    ensures ShiftRight(hi * 256 + b, j) % 2 == ShiftRight(b, j) % 2
  {
    LowByte(hi, b, j);
    assert Pow2(8 - j) == 2 * Pow2(7 - j);
    hide ShiftRight, Pow2;
    EvenProduct(hi, Pow2(7 - j));
    SameParity(ShiftRight(b, j), hi * Pow2(7 - j));
  }

  lemma {:induction false} DropByte(hi: nat, b: byte, j: nat)
    ensures ShiftRight(hi * 256 + b, 8 + j) == ShiftRight(hi, j)
    decreases j
  {
    if j == 0 {
      Powers();
      LowByte(hi, b, 8);
      ShiftRightOut(b, 8);
    } else {
      DropByte(hi, b, j - 1);
    }
  }

  /** Bit `i` of a word is bit i % 8 of its byte i / 8. */
  lemma WordBitIsByteBit(b: seq<byte>, i: nat)
    requires |b| == 4 && i < 32
    ensures WordBit(Be32(b), i) == ShiftRight(b[i / 8], 7 - i % 8) % 2
  {
    hide ShiftRight;
    var w1 := b[0] as nat * 256 + b[1] as nat;
    var w2 := w1 * 256 + b[2] as nat;
    assert Be32(b) == w2 * 256 + b[3];
    var j := 31 - i;
    if i >= 24 {
      LowBit(w2, b[3], j);
    } else if i >= 16 {
      DropByte(w2, b[3], j - 8);
      LowBit(w1, b[2], j - 8);
    } else if i >= 8 {
      DropByte(w2, b[3], j - 8);
      DropByte(w1, b[2], j - 16);
      LowBit(b[0], b[1], j - 16);
    } else {
      DropByte(w2, b[3], j - 8);
      DropByte(w1, b[2], j - 16);
      DropByte(b[0], b[1], j - 24);
    }
  }

  lemma DataBitIsWordBit(data: seq<byte>, k: nat, i: nat)
    requires k + 4 <= |data| && i < 32
    ensures Bit(data, 8 * k + i) == WordBit(WordAt(data, k), i)
  {
    WordBitIsByteBit(data[k..k + 4], i);
    hide ShiftRight, WordBit, Be32;
    assert (8 * k + i) / 8 == k + i / 8 && (8 * k + i) % 8 == i % 8;
    assert data[k..k + 4][i / 8] == data[k + i / 8];
  }

  // ---------- the two reads ----------

  /** The four-byte read returns the run, as long as it lies in the four bytes. */
  lemma {:induction false} ShiftedIsBits(data: seq<byte>, pos: nat, count: nat)
    requires pos / 8 + 4 <= |data| && pos % 8 + count <= 32
    ensures Shifted(data, pos, count) == Bits(data, pos, count)
    decreases count
  {
    hide ShiftRight, ShiftLeft, WordAt, WordBit, Bit;
    var w, off := WordAt(data, pos / 8), pos % 8;
    if count == 0 {
      Powers();
      ShiftRightOut(ShiftLeft(w, off), 32);
    } else {
      ShiftedIsBits(data, pos, count - 1);
      TopBit(ShiftLeft(w, off), count);
      ShiftLeftMoves(w, off, count - 1);
      DataBitIsWordBit(data, pos / 8, off + count - 1);
      assert 8 * (pos / 8) + (off + count - 1) == pos + count - 1;
    }
  }

  /** The four-byte read returns the run whatever the data, given the run and the four bytes. */
  ghost predicate RightOnAllData(pos: nat, count: nat)
    requires count <= 32
  {
    forall data: seq<byte> | pos / 8 + 4 <= |data| && pos + count <= 8 * |data| ::
      Shifted(data, pos, count) == Bits(data, pos, count)
  }

  /** On all data that holds the run and the four bytes, the four-byte read returns the run
      exactly when the run lies in those bytes: further bits would read as zeros. */
  lemma {:induction false} ShiftedExactlyWithinWord(pos: nat, count: nat)
    requires count <= 32
    ensures RightOnAllData(pos, count) <==> pos % 8 + count <= 32
  {
    if pos % 8 + count <= 32 {
      forall data: seq<byte> | pos / 8 + 4 <= |data| && pos + count <= 8 * |data|
        ensures Shifted(data, pos, count) == Bits(data, pos, count)
      {
        ShiftedIsBits(data, pos, count);
      }
    } else {
      OnesLose(pos, count);
    }
  }

  /** On all ones the run ends in a one and the shifted word in a zero. */
  lemma OnesLose(pos: nat, count: nat)
    requires count <= 32 < pos % 8 + count
    ensures exists data: seq<byte> ::
              && pos / 8 + 4 <= |data| && pos + count <= 8 * |data|
              && Shifted(data, pos, count) != Bits(data, pos, count)
  {
    hide ShiftLeft, ShiftRight, Be32;
    var data: seq<byte> := seq(pos / 8 + 5, _ => 255);
    var v := ShiftLeft(WordAt(data, pos / 8), pos % 8);
    TopBit(v, count);
    ShiftLeftMoves(WordAt(data, pos / 8), pos % 8, count - 1);
    assert Shifted(data, pos, count) % 2 == 0;
    LastBitOfOnes(data, pos, count);
  }

  lemma LastBitOfOnes(data: seq<byte>, pos: nat, count: nat)
    requires 1 <= count && pos + count <= 8 * |data| && forall i | 0 <= i < |data| :: data[i] == 255
    ensures Bits(data, pos, count) % 2 == 1
  {
    OnesBit(7 - (pos + count - 1) % 8);
    var before := Bits(data, pos, count - 1);
    assert Bits(data, pos, count) == 2 * before + Bit(data, pos + count - 1);
    hide Bits, ShiftRight;
    assert Bit(data, pos + count - 1) == 1;
    SameParity(1, before);
  }

  lemma OnesBit(j: nat)
    requires j < 8
    ensures ShiftRight(255, j) % 2 == 1
  {
    assert ShiftRight(255, 1) == 127 && ShiftRight(255, 2) == 63 && ShiftRight(255, 3) == 31;
    assert ShiftRight(255, 4) == 15 && ShiftRight(255, 5) == 7 && ShiftRight(255, 6) == 3 && ShiftRight(255, 7) == 1;
  }

  /** Up to 32 bits fit a word. */
  lemma {:induction false} BitsBound(data: seq<byte>, pos: nat, n: nat)
    requires pos + n <= 8 * |data|
    ensures Bits(data, pos, n) < Pow2(n)
    decreases n
  {
    if n > 0 {
      BitsBound(data, pos, n - 1);
    }
  }

  lemma {:induction false} Pow2Monotone(m: nat, n: nat)
    requires m <= n
    ensures Pow2(m) <= Pow2(n)
    decreases n
  {
    if m < n {
      Pow2Monotone(m, n - 1);
    }
  }

  class Reader {
    const data: seq<byte>
    var bitPosition: nat

    constructor (data: seq<byte>, byteOffset: nat)
      ensures this.data == data && bitPosition == byteOffset * 8
    {
      this.data, bitPosition := data, byteOffset * 8;
    }

    /** The read this patch removed: one bit at a time, in 32-bit arithmetic. */
    method ReadByBits(count: nat) returns (value: nat)
      requires bitPosition + count <= 8 * |data|
      modifies this
      ensures bitPosition == old(bitPosition) + count
      ensures value == Bits(data, old(bitPosition), count) % U32
    {
      hide ShiftRight;
      value := 0;
      var i := 0;
      ghost var start := bitPosition;
      while i < count
        invariant i <= count && bitPosition == start + i
        invariant value == Bits(data, start, i) % U32
      {
        var bytePosition := bitPosition / 8;
        ShiftIn(Bits(data, start, i), Bit(data, start + i));
        value := value * 2 % U32 + ShiftRight(data[bytePosition], 7 - bitPosition % 8) % 2;
        bitPosition := bitPosition + 1;
        i := i + 1;
      }
    }

    /** The read that replaced it. It looks at four bytes even where the run needs fewer. */
    method Read(count: nat) returns (value: nat)
      requires count <= 32 && bitPosition + count <= 8 * |data|
      requires count >= 2 ==> bitPosition / 8 + 4 <= |data|
      modifies this
      ensures bitPosition == old(bitPosition) + count
      ensures count < 2 || old(bitPosition) % 8 + count <= 32 ==> value == Bits(data, old(bitPosition), count)
      ensures count >= 2 ==> value == Shifted(data, old(bitPosition), count)
    {
      if count == 0 {
        return 0;
      }
      if count == 1 {
        value := ReadBit();
        return;
      }
      var bytePos, bitOffset := bitPosition / 8, bitPosition % 8;
      if bitOffset + count <= 32 {
        ShiftedIsBits(data, bitPosition, count);
      }
      bitPosition := bitPosition + count;
      var b0, b1, b2, b3 := data[bytePos], data[bytePos + 1], data[bytePos + 2], data[bytePos + 3];
      var val := b0 as nat * 0x100_0000 + b1 as nat * 0x1_0000 + b2 as nat * 0x100 + b3 as nat;
      assert val == WordAt(data, bytePos);
      value := ShiftRight(ShiftLeft(val, bitOffset), 32 - count);
    }

    method ReadBit() returns (value: nat)
      requires bitPosition < 8 * |data|
      modifies this
      ensures bitPosition == old(bitPosition) + 1
      ensures value == Bits(data, old(bitPosition), 1)
    {
      var pos := bitPosition;
      bitPosition := bitPosition + 1;
      value := ShiftRight(data[pos / 8], 7 - pos % 8) % 2;
      assert Bits(data, pos, 0) == 0;
    }
  }

  /** Shifting a bit in at the end, modulo the word size. */
  lemma ShiftIn(v: nat, b: nat)
    requires b < 2
    ensures v % U32 * 2 % U32 + b == (2 * v + b) % U32
  {
    var q, m := v / U32, v % U32;
    assert v == U32 * q + m;
    var r := 2 * m + b;
    if r < U32 {
      Remainder(2 * q, r);
      Remainder(0, 2 * m);
    } else {
      Remainder(2 * q + 1, r - U32);
      Remainder(1, 2 * m - U32);
    }
  }

  lemma Remainder(q: nat, r: Word)
    ensures (U32 * q + r) % U32 == r
  {
  }

  /** For runs of up to 25 bits the new read gives what the loop gave, at every bit position. */
  lemma {:induction false} NewReadIsOldRead(data: seq<byte>, pos: nat, count: nat)
    requires count <= 25 && pos / 8 + 4 <= |data|
    ensures Shifted(data, pos, count) == Bits(data, pos, count) % U32
  {
    hide Bits, Shifted, Pow2;
    ShiftedIsBits(data, pos, count);
    BitsBound(data, pos, count);
    Pow2Monotone(count, 32);
    Powers();
  }
}
