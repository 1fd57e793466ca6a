/** Fixed-width integers as byte strings, in both byte orders. */
module Endian {
  import opened Sequences

  const U32: nat := 0x1_0000_0000
  const U24: nat := 0x100_0000

  function Be32(b: seq<byte>): (n: nat)
    requires |b| == 4
    ensures n < U32
  {
    b[0] as int * 0x100_0000 + b[1] as int * 0x1_0000 + b[2] as int * 0x100 + b[3] as int
  }

  function Be24(b: seq<byte>): nat
    requires |b| == 3
  {
    b[0] as int * 0x1_0000 + b[1] as int * 0x100 + b[2] as int
  }

  function Le32(b: seq<byte>): (n: nat)
    requires |b| == 4
    ensures n < U32
  {
    Be32([b[3], b[2], b[1], b[0]])
  }

  function ToBe32(n: nat): (b: seq<byte>)
    requires n < U32
    ensures |b| == 4 && Be32(b) == n
  {
    var n1 := n / 0x100;
    var n2 := n1 / 0x100;
    var n3 := n2 / 0x100;
    [n3, n2 % 0x100, n1 % 0x100, n % 0x100]
  }

  /** Both directions: four bytes are the encoding of the number they spell. */
  lemma ToBe32OfBe32(b: seq<byte>)
    requires |b| == 4
    ensures ToBe32(Be32(b)) == b
  {
    var c := ToBe32(Be32(b));
    var x, y := b[0] as int * 0x1_0000 + b[1] as int * 0x100 + b[2] as int, b[0] as int * 0x100 + b[1] as int;
    assert Be32(b) == 0x100 * x + b[3] as int && x == 0x100 * y + b[2] as int;
    assert Be32(b) / 0x100 == x && x / 0x100 == y && y / 0x100 == b[0];
  }

  function ToBe24(n: nat): (b: seq<byte>)
    requires n < U24
    ensures |b| == 3 && Be24(b) == n
  {
    var n1 := n / 0x100;
    var n2 := n1 / 0x100;
    [n2, n1 % 0x100, n % 0x100]
  }

  /** Which byte carries which part of the number: the most significant one comes first, or last. */
  lemma BytesOf32(n: nat)
    requires n < U32
    ensures ToBe32(n) == [n / 0x100_0000, n / 0x1_0000 % 0x100, n / 0x100 % 0x100, n % 0x100]
    ensures ToLe32(n) == [n % 0x100, n / 0x100 % 0x100, n / 0x1_0000 % 0x100, n / 0x100_0000]
  {
    assert n / 0x100 / 0x100 == n / 0x1_0000 && n / 0x1_0000 / 0x100 == n / 0x100_0000;
  }

  function ToLe32(n: nat): (b: seq<byte>)
    requires n < U32
    ensures |b| == 4 && Le32(b) == n
  {
    var b := ToBe32(n);
    [b[3], b[2], b[1], b[0]]
  }
}
