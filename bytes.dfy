/** Fixed-width unsigned integers and the big-endian byte order of encoding/binary. */
module Bytes {

  type U8 = x: int | 0 <= x < 0x100
  type U16 = x: int | 0 <= x < 0x1_0000
  type U32 = x: int | 0 <= x < 0x1_0000_0000
  type U64 = x: int | 0 <= x < 0x1_0000_0000_0000_0000

  /** A byte of a buffer ([]byte). */
  type Byte = U8

  /** binary.BigEndian.Uint16. */
  function BE16(b: seq<Byte>): U16
    requires |b| == 2
  {
    b[0] as int * 0x100 + b[1] as int
  }

  /** binary.BigEndian.Uint32: the high half first. */
  function BE32(b: seq<Byte>): U32
    requires |b| == 4
  {
    BE16(b[..2]) * 0x1_0000 + BE16(b[2..])
  }

  /** binary.BigEndian.Uint64: the high half first. */
  function BE64(b: seq<Byte>): U64
    requires |b| == 8
  {
    BE32(b[..4]) * 0x1_0000_0000 + BE32(b[4..])
  }

  /** The encoders: binary.BigEndian.PutUint16/32/64. */
  function Put16(x: U16): (b: seq<Byte>)
    ensures |b| == 2 && BE16(b) == x
  {
    [x / 0x100, x % 0x100]
  }

  function Put32(x: U32): (b: seq<Byte>)
    ensures |b| == 4 && BE32(b) == x
  {
    var b := Put16(x / 0x1_0000) + Put16(x % 0x1_0000);
    assert b[..2] == Put16(x / 0x1_0000) && b[2..] == Put16(x % 0x1_0000);
    b
  }

  function Put64(x: U64): (b: seq<Byte>)
    ensures |b| == 8 && BE64(b) == x
  {
    var b := Put32(x / 0x1_0000_0000) + Put32(x % 0x1_0000_0000);
    assert b[..4] == Put32(x / 0x1_0000_0000) && b[4..] == Put32(x % 0x1_0000_0000);
    b
  }

  /** Decoding is injective: every 2-, 4- or 8-byte string is the encoding of its value. */
  lemma Put16OfBE16(b: seq<Byte>)
    requires |b| == 2
    ensures Put16(BE16(b)) == b
  {
    var x := BE16(b);
    assert x / 0x100 == b[0] && x % 0x100 == b[1];
  }

  lemma Put32OfBE32(b: seq<Byte>)
    requires |b| == 4
    ensures Put32(BE32(b)) == b
  {
    var x := BE32(b);
    assert x / 0x1_0000 == BE16(b[..2]) && x % 0x1_0000 == BE16(b[2..]);
    Put16OfBE16(b[..2]);
    Put16OfBE16(b[2..]);
    assert b == b[..2] + b[2..];
  }

  lemma Put64OfBE64(b: seq<Byte>)
    requires |b| == 8
    ensures Put64(BE64(b)) == b
  {
    var x := BE64(b);
    assert x / 0x1_0000_0000 == BE32(b[..4]) && x % 0x1_0000_0000 == BE32(b[4..]);
    Put32OfBE32(b[..4]);
    Put32OfBE32(b[4..]);
    assert b == b[..4] + b[4..];
  }

  /** Slicing facts the parsers need at every step. */
  lemma SliceSplit(b: seq<Byte>, i: nat, j: nat, k: nat)
    requires i <= j <= k <= |b|
    ensures b[i..k] == b[i..j] + b[j..k]
  {
  }

  /** Arithmetic facts the digest splitters use to keep their slices in range. */
  lemma MulLe(a: nat, b: nat, c: nat)
    requires a <= b
    ensures a * c <= b * c
  {
  }

  lemma DivMul(a: nat, size: nat)
    requires size > 0
    ensures (a / size) * size <= a
    ensures a % size == 0 ==> (a / size) * size == a
  {
  }

  /** A multiple of size divides exactly: the quotient is the multiplier, the remainder zero. */
  lemma MulDivExact(n: nat, size: nat)
    requires size > 0
    ensures (n * size) % size == 0 && (n * size) / size == n
  {
    var a := n * size;
    var q, r := a / size, a % size;
    assert a == q * size + r && 0 <= r < size;
    if q < n {
      MulLe(q + 1, n, size);
    } else if q > n {
      MulLe(n + 1, q, size);
    }
  }
}
