/** Result and option types shared by the whole model. */
module Results {

  datatype Result<+T, +E> = Ok(value: T) | Err(error: E)

  datatype Option<+T> = None | Some(value: T)
}

/**
 * Bytes and the little-endian integers that `struct.pack('<I', ...)` and
 * `struct.unpack('<I', ...)` / `'<H'` produce and consume.
 */
module Bytes {

  type Byte = b: int | 0 <= b < 0x100

  /** The range of the `I` format code; packing a value outside it raises `struct.error`. */
  type U32 = n: int | 0 <= n < 0x1_0000_0000

  type U16 = n: int | 0 <= n < 0x1_0000

  /** Four bytes: one packed `I` or `f` field. */
  type Word = s: seq<Byte> | |s| == 4 witness [0, 0, 0, 0]

  const U32_LIMIT: int := 0x1_0000_0000

  /** Sizes of the packed fields: one `I`, one `f`, and three `f` (4 * 3 bytes) for a point. */
  const UNSIGNED_LONG_INT_BYTES: nat := 4
  const FLOAT_BYTES: nat := 4
  const VEC3_BYTES: nat := 12

  /** `struct.pack('<I', x)`: least significant byte first. */
  function U32ToLe(x: U32): Word
  {
    [x % 0x100, x / 0x100 % 0x100, x / 0x1_0000 % 0x100, x / 0x100_0000]
  }

  /** `struct.unpack('<I', s)[0]`. */
  function LeToU32(s: Word): U32
  {
    s[0] as int + 0x100 * s[1] as int + 0x1_0000 * s[2] as int + 0x100_0000 * s[3] as int
  }

  /** `struct.unpack('<H', s)[0]`. */
  function LeToU16(s: seq<Byte>): U16
    requires |s| == 2
  {
    s[0] as int + 0x100 * s[1] as int
  }

  /** Decoding what was encoded gives the number back. */
  lemma LeToU32Inverts(x: U32)
    ensures LeToU32(U32ToLe(x)) == x
  {
    var a := x / 0x100;
    var b := a / 0x100;
    var c := b / 0x100;
    assert x == x % 0x100 + 0x100 * a;
    assert a == a % 0x100 + 0x100 * b;
    assert b == b % 0x100 + 0x100 * c;
    assert x / 0x1_0000 == b;
    assert x / 0x100_0000 == c;
  }

  /** Encoding what was decoded gives the bytes back: the encoding is a bijection. */
  lemma U32ToLeInverts(s: Word)
    ensures U32ToLe(LeToU32(s)) == s
  {
    var b0, b1, b2, b3: int := s[0], s[1], s[2], s[3];
    var x: int := LeToU32(s);
    var hi := b1 + 0x100 * b2 + 0x1_0000 * b3;
    assert x == b0 + 0x100 * hi;
    assert x % 0x100 == b0 && x / 0x100 == hi;
    var hi2 := b2 + 0x100 * b3;
    assert hi == b1 + 0x100 * hi2;
    assert hi % 0x100 == b1 && hi / 0x100 == hi2;
    assert x / 0x1_0000 == hi2 by {
      assert x == b0 + 0x100 * b1 + 0x1_0000 * hi2;
    }
    assert hi2 % 0x100 == b2 && hi2 / 0x100 == b3;
    assert x / 0x100_0000 == b3 by {
      assert x == b0 + 0x100 * b1 + 0x1_0000 * b2 + 0x100_0000 * b3;
    }
  }
}
