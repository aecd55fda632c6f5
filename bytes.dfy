/** Byte-level vocabulary of the archive format: bytes, unsigned 32-bit words,
    and their little-endian encodings (`u32::to_le_bytes` / `u32::from_le_bytes`). */
module Bytes {

  const TWO_32: int := 0x1_0000_0000

  type byte = x: int | 0 <= x < 0x100
  type u32 = x: int | 0 <= x < 0x1_0000_0000

  datatype Option<T> = None | Some(value: T)

  /** `x.to_le_bytes()` for a `u32`. */
  function LeU32(x: u32): (r: seq<byte>)
    ensures |r| == 4
  {
    [x % 0x100, (x / 0x100) % 0x100, (x / 0x1_0000) % 0x100, x / 0x100_0000]
  }

  /** `u32::from_le_bytes` of the four bytes of `s` starting at `i`. */
  function U32At(s: seq<byte>, i: nat): (r: u32)
    requires i + 4 <= |s|
  {
    s[i] as int + 0x100 * s[i + 1] as int + 0x1_0000 * s[i + 2] as int + 0x100_0000 * s[i + 3] as int
  }

  /** Reading back a word that was written little-endian gives the word. */
  lemma {:induction false} U32RoundTrip(x: u32)
    ensures U32At(LeU32(x), 0) == x
  {
    var b := LeU32(x);
    var q1 := x / 0x100;
    var q2 := q1 / 0x100;
    var q3 := q2 / 0x100;
    assert x == b[0] + 0x100 * q1;
    assert q1 == b[1] + 0x100 * q2;
    assert q2 / 0x100 == x / 0x100_0000;
    assert x / 0x1_0000 == q2;
    assert q2 == b[2] + 0x100 * q3;
    assert b[3] == q3;
  }

  /** A word read from a concatenation lies wholly in one part. */
  lemma {:induction false} U32AtAppend(a: seq<byte>, b: seq<byte>, i: nat)
    ensures i + 4 <= |a| ==> U32At(a + b, i) == U32At(a, i)
    ensures i + 4 <= |b| ==> U32At(a + b, |a| + i) == U32At(b, i)
  {
  }
}
