/** `calculate_hash` (bsatoollib/src/lib.rs:23-50): the 64-bit fingerprint written
    into the archive's hash table. Its shifts are reproduced literally, including the
    `(sum << (32 - n)) | (sum >> n)` step on a 64-bit accumulator, which is not a
    true 64-bit rotation. */
module NameHash {
  import opened Bytes
  import opened Names

  /** `c as u32`: the Unicode scalar value. */
  function CharCode(c: char): bv32 {
    c as bv32
  }

  /** The value of `off` after `k` rounds of `off += 8` (wrapping). */
  function Off(k: nat): bv32 {
    if k == 0 then 0 else Off(k - 1) + 8
  }

  /** One round of the first loop: `sum ^= (c as u32) << (off & 0x1F)`. */
  function LowStep(sum: bv32, c: char, off: bv32): bv32 {
    sum ^ (CharCode(c) << (off & 0x1F))
  }

  /** `sum` after the first loop has handled `k` characters of `cs`. */
  function LowSum(cs: seq<char>, k: nat): bv32
    requires k <= |cs|
  {
    if k == 0 then 0 else LowStep(LowSum(cs, k - 1), cs[k - 1], Off(k - 1))
  }

  /** One round of the second loop: XOR in `temp = (c as u32) << (off & 0x1F)`,
      then the pseudo-rotation by `n = temp & 0x1F` on the 64-bit accumulator. */
  function HighStep(sum: bv64, c: char, off: bv32): bv64 {
    var temp := CharCode(c) << (off & 0x1F);
    var x := sum ^ (temp as bv64);
    var n := (temp & 0x1F) as bv64;
    (x << (32 - n)) | (x >> n)
  }

  /** `sum` after the second loop has handled `k` characters of `cs`. */
  function HighSum(cs: seq<char>, k: nat): bv64
    requires k <= |cs|
  {
    if k == 0 then 0 else HighStep(HighSum(cs, k - 1), cs[k - 1], Off(k - 1))
  }

  /** `l`: `chars().count() as u32 >> 1`. */
  function HalfLen(n: nat): nat {
    (n % TWO_32) / 2
  }

  /** `(low as u64) | (high << 32)`: only the low 32 bits of `high` survive. */
  function Combine(low: bv32, high: bv64): bv64 {
    (low as bv64) | (high << 32)
  }

  /** The hash of `name`: `low` folds the first half of the lower-cased characters,
      `high` all of them. */
  function Hash(name: string): bv64 {
    var cs := AsciiLower(name);
    Combine(LowSum(cs, HalfLen(|cs|)), HighSum(cs, |cs|))
  }

  lemma {:induction false} LowSumNext(cs: seq<char>, k: nat)
    requires k < |cs|
    ensures LowSum(cs, k + 1) == LowStep(LowSum(cs, k), cs[k], Off(k)) && Off(k + 1) == Off(k) + 8
  {
  }

  lemma {:induction false} HighSumNext(cs: seq<char>, k: nat)
    requires k < |cs|
    ensures HighSum(cs, k + 1) == HighStep(HighSum(cs, k), cs[k], Off(k)) && Off(k + 1) == Off(k) + 8
  {
  }

  /** The first loop of `calculate_hash`: fold the first `l` characters. */
  method LowHalf(characters: seq<char>, l: nat) returns (sum: bv32)
    requires l <= |characters|
    ensures sum == LowSum(characters, l)
  {
    sum := 0;
    var off: bv32 := 0;
    var i := 0;
    while i < |characters|
      invariant i <= l
      invariant sum == LowSum(characters, i) && off == Off(i)
    {
      // `i as u32 >= l`; the cast is exact here because `i <= l < 2^31`
      if i >= l {
        break;
      }
      LowSumNext(characters, i);
      sum := LowStep(sum, characters[i], off);
      off := off + 8;
      i := i + 1;
    }
    assert i == l;
  }

  /** The second loop of `calculate_hash`: fold every character. */
  method HighHalf(characters: seq<char>) returns (sum: bv64)
    ensures sum == HighSum(characters, |characters|)
  {
    sum := 0;
    var off: bv32 := 0;
    var j := 0;
    while j < |characters|
      invariant j <= |characters|
      invariant sum == HighSum(characters, j) && off == Off(j)
    {
      HighSumNext(characters, j);
      sum := HighStep(sum, characters[j], off);
      off := off + 8;
      j := j + 1;
    }
  }

  /** `calculate_hash`: lower-case, run both loops, combine. */
  method CalculateHash(name: string) returns (h: bv64)
    ensures h == Hash(name)
  {
    var characters := AsciiLower(name);
    var l := HalfLen(|characters|);
    var low := LowHalf(characters, l);
    var high := HighHalf(characters);
    h := Combine(low, high);
  }

  /** The empty name hashes to zero. */
  lemma {:induction false} HashEmpty()
    ensures Hash("") == 0
  {
  }

  /** The hash sees names only through their ASCII lower-case form. */
  lemma {:induction false} HashIgnoresAsciiCase(s: string, t: string)
    requires AsciiLower(s) == AsciiLower(t)
    ensures Hash(s) == Hash(t)
  {
  }

  lemma {:induction false} HashOfLowered(s: string)
    ensures Hash(AsciiLower(s)) == Hash(s)
  {
    AsciiLowerIdempotent(s);
  }

  /** `LowSum` after `k` characters reads only those characters. */
  lemma {:induction false} LowSumPrefix(cs: seq<char>, ds: seq<char>, k: nat)
    requires k <= |cs| && k <= |ds|
    requires cs[..k] == ds[..k]
    ensures LowSum(cs, k) == LowSum(ds, k)
  {
    if k > 0 {
      assert cs[..k - 1] == cs[..k][..k - 1] && ds[..k - 1] == ds[..k][..k - 1];
      LowSumPrefix(cs, ds, k - 1);
      assert cs[k - 1] == cs[..k][k - 1] && ds[k - 1] == ds[..k][k - 1];
    }
  }

  lemma {:induction false} CombineLow(a: bv32, b: bv64)
    ensures Combine(a, b) & 0xFFFF_FFFF == a as bv64
  {
  }

  /** The low 32 bits of the hash are `LowSum` of the lower-cased first half. */
  lemma {:induction false} LowWord(name: string)
    ensures (Hash(name) & 0xFFFF_FFFF) == LowSum(AsciiLower(name), HalfLen(|name|)) as bv64
  {
    var cs := AsciiLower(name);
    var a := LowSum(cs, HalfLen(|cs|));
    var b := HighSum(cs, |cs|);
    CombineLow(a, b);
  }

  lemma {:induction false} LowerPrefix(s: string, t: string, k: nat)
    requires k <= |s| && k <= |t| && s[..k] == t[..k]
    ensures AsciiLower(s)[..k] == AsciiLower(t)[..k]
  {
    forall i | 0 <= i < k ensures AsciiLower(s)[..k][i] == AsciiLower(t)[..k][i] {
      assert s[i] == s[..k][i] && t[i] == t[..k][i];
    }
  }

  /** Two names of the same length whose first `HalfLen` characters agree have the
      same low 32 bits, whatever their second halves hold. */
  lemma {:induction false} LowWordFirstHalfOnly(s: string, t: string)
    requires |s| == |t|
    requires s[..HalfLen(|s|)] == t[..HalfLen(|t|)]
    ensures (Hash(s) & 0xFFFF_FFFF) == (Hash(t) & 0xFFFF_FFFF)
  {
    var k := HalfLen(|s|);
    LowerPrefix(s, t, k);
    LowSumPrefix(AsciiLower(s), AsciiLower(t), k);
    LowWord(s);
    LowWord(t);
  }
}
