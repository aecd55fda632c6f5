/** UTF-8, as Rust's `str::as_bytes` writes it and `String::from_utf8` accepts it:
    shortest forms only, no surrogates, nothing above U+10FFFF. */
module Utf8 {
  import opened Bytes

  predicate IsAscii(s: string) {
    forall i :: 0 <= i < |s| ==> s[i] as int < 0x80
  }

  /** The one to four bytes that encode `c`. */
  function EncodeChar(c: char): (r: seq<byte>)
    ensures 1 <= |r| <= 4
    ensures |r| == 1 <==> c as int < 0x80
    ensures c as int < 0x80 ==> r == [c as int]
  {
    var cp := c as int;
    if cp < 0x80 then [cp]
    else if cp < 0x800 then [0xC0 + cp / 0x40, 0x80 + cp % 0x40]
    else if cp < 0x1_0000 then [0xE0 + cp / 0x1000, 0x80 + (cp / 0x40) % 0x40, 0x80 + cp % 0x40]
    else [0xF0 + cp / 0x4_0000, 0x80 + (cp / 0x1000) % 0x40, 0x80 + (cp / 0x40) % 0x40, 0x80 + cp % 0x40]
  }

  /** `s.as_bytes()`. */
  function Encode(s: string): seq<byte>
  {
    if s == [] then [] else EncodeChar(s[0]) + Encode(s[1..])
  }

  predicate IsCont(b: byte) { 0x80 <= b < 0xC0 }

  /** The number of bytes of the well-formed sequence that starts `b`, or 0 when
      `b` does not start with one. */
  function SeqLen(b: seq<byte>): (n: nat)
    requires |b| > 0
    ensures n <= 4 && n <= |b|
  {
    var b0 := b[0];
    if b0 < 0x80 then 1
    else if 0xC2 <= b0 <= 0xDF then
      if |b| >= 2 && IsCont(b[1]) then 2 else 0
    else if b0 == 0xE0 then
      if |b| >= 3 && 0xA0 <= b[1] < 0xC0 && IsCont(b[2]) then 3 else 0
    else if 0xE1 <= b0 <= 0xEC || 0xEE <= b0 <= 0xEF then
      if |b| >= 3 && IsCont(b[1]) && IsCont(b[2]) then 3 else 0
    else if b0 == 0xED then
      if |b| >= 3 && 0x80 <= b[1] < 0xA0 && IsCont(b[2]) then 3 else 0
    else if b0 == 0xF0 then
      if |b| >= 4 && 0x90 <= b[1] < 0xC0 && IsCont(b[2]) && IsCont(b[3]) then 4 else 0
    else if 0xF1 <= b0 <= 0xF3 then
      if |b| >= 4 && IsCont(b[1]) && IsCont(b[2]) && IsCont(b[3]) then 4 else 0
    else if b0 == 0xF4 then
      if |b| >= 4 && 0x80 <= b[1] < 0x90 && IsCont(b[2]) && IsCont(b[3]) then 4 else 0
    else 0
  }

  /** The scalar value of the well-formed sequence that starts `b`. */
  function DecodeChar(b: seq<byte>): char
    requires |b| > 0 && SeqLen(b) > 0
  {
    var n := SeqLen(b);
    var b0 := b[0] as int;
    if n == 1 then b0 as char
    else if n == 2 then ((b0 - 0xC0) * 0x40 + (b[1] as int - 0x80)) as char
    else if n == 3 then
      ((b0 - 0xE0) * 0x1000 + (b[1] as int - 0x80) * 0x40 + (b[2] as int - 0x80)) as char
    else
      ((b0 - 0xF0) * 0x4_0000 + (b[1] as int - 0x80) * 0x1000 + (b[2] as int - 0x80) * 0x40
        + (b[3] as int - 0x80)) as char
  }

  /** `String::from_utf8(b)`: `None` exactly when `b` is not well-formed UTF-8. */
  function Decode(b: seq<byte>): Option<string>
    decreases |b|
  {
    if b == [] then Some("")
    else
      var n := SeqLen(b);
      if n == 0 then None
      else match Decode(b[n..])
        case None => None
        case Some(rest) => Some([DecodeChar(b)] + rest)
  }

  lemma {:induction false} EncodeAppend(a: string, b: string)
    ensures Encode(a + b) == Encode(a) + Encode(b)
  {
    if a == [] {
      assert a + b == b;
    } else {
      assert (a + b)[1..] == a[1..] + b;
      EncodeAppend(a[1..], b);
    }
  }

  /** A trailing NUL character encodes as one zero byte. */
  lemma {:induction false} EncodeNulTerminated(s: string)
    ensures Encode(s + ['\0']) == Encode(s) + [0]
  {
    EncodeAppend(s, ['\0']);
    assert Encode(['\0']) == [0];
  }

  /** Encoding never shortens a string, and keeps its length exactly when every
      character is ASCII: the count of `chars()` and of `as_bytes()` agree only
      for ASCII names. */
  lemma {:induction false} EncodeLength(s: string)
    ensures |Encode(s)| >= |s|
    ensures |Encode(s)| == |s| <==> IsAscii(s)
  {
    if s != [] {
      EncodeLength(s[1..]);
      if IsAscii(s[1..]) && s[0] as int < 0x80 {
        assert IsAscii(s) by {
          forall i | 0 <= i < |s| ensures s[i] as int < 0x80 {
            if i > 0 { assert s[i] == s[1..][i - 1]; }
          }
        }
      }
      if IsAscii(s) {
        assert IsAscii(s[1..]) by {
          forall i | 0 <= i < |s| - 1 ensures s[1..][i] as int < 0x80 {
            assert s[1..][i] == s[i + 1];
          }
        }
      }
    }
  }

  /** The bytes of an ASCII string are its character codes. */
  lemma {:induction false} EncodeAscii(s: string)
    requires IsAscii(s)
    ensures |Encode(s)| == |s|
    ensures forall i :: 0 <= i < |s| ==> Encode(s)[i] == s[i] as int
  {
    EncodeLength(s);
    if s != [] {
      assert IsAscii(s[1..]) by {
        forall i | 0 <= i < |s| - 1 ensures s[1..][i] as int < 0x80 {
          assert s[1..][i] == s[i + 1];
        }
      }
      EncodeAscii(s[1..]);
      forall i | 0 <= i < |s| ensures Encode(s)[i] == s[i] as int {
        if i > 0 { assert Encode(s)[i] == Encode(s[1..])[i - 1]; }
      }
    }
  }

  /** `String::from_utf8(s.as_bytes())` gives `s` back for ASCII strings. */
  lemma {:induction false} AsciiRoundTrip(s: string)
    requires IsAscii(s)
    ensures Decode(Encode(s)) == Some(s)
  {
    if s != [] {
      assert IsAscii(s[1..]) by {
        forall i | 0 <= i < |s| - 1 ensures s[1..][i] as int < 0x80 {
          assert s[1..][i] == s[i + 1];
        }
      }
      AsciiRoundTrip(s[1..]);
      var e := Encode(s);
      assert e == [s[0] as int] + Encode(s[1..]);
      assert SeqLen(e) == 1;
      assert e[1..] == Encode(s[1..]);
      assert DecodeChar(e) == s[0];
      assert [s[0]] + s[1..] == s;
    }
  }
}
