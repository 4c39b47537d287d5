/** UTF-8 as Rust uses it: `str::bytes` gives the encoding of a string, and
    `String::from_utf8` accepts exactly the well-formed byte sequences
    (Table 3-7 of the Unicode Standard, section 3.9): no overlong forms, no
    surrogates, nothing above U+10FFFF. Dafny's `char` is a Unicode scalar
    value, so a `string` is what a Rust `String` holds. */
module Utf8 {
  import opened Wrappers
  import opened Bytes

  /** A continuation byte, 10xxxxxx. */
  predicate IsCont(b: byte)
  {
    0x80 <= b < 0xC0
  }

  /** The 1 to 4 bytes that encode one scalar value. */
  function EncodeChar(c: char): (e: seq<byte>)
    ensures 1 <= |e| <= 4
  {
    var cp := c as int;
    if cp < 0x80 then [cp]
    else if cp < 0x800 then [0xC0 + cp / 64, 0x80 + cp % 64]
    else if cp < 0x10000 then [0xE0 + cp / 4096, 0x80 + (cp / 64) % 64, 0x80 + cp % 64]
    else [0xF0 + cp / 262144, 0x80 + (cp / 4096) % 64, 0x80 + (cp / 64) % 64, 0x80 + cp % 64]
  }

  /** `str::bytes`: the UTF-8 encoding of a string. */
  function Encode(s: string): seq<byte>
  {
    if s == [] then [] else EncodeChar(s[0]) + Encode(s[1..])
  }

  /** A scalar value as a Dafny character. */
  function ScalarChar(cp: int): (c: char)
    requires 0 <= cp < 0xD800 || 0xE000 <= cp < 0x110000
    ensures c as int == cp
  {
    cp as char
  }

  /** The value a two-byte sequence stands for. */
  function Value2(b0: byte, b1: byte): int
  {
    (b0 - 0xC0) * 64 + (b1 - 0x80)
  }

  function Value3(b0: byte, b1: byte, b2: byte): int
  {
    (b0 - 0xE0) * 4096 + (b1 - 0x80) * 64 + (b2 - 0x80)
  }

  function Value4(b0: byte, b1: byte, b2: byte, b3: byte): int
  {
    (b0 - 0xF0) * 262144 + (b1 - 0x80) * 4096 + (b2 - 0x80) * 64 + (b3 - 0x80)
  }

  /** The scalar value at the start of `b` and how many bytes it takes, or
      None when `b` does not start with a well-formed sequence. */
  function DecodeChar(b: seq<byte>): (r: Option<(char, nat)>)
    requires |b| > 0
    ensures r.Some? ==> 1 <= r.value.1 <= |b| && r.value.1 <= 4
  {
    var b0 := b[0];
    if b0 < 0x80 then Some((ScalarChar(b0), 1))
    else if 0xC2 <= b0 < 0xE0 then
      if |b| >= 2 && IsCont(b[1]) then Some((ScalarChar(Value2(b0, b[1])), 2)) else None
    else if 0xE0 <= b0 < 0xF0 then
      if |b| >= 3 && IsCont(b[1]) && IsCont(b[2]) then
        var cp := Value3(b0, b[1], b[2]);
        if cp < 0x800 || (0xD800 <= cp < 0xE000) then None else Some((ScalarChar(cp), 3))
      else None
    else if 0xF0 <= b0 < 0xF5 then
      if |b| >= 4 && IsCont(b[1]) && IsCont(b[2]) && IsCont(b[3]) then
        var cp := Value4(b0, b[1], b[2], b[3]);
        if cp < 0x10000 || cp >= 0x110000 then None else Some((ScalarChar(cp), 4))
      else None
    else None
  }

  /** `String::from_utf8`: the string a well-formed byte sequence encodes,
      or None (Rust's `FromUtf8Error`). */
  function Decode(b: seq<byte>): Option<string>
    decreases |b|
  {
    if b == [] then Some("")
    else
      var first := DecodeChar(b);
      if first.None? then None
      else
        var rest := Decode(b[first.value.1..]);
        if rest.None? then None else Some([first.value.0] + rest.value)
  }

  lemma Encode2(cp: int)
    requires 0x80 <= cp < 0x800
    ensures 0xC2 <= 0xC0 + cp / 64 < 0xE0 && IsCont(0x80 + cp % 64)
    ensures Value2(0xC0 + cp / 64, 0x80 + cp % 64) == cp
  {
  }

  lemma Encode3(cp: int)
    requires 0x800 <= cp < 0x10000
    ensures 0xE0 <= 0xE0 + cp / 4096 < 0xF0 && IsCont(0x80 + (cp / 64) % 64) && IsCont(0x80 + cp % 64)
    ensures Value3(0xE0 + cp / 4096, 0x80 + (cp / 64) % 64, 0x80 + cp % 64) == cp
  {
  }

  lemma Encode4(cp: int)
    requires 0x10000 <= cp < 0x110000
    ensures 0xF0 <= 0xF0 + cp / 262144 < 0xF5
    ensures IsCont(0x80 + (cp / 4096) % 64) && IsCont(0x80 + (cp / 64) % 64) && IsCont(0x80 + cp % 64)
    ensures Value4(0xF0 + cp / 262144, 0x80 + (cp / 4096) % 64, 0x80 + (cp / 64) % 64, 0x80 + cp % 64) == cp
  {
    var q1, q2, q3 := cp / 64, cp / 4096, cp / 262144;
    assert cp == q1 * 64 + cp % 64;
    assert q2 == q1 / 64 && q1 == q2 * 64 + q1 % 64;
    assert q3 == q2 / 64 && q2 == q3 * 64 + q2 % 64;
    assert q3 < 5;
  }

  /** The decoder reads back the character at the front of any encoding. */
  lemma DecodeEncodeChar(c: char, rest: seq<byte>)
    ensures DecodeChar(EncodeChar(c) + rest) == Some((c, |EncodeChar(c)|))
  {
    var cp := c as int;
    var e := EncodeChar(c);
    var b := e + rest;
    assert b[..|e|] == e;
    if cp < 0x80 {
    } else if cp < 0x800 {
      Encode2(cp);
      assert b[0] == e[0] && b[1] == e[1];
    } else if cp < 0x10000 {
      Encode3(cp);
      assert b[0] == e[0] && b[1] == e[1] && b[2] == e[2];
    } else {
      Encode4(cp);
      assert b[0] == e[0] && b[1] == e[1] && b[2] == e[2] && b[3] == e[3];
    }
  }

  /** Decoding the encoding of a string gives the string back. */
  lemma {:induction false} DecodeEncode(s: string)
    ensures Decode(Encode(s)) == Some(s)
  {
    if s != [] {
      var e := EncodeChar(s[0]);
      var b := Encode(s);
      assert b == e + Encode(s[1..]);
      DecodeEncodeChar(s[0], Encode(s[1..]));
      assert b[|e|..] == Encode(s[1..]);
      DecodeEncode(s[1..]);
      assert [s[0]] + s[1..] == s;
    }
  }

  lemma Decode2(b0: byte, b1: byte)
    requires 0xC2 <= b0 < 0xE0 && IsCont(b1)
    ensures 0x80 <= Value2(b0, b1) < 0x800
    ensures 0xC0 + Value2(b0, b1) / 64 == b0 && 0x80 + Value2(b0, b1) % 64 == b1
  {
    DivMod64(Value2(b0, b1), b0 - 0xC0, b1 - 0x80);
  }

  lemma Decode3(b0: byte, b1: byte, b2: byte)
    requires 0xE0 <= b0 < 0xF0 && IsCont(b1) && IsCont(b2)
    ensures Value3(b0, b1, b2) < 0x10000
    ensures 0xE0 + Value3(b0, b1, b2) / 4096 == b0
    ensures 0x80 + (Value3(b0, b1, b2) / 64) % 64 == b1 && 0x80 + Value3(b0, b1, b2) % 64 == b2
  {
    var v := Value3(b0, b1, b2);
    var d0, d1, d2 := b0 - 0xE0, b1 - 0x80, b2 - 0x80;
    DivMod64(v, d0 * 64 + d1, d2);
    DivMod64(v / 64, d0, d1);
    DivMod4096(v, d0, d1 * 64 + d2);
  }

  lemma Decode4(b0: byte, b1: byte, b2: byte, b3: byte)
    requires 0xF0 <= b0 < 0xF5 && IsCont(b1) && IsCont(b2) && IsCont(b3)
    ensures 0xF0 + Value4(b0, b1, b2, b3) / 262144 == b0
    ensures 0x80 + (Value4(b0, b1, b2, b3) / 4096) % 64 == b1
    ensures 0x80 + (Value4(b0, b1, b2, b3) / 64) % 64 == b2 && 0x80 + Value4(b0, b1, b2, b3) % 64 == b3
  {
    var v := Value4(b0, b1, b2, b3);
    var d0, d1, d2, d3 := b0 - 0xF0, b1 - 0x80, b2 - 0x80, b3 - 0x80;
    DivMod64(v, d0 * 4096 + d1 * 64 + d2, d3);
    DivMod64(v / 64, d0 * 64 + d1, d2);
    DivMod4096(v, d0 * 64 + d1, d2 * 64 + d3);
    DivMod64(v / 4096, d0, d1);
    DivMod262144(v, d0, d1 * 4096 + d2 * 64 + d3);
  }

  /** Quotient and remainder by 64, determined by any division identity
      with a remainder in range. */
  lemma DivMod64(v: int, q: int, r: int)
    requires 0 <= r < 64 && v == q * 64 + r
    ensures v / 64 == q && v % 64 == r
  {
  }

  lemma DivMod4096(v: int, q: int, r: int)
    requires 0 <= r < 4096 && v == q * 4096 + r
    ensures v / 4096 == q
  {
  }

  lemma DivMod262144(v: int, q: int, r: int)
    requires 0 <= r < 262144 && v == q * 262144 + r
    ensures v / 262144 == q
  {
  }

  /** Whatever one decoding step accepts is exactly the encoding of the
      character it returns. */
  lemma EncodeDecodeChar(b: seq<byte>)
    requires |b| > 0 && DecodeChar(b).Some?
    ensures EncodeChar(DecodeChar(b).value.0) == b[..DecodeChar(b).value.1]
  {
    var b0 := b[0];
    if b0 < 0x80 {
    } else if 0xC2 <= b0 < 0xE0 {
      Decode2(b0, b[1]);
    } else if 0xE0 <= b0 < 0xF0 {
      Decode3(b0, b[1], b[2]);
    } else {
      Decode4(b0, b[1], b[2], b[3]);
    }
  }

  /** One step of a successful decoding: the first `n` bytes encode the
      first character and the rest decodes to the remaining characters. */
  lemma DecodeFront(b: seq<byte>, s: string) returns (n: nat)
    requires b != [] && Decode(b) == Some(s)
    ensures 1 <= n <= |b| && s != []
    ensures EncodeChar(s[0]) == b[..n] && Decode(b[n..]) == Some(s[1..])
  {
    n := DecodeChar(b).value.1;
    EncodeDecodeChar(b);
  }

  /** `from_utf8` accepts only well-formed input: whatever it accepts is
      the encoding of the string it returns. */
  lemma {:induction false} EncodeDecode(b: seq<byte>, s: string)
    requires Decode(b) == Some(s)
    ensures Encode(s) == b
    decreases |b|
  {
    if b != [] {
      var n := DecodeFront(b, s);
      EncodeDecode(b[n..], s[1..]);
      calc {
        Encode(s);
        EncodeChar(s[0]) + Encode(s[1..]);
        b[..n] + b[n..];
        b;
      }
    }
  }

  predicate IsAscii(s: string)
  {
    forall k :: 0 <= k < |s| ==> s[k] < 0x80 as char
  }

  /** The code units of an ASCII string, one byte per character. */
  function AsciiBytes(s: string): (b: seq<byte>)
    requires IsAscii(s)
    ensures |b| == |s|
  {
    seq(|s|, k requires 0 <= k < |s| => s[k] as int)
  }

  /** An ASCII string is encoded one byte per character (Rust's `b"..."`
      literal of the same text). */
  lemma {:induction false} EncodeAscii(s: string)
    requires IsAscii(s)
    ensures Encode(s) == AsciiBytes(s)
  {
    if s != [] {
      EncodeAscii(s[1..]);
      assert AsciiBytes(s) == [s[0] as int] + AsciiBytes(s[1..]);
    }
  }
}
