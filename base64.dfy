/** Base64 with the standard alphabet and `=` padding (section 4 of
    RFC 4648), as the backend uses it through the `base64` crate's
    `general_purpose::STANDARD` engine. The decoder is strict: the length
    must be a multiple of 4, padding may only close the last quantum, and
    the bits that padding discards must be zero. */
module Base64 {
  import opened Wrappers
  import opened Bytes

  /** A 6-bit group, the value one Base64 character carries. */
  type sextet = x: int | 0 <= x < 64

  /** The character of the standard alphabet (Table 1 of RFC 4648) for `v`. */
  function Symbol(v: sextet): (c: char)
    ensures c != '='
  {
    if v < 26 then ('A' as int + v) as char
    else if v < 52 then ('a' as int + (v - 26)) as char
    else if v < 62 then ('0' as int + (v - 52)) as char
    else if v == 62 then '+'
    else '/'
  }

  /** The value of an alphabet character, or None for any other character. */
  function SymbolValue(c: char): Option<sextet>
  {
    if 'A' <= c <= 'Z' then Some(c as int - 'A' as int)
    else if 'a' <= c <= 'z' then Some(c as int - 'a' as int + 26)
    else if '0' <= c <= '9' then Some(c as int - '0' as int + 52)
    else if c == '+' then Some(62)
    else if c == '/' then Some(63)
    else None
  }

  lemma SymbolRoundTrip(v: sextet)
    ensures SymbolValue(Symbol(v)) == Some(v)
  {
  }

  lemma SymbolValueRoundTrip(c: char)
    requires SymbolValue(c).Some?
    ensures Symbol(SymbolValue(c).value) == c
  {
  }

  /** The byte made of the six bits of `v0` and the top two bits of `v1`. */
  function High(v0: sextet, v1: sextet): byte
  {
    v0 * 4 + v1 / 16
  }

  /** The byte made of the low four bits of `v1` and the top four of `v2`. */
  function Middle(v1: sextet, v2: sextet): byte
  {
    (v1 % 16) * 16 + v2 / 4
  }

  /** The byte made of the low two bits of `v2` and the six bits of `v3`. */
  function Low(v2: sextet, v3: sextet): byte
  {
    (v2 % 4) * 64 + v3
  }

  /** The four sextets of three bytes, most significant bits first. */
  function First(b0: byte): sextet { b0 / 4 }
  function Second(b0: byte, b1: byte): sextet { (b0 % 4) * 16 + b1 / 16 }
  function Third(b1: byte, b2: byte): sextet { (b1 % 16) * 4 + b2 / 64 }
  function Fourth(b2: byte): sextet { b2 % 64 }

  /** The four characters that encode three bytes. */
  function EncodeTriple(b0: byte, b1: byte, b2: byte): string
  {
    [Symbol(First(b0)), Symbol(Second(b0, b1)), Symbol(Third(b1, b2)), Symbol(Fourth(b2))]
  }

  /** Padded encoding: every 3 bytes become 4 characters, and a final
      group of 1 or 2 bytes becomes 2 or 3 characters plus `==` or `=`. */
  function Encode(b: seq<byte>): (s: string)
    decreases |b|
  {
    if |b| == 0 then ""
    else if |b| == 1 then [Symbol(First(b[0])), Symbol(Second(b[0], 0)), '=', '=']
    else if |b| == 2 then [Symbol(First(b[0])), Symbol(Second(b[0], b[1])), Symbol(Third(b[1], 0)), '=']
    else EncodeTriple(b[0], b[1], b[2]) + Encode(b[3..])
  }

  /** The three bytes four alphabet characters stand for. */
  function DecodeFull(c0: char, c1: char, c2: char, c3: char): Option<seq<byte>>
  {
    var v0, v1, v2, v3 := SymbolValue(c0), SymbolValue(c1), SymbolValue(c2), SymbolValue(c3);
    if v0.Some? && v1.Some? && v2.Some? && v3.Some? then
      Some([High(v0.value, v1.value), Middle(v1.value, v2.value), Low(v2.value, v3.value)])
    else None
  }

  /** The last quantum, which may carry one or two `=`; the bits the
      padding drops must be zero. */
  function DecodeLast(c0: char, c1: char, c2: char, c3: char): Option<seq<byte>>
  {
    var v0, v1, v2 := SymbolValue(c0), SymbolValue(c1), SymbolValue(c2);
    if c2 == '=' && c3 == '=' then
      if v0.Some? && v1.Some? && v1.value % 16 == 0 then Some([High(v0.value, v1.value)]) else None
    else if c3 == '=' then
      if v0.Some? && v1.Some? && v2.Some? && v2.value % 4 == 0 then
        Some([High(v0.value, v1.value), Middle(v1.value, v2.value)])
      else None
    else DecodeFull(c0, c1, c2, c3)
  }

  function DecodeQuads(s: string): Option<seq<byte>>
    requires |s| % 4 == 0
    decreases |s|
  {
    if s == [] then Some([])
    else if |s| == 4 then DecodeLast(s[0], s[1], s[2], s[3])
    else
      var head, tail := DecodeFull(s[0], s[1], s[2], s[3]), DecodeQuads(s[4..]);
      if head.Some? && tail.Some? then Some(head.value + tail.value) else None
  }

  /** Strict padded decoding; None is the crate's `DecodeError`. */
  function Decode(s: string): Option<seq<byte>>
  {
    if |s| % 4 != 0 then None else DecodeQuads(s)
  }

  /** Splitting three bytes into sextets and joining them again is the identity. */
  lemma TripleArithmetic(b0: byte, b1: byte, b2: byte)
    ensures High(First(b0), Second(b0, b1)) == b0
    ensures Middle(Second(b0, b1), Third(b1, b2)) == b1
    ensures Low(Third(b1, b2), Fourth(b2)) == b2
    ensures Third(b1, 0) % 4 == 0 && Second(b0, 0) % 16 == 0
  {
  }

  lemma DecodeTriple(b0: byte, b1: byte, b2: byte)
    ensures var t := EncodeTriple(b0, b1, b2);
      DecodeFull(t[0], t[1], t[2], t[3]) == Some([b0, b1, b2])
  {
    SymbolRoundTrip(First(b0));
    SymbolRoundTrip(Second(b0, b1));
    SymbolRoundTrip(Third(b1, b2));
    SymbolRoundTrip(Fourth(b2));
    TripleArithmetic(b0, b1, b2);
  }

  /** A string of one quantum is decoded as the last quantum. */
  lemma DecodeSingleQuad(s: string)
    requires |s| == 4
    ensures Decode(s) == DecodeLast(s[0], s[1], s[2], s[3])
  {
  }

  lemma DecodeTwoPads(c0: char, c1: char)
    requires SymbolValue(c0).Some? && SymbolValue(c1).Some? && SymbolValue(c1).value % 16 == 0
    ensures DecodeLast(c0, c1, '=', '=') == Some([High(SymbolValue(c0).value, SymbolValue(c1).value)])
  {
  }

  lemma DecodeOnePad(c0: char, c1: char, c2: char)
    requires SymbolValue(c0).Some? && SymbolValue(c1).Some? && SymbolValue(c2).Some?
    requires SymbolValue(c2).value % 4 == 0
    ensures DecodeLast(c0, c1, c2, '=')
         == Some([High(SymbolValue(c0).value, SymbolValue(c1).value), Middle(SymbolValue(c1).value, SymbolValue(c2).value)])
  {
    assert c2 != '=';
  }

  lemma DecodeOne(b0: byte)
    ensures Decode(Encode([b0])) == Some([b0])
  {
    var v0, v1 := First(b0), Second(b0, 0);
    var s := Encode([b0]);
    assert s == [Symbol(v0), Symbol(v1), '=', '='];
    assert High(v0, v1) == b0 && v1 % 16 == 0 by { TripleArithmetic(b0, 0, 0); }
    assert SymbolValue(Symbol(v0)) == Some(v0) by { SymbolRoundTrip(v0); }
    assert SymbolValue(Symbol(v1)) == Some(v1) by { SymbolRoundTrip(v1); }
    assert Decode(s) == DecodeLast(Symbol(v0), Symbol(v1), '=', '=') by { DecodeSingleQuad(s); }
    DecodeTwoPads(Symbol(v0), Symbol(v1));
  }

  lemma DecodeTwo(b0: byte, b1: byte)
    ensures Decode(Encode([b0, b1])) == Some([b0, b1])
  {
    var v0, v1, v2 := First(b0), Second(b0, b1), Third(b1, 0);
    var s := Encode([b0, b1]);
    assert s == [Symbol(v0), Symbol(v1), Symbol(v2), '='];
    assert High(v0, v1) == b0 && Middle(v1, v2) == b1 && v2 % 4 == 0 by { TripleArithmetic(b0, b1, 0); }
    assert SymbolValue(Symbol(v0)) == Some(v0) by { SymbolRoundTrip(v0); }
    assert SymbolValue(Symbol(v1)) == Some(v1) by { SymbolRoundTrip(v1); }
    assert SymbolValue(Symbol(v2)) == Some(v2) by { SymbolRoundTrip(v2); }
    assert Decode(s) == DecodeLast(Symbol(v0), Symbol(v1), Symbol(v2), '=') by { DecodeSingleQuad(s); }
    DecodeOnePad(Symbol(v0), Symbol(v1), Symbol(v2));
  }

  /** One full quantum followed by more quanta decodes piecewise. */
  lemma DecodeQuadsStep(s: string)
    requires |s| % 4 == 0 && |s| > 4
    requires DecodeFull(s[0], s[1], s[2], s[3]).Some? && DecodeQuads(s[4..]).Some?
    ensures DecodeQuads(s) == Some(DecodeFull(s[0], s[1], s[2], s[3]).value + DecodeQuads(s[4..]).value)
  {
  }

  /** Every 3 bytes, and a final group of 1 or 2, take 4 characters. */
  lemma {:induction false} EncodeLength(b: seq<byte>)
    ensures |Encode(b)| == 4 * ((|b| + 2) / 3)
    decreases |b|
  {
    if |b| >= 3 {
      EncodeLength(b[3..]);
      assert |Encode(b)| == 4 + |Encode(b[3..])|;
      assert 4 * ((|b| + 2) / 3) == 4 + 4 * ((|b[3..]| + 2) / 3);
    }
  }

  /** Encoding three bytes and then more is the quantum of the three
      followed by the encoding of the rest. */
  lemma EncodeStep(head: seq<byte>, tail: seq<byte>)
    requires |head| == 3
    ensures Encode(head + tail) == EncodeTriple(head[0], head[1], head[2]) + Encode(tail)
  {
    var b := head + tail;
    assert b[3..] == tail;
  }

  /** A last quantum without padding is a full quantum. */
  lemma DecodeUnpadded(c0: char, c1: char, c2: char, c3: char)
    requires c3 != '='
    ensures DecodeLast(c0, c1, c2, c3) == DecodeFull(c0, c1, c2, c3)
  {
  }

  lemma DecodeThree(b0: byte, b1: byte, b2: byte)
    ensures Decode(Encode([b0, b1, b2])) == Some([b0, b1, b2])
  {
    var t := EncodeTriple(b0, b1, b2);
    assert Encode([b0, b1, b2]) == t by { EncodeStep([b0, b1, b2], []); }
    DecodeTriple(b0, b1, b2);
    DecodeSingleQuad(t);
    DecodeUnpadded(t[0], t[1], t[2], t[3]);
  }

  lemma ConsLength(t: string, rest: string)
    requires |t| == 4 && Decode(rest).Some? && rest != []
    ensures |t + rest| % 4 == 0 && |t + rest| > 4
    ensures DecodeQuads((t + rest)[4..]) == Decode(rest)
  {
    var s := t + rest;
    assert s[4..] == rest;
  }

  lemma ConsHead(t: string, rest: string)
    requires |t| == 4
    ensures var s := t + rest; DecodeFull(s[0], s[1], s[2], s[3]) == DecodeFull(t[0], t[1], t[2], t[3])
  {
  }

  /** A full quantum in front of a decodable non-empty string. */
  lemma DecodeCons(t: string, rest: string)
    requires |t| == 4 && DecodeFull(t[0], t[1], t[2], t[3]).Some?
    requires Decode(rest).Some? && rest != []
    ensures Decode(t + rest) == Some(DecodeFull(t[0], t[1], t[2], t[3]).value + Decode(rest).value)
  {
    ConsLength(t, rest);
    ConsHead(t, rest);
    DecodeQuadsStep(t + rest);
  }

  /** The quantum of three bytes in front of a decodable non-empty string. */
  lemma DecodeTripleCons(b0: byte, b1: byte, b2: byte, rest: string)
    requires Decode(rest).Some? && rest != []
    ensures Decode(EncodeTriple(b0, b1, b2) + rest) == Some([b0, b1, b2] + Decode(rest).value)
  {
    var t := EncodeTriple(b0, b1, b2);
    DecodeTriple(b0, b1, b2);
    DecodeCons(t, rest);
  }

  lemma EncodeUnfold(b: seq<byte>)
    requires |b| > 3
    ensures Encode(b) == EncodeTriple(b[0], b[1], b[2]) + Encode(b[3..])
  {
  }

  lemma EncodeNonEmpty(b: seq<byte>)
    requires |b| > 3
    requires Decode(Encode(b[3..])) == Some(b[3..])
    ensures Encode(b[3..]) != []
  {
  }

  lemma DecodeTriplePrefix(b: seq<byte>, rest: string)
    requires |b| > 3
    requires Decode(rest) == Some(b[3..]) && rest != []
    ensures Decode(EncodeTriple(b[0], b[1], b[2]) + rest) == Some(b)
  {
    DecodeTripleCons(b[0], b[1], b[2], rest);
    assert [b[0], b[1], b[2]] + b[3..] == b;
  }

  /** The inductive step: a decodable encoding of the tail extends to the
      encoding of three more bytes. */
  lemma DecodeEncodeStep(b: seq<byte>)
    requires |b| > 3
    requires Decode(Encode(b[3..])) == Some(b[3..])
    ensures Decode(Encode(b)) == Some(b)
  {
    EncodeUnfold(b);
    EncodeNonEmpty(b);
    DecodeTriplePrefix(b, Encode(b[3..]));
  }

  /** Decoding an encoding gives the bytes back. */
  lemma {:induction false} DecodeEncode(b: seq<byte>)
    ensures Decode(Encode(b)) == Some(b)
    decreases |b|
  {
    if |b| == 1 {
      assert b == [b[0]];
      DecodeOne(b[0]);
    } else if |b| == 2 {
      assert b == [b[0], b[1]];
      DecodeTwo(b[0], b[1]);
    } else if |b| == 3 {
      assert b == [b[0], b[1], b[2]];
      DecodeThree(b[0], b[1], b[2]);
    } else if |b| > 3 {
      DecodeEncode(b[3..]);
      DecodeEncodeStep(b);
    }
  }

  /** Joining four sextets into bytes and splitting them again is the identity. */
  lemma QuadArithmetic(v0: sextet, v1: sextet, v2: sextet, v3: sextet)
    ensures First(High(v0, v1)) == v0
    ensures Second(High(v0, v1), Middle(v1, v2)) == v1
    ensures Third(Middle(v1, v2), Low(v2, v3)) == v2
    ensures Fourth(Low(v2, v3)) == v3
  {
  }

  lemma EncodeFullQuad(c0: char, c1: char, c2: char, c3: char)
    requires DecodeFull(c0, c1, c2, c3).Some?
    ensures var b := DecodeFull(c0, c1, c2, c3).value;
      |b| == 3 && EncodeTriple(b[0], b[1], b[2]) == [c0, c1, c2, c3]
  {
    var v0, v1, v2, v3 := SymbolValue(c0).value, SymbolValue(c1).value, SymbolValue(c2).value, SymbolValue(c3).value;
    QuadArithmetic(v0, v1, v2, v3);
    SymbolValueRoundTrip(c0);
    SymbolValueRoundTrip(c1);
    SymbolValueRoundTrip(c2);
    SymbolValueRoundTrip(c3);
  }

  lemma EncodeLastQuad(c0: char, c1: char, c2: char, c3: char)
    requires DecodeLast(c0, c1, c2, c3).Some?
    ensures Encode(DecodeLast(c0, c1, c2, c3).value) == [c0, c1, c2, c3]
  {
    if c2 == '=' && c3 == '=' {
      var v0, v1 := SymbolValue(c0).value, SymbolValue(c1).value;
      QuadArithmetic(v0, v1, 0, 0);
      assert Middle(v1, 0) == 0;
      SymbolValueRoundTrip(c0);
      SymbolValueRoundTrip(c1);
    } else if c3 == '=' {
      var v0, v1, v2 := SymbolValue(c0).value, SymbolValue(c1).value, SymbolValue(c2).value;
      QuadArithmetic(v0, v1, v2, 0);
      assert Low(v2, 0) == 0;
      SymbolValueRoundTrip(c0);
      SymbolValueRoundTrip(c1);
      SymbolValueRoundTrip(c2);
    } else {
      EncodeFullQuad(c0, c1, c2, c3);
      var b := DecodeFull(c0, c1, c2, c3).value;
      assert b[3..] == [];
    }
  }

  /** A decodable string longer than one quantum is a full quantum
      followed by a decodable rest. */
  lemma DecodeSplit(s: string)
    requires |s| > 4 && Decode(s).Some?
    ensures DecodeFull(s[0], s[1], s[2], s[3]).Some? && Decode(s[4..]).Some?
    ensures Decode(s).value == DecodeFull(s[0], s[1], s[2], s[3]).value + Decode(s[4..]).value
  {
  }

  lemma EncodeGlue(s: string, head: seq<byte>, tail: seq<byte>)
    requires |s| > 4 && |head| == 3
    requires EncodeTriple(head[0], head[1], head[2]) == [s[0], s[1], s[2], s[3]]
    requires Encode(tail) == s[4..]
    ensures Encode(head + tail) == s
  {
    EncodeStep(head, tail);
    assert [s[0], s[1], s[2], s[3]] + s[4..] == s;
  }

  lemma EncodeDecodeSingle(s: string)
    requires |s| == 4 && Decode(s).Some?
    ensures Encode(Decode(s).value) == s
  {
    DecodeSingleQuad(s);
    EncodeLastQuad(s[0], s[1], s[2], s[3]);
    assert [s[0], s[1], s[2], s[3]] == s;
  }

  lemma EncodeDecodeStep(s: string)
    requires |s| > 4 && Decode(s).Some?
    requires Decode(s[4..]).Some? ==> Encode(Decode(s[4..]).value) == s[4..]
    ensures Encode(Decode(s).value) == s
  {
    DecodeSplit(s);
    EncodeFullQuad(s[0], s[1], s[2], s[3]);
    EncodeGlue(s, DecodeFull(s[0], s[1], s[2], s[3]).value, Decode(s[4..]).value);
  }

  /** The decoder accepts only canonical encodings: whatever it accepts is
      exactly the encoding of what it returns. */
  lemma {:induction false} EncodeDecode(s: string, v: seq<byte>)
    requires Decode(s) == Some(v)
    ensures Encode(v) == s
    decreases |s|
  {
    if s == [] {
    } else if |s| == 4 {
      EncodeDecodeSingle(s);
    } else {
      DecodeSplit(s);
      EncodeDecode(s[4..], Decode(s[4..]).value);
      EncodeDecodeStep(s);
    }
  }
}
