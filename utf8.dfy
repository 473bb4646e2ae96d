/** UTF-8, the byte form of every `&str` field. A text segment passes
    `check` only if its bytes are well-formed UTF-8 in the sense of
    section 4 of RFC 3629 (no overlong forms, no surrogates, nothing above
    U+10FFFF). */
module Utf8 {
  import opened LittleEndian

  predicate IsContinuation(b: Byte) {
    0x80 <= b <= 0xBF
  }

  /** The length of the well-formed UTF-8 sequence at the head of `s`, or 0
      when `s` does not start with one. */
  function SequenceLength(s: seq<Byte>): (n: nat)
    ensures n <= |s| && n <= 4
    ensures n > 0 ==> 0 < |s|
  {
    if |s| == 0 then 0
    else if s[0] <= 0x7F then 1
    else if 0xC2 <= s[0] <= 0xDF then
      if 2 <= |s| && IsContinuation(s[1]) then 2 else 0
    else if 0xE0 <= s[0] <= 0xEF then
      var lo := if s[0] == 0xE0 then 0xA0 else 0x80;
      var hi := if s[0] == 0xED then 0x9F else 0xBF;
      if 3 <= |s| && lo <= s[1] <= hi && IsContinuation(s[2]) then 3 else 0
    else if 0xF0 <= s[0] <= 0xF4 then
      var lo := if s[0] == 0xF0 then 0x90 else 0x80;
      var hi := if s[0] == 0xF4 then 0x8F else 0xBF;
      if 4 <= |s| && lo <= s[1] <= hi && IsContinuation(s[2]) && IsContinuation(s[3]) then 4 else 0
    else 0
  }

  /** `s` is a concatenation of well-formed UTF-8 sequences. */
  predicate Valid(s: seq<Byte>)
    decreases |s|
  {
    s == [] || (SequenceLength(s) > 0 && Valid(s[SequenceLength(s)..]))
  }

  /** The UTF-8 sequence of one Unicode scalar value. */
  function EncodeChar(c: char): (r: seq<Byte>)
    ensures 1 <= |r| <= 4
  {
    var x := c as int;
    var y := x / 64;
    var z := y / 64;
    if x < 0x80 then [x]
    else if x < 0x800 then [0xC0 + y, 0x80 + x % 64]
    else if x < 0x1_0000 then [0xE0 + z, 0x80 + y % 64, 0x80 + x % 64]
    else [0xF0 + z / 64, 0x80 + z % 64, 0x80 + y % 64, 0x80 + x % 64]
  }

  /** The bytes of a string, as Rust stores a `&str`. */
  function Encode(s: string): (r: seq<Byte>)
    ensures |s| <= |r| <= 4 * |s|
  {
    if s == [] then [] else EncodeChar(s[0]) + Encode(s[1..])
  }

  /** Six payload bits of a continuation byte. */
  function Payload(b: Byte): int
  {
    b as int - 0x80
  }

  /** The scalar value of the well-formed sequence at the head of `s`. */
  function DecodeChar(s: seq<Byte>): char
    requires SequenceLength(s) > 0
  {
    var n := SequenceLength(s);
    var b0 := s[0] as int;
    if n == 1 then s[0] as char
    else if n == 2 then ((b0 - 0xC0) * 64 + Payload(s[1])) as char
    else if n == 3 then
      var x := ((b0 - 0xE0) * 64 + Payload(s[1])) * 64 + Payload(s[2]);
      assert x < 0xD800 || 0xE000 <= x;
      x as char
    else
      var x := (((b0 - 0xF0) * 64 + Payload(s[1])) * 64 + Payload(s[2])) * 64 + Payload(s[3]);
      assert x < 0x11_0000;
      x as char
  }

  /** The string whose bytes are `s`; decoding stops at the first byte that
      does not start a well-formed sequence. */
  function Decode(s: seq<Byte>): string
    decreases |s|
  {
    if SequenceLength(s) == 0 then [] else [DecodeChar(s)] + Decode(s[SequenceLength(s)..])
  }

  lemma DivMod64(q: int, r: int)
    requires 0 <= r < 64
    ensures (q * 64 + r) / 64 == q && (q * 64 + r) % 64 == r
  {
  }

  /** The sequence of one scalar value is well-formed whatever follows it,
      and decodes back to that scalar value. */
  lemma EncodeCharDecodes(c: char, rest: seq<Byte>)
    ensures SequenceLength(EncodeChar(c) + rest) == |EncodeChar(c)|
    ensures DecodeChar(EncodeChar(c) + rest) == c
  {
    var x := c as int;
    if x < 0x80 {
    } else if x < 0x800 {
      TwoBytesDecode(x, EncodeChar(c) + rest);
    } else if x < 0x1_0000 {
      ThreeBytesDecode(x, EncodeChar(c) + rest);
    } else {
      FourBytesDecode(x, EncodeChar(c) + rest);
    }
  }

  lemma TwoBytesDecode(x: int, s: seq<Byte>)
    requires 0x80 <= x < 0x800 && 2 <= |s|
    requires s[0] == 0xC0 + x / 64 && s[1] == 0x80 + x % 64
    ensures SequenceLength(s) == 2
    ensures DecodeChar(s) as int == x
  {
  }

  lemma ThreeBytesDecode(x: int, s: seq<Byte>)
    requires 0x800 <= x < 0x1_0000 && (x < 0xD800 || 0xE000 <= x) && 3 <= |s|
    requires s[0] == 0xE0 + x / 64 / 64 && s[1] == 0x80 + x / 64 % 64 && s[2] == 0x80 + x % 64
    ensures SequenceLength(s) == 3
    ensures DecodeChar(s) as int == x
  {
  }

  lemma FourBytesDecode(x: int, s: seq<Byte>)
    requires 0x1_0000 <= x < 0x11_0000 && 4 <= |s|
    requires s[0] == 0xF0 + x / 64 / 64 / 64 && s[1] == 0x80 + x / 64 / 64 % 64
    requires s[2] == 0x80 + x / 64 % 64 && s[3] == 0x80 + x % 64
    ensures SequenceLength(s) == 4
    ensures DecodeChar(s) as int == x
  {
  }

  /** `Encode` of a non-empty string: its first character, then the rest. */
  lemma EncodeCons(c: char, rest: string)
    ensures Encode([c] + rest) == EncodeChar(c) + Encode(rest)
  {
    assert ([c] + rest)[1..] == rest;
  }

  /** `Decode` of bytes that start with a well-formed sequence. */
  lemma DecodeCons(s: seq<Byte>)
    requires SequenceLength(s) > 0
    ensures Decode(s) == [DecodeChar(s)] + Decode(s[SequenceLength(s)..])
  {
  }

  /** The bytes of any string pass the UTF-8 check and decode back to it. */
  lemma {:induction false} EncodeValid(s: string)
    ensures Valid(Encode(s))
    ensures Decode(Encode(s)) == s
  {
    if s != [] {
      var e := Encode(s);
      EncodeCharDecodes(s[0], Encode(s[1..]));
      assert e[|EncodeChar(s[0])|..] == Encode(s[1..]);
      EncodeValid(s[1..]);
    }
  }

  /** A well-formed sequence is the encoding of the scalar value it decodes
      to: there is one byte form per scalar value. */
  lemma DecodeCharEncodes(s: seq<Byte>)
    requires SequenceLength(s) > 0
    ensures EncodeChar(DecodeChar(s)) == s[..SequenceLength(s)]
  {
    var n := SequenceLength(s);
    if n == 2 {
      TwoBytesEncode(s);
    } else if n == 3 {
      ThreeBytesEncode(s);
    } else if n == 4 {
      FourBytesEncode(s);
    }
  }

  lemma TwoBytesEncode(s: seq<Byte>)
    requires SequenceLength(s) == 2
    ensures EncodeChar(DecodeChar(s)) == s[..2]
  {
    DivMod64(s[0] as int - 0xC0, Payload(s[1]));
  }

  lemma ThreeBytesEncode(s: seq<Byte>)
    requires SequenceLength(s) == 3
    ensures EncodeChar(DecodeChar(s)) == s[..3]
  {
    var y := (s[0] as int - 0xE0) * 64 + Payload(s[1]);
    DivMod64(y, Payload(s[2]));
    DivMod64(s[0] as int - 0xE0, Payload(s[1]));
  }

  lemma FourBytesEncode(s: seq<Byte>)
    requires SequenceLength(s) == 4
    ensures EncodeChar(DecodeChar(s)) == s[..4]
  {
    var z := (s[0] as int - 0xF0) * 64 + Payload(s[1]);
    var y := z * 64 + Payload(s[2]);
    DivMod64(y, Payload(s[3]));
    DivMod64(z, Payload(s[2]));
    DivMod64(s[0] as int - 0xF0, Payload(s[1]));
  }

  /** Every byte string that passes the check is the encoding of the string
      it decodes to: the check admits exactly the bytes of strings. */
  lemma {:induction false} ValidIsEncoding(s: seq<Byte>)
    requires Valid(s)
    ensures Encode(Decode(s)) == s
  {
    if s != [] {
      var n := SequenceLength(s);
      DecodeCons(s);
      DecodeCharEncodes(s);
      ValidIsEncoding(s[n..]);
      ReencodeStep(s, n, DecodeChar(s), Decode(s[n..]));
    }
  }

  /** The step of `ValidIsEncoding`: the first sequence, then the rest. */
  lemma ReencodeStep(s: seq<Byte>, n: nat, c: char, rest: string)
    requires 0 < n <= |s|
    requires Decode(s) == [c] + rest && EncodeChar(c) == s[..n] && Encode(rest) == s[n..]
    ensures Encode(Decode(s)) == s
  {
    EncodeCons(c, rest);
    assert s[..n] + s[n..] == s;
  }
}
