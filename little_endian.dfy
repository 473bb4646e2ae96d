/** Bytes and the little-endian, two's-complement layout of fixed-width
    integers: the canonical byte order of every numeric field. */
module LittleEndian {

  type Byte = b: nat | b < 256

  /** 256^n, the number of values an n-byte unsigned integer can hold. */
  function Pow256(n: nat): (r: nat)
    ensures r >= 1
  {
    if n == 0 then 1 else 256 * Pow256(n - 1)
  }

  lemma Pow256Values()
    ensures Pow256(1) == 0x100
    ensures Pow256(2) == 0x1_0000
    ensures Pow256(4) == 0x1_0000_0000
    ensures Pow256(8) == 0x1_0000_0000_0000_0000
  {
  }

  function Zeros(n: nat): (r: seq<Byte>)
    ensures |r| == n
    ensures forall i :: 0 <= i < n ==> r[i] == 0
  {
    seq(n, _ => 0)
  }

  /** The `width` low-order bytes of `x`, least significant first. Like Rust's
      `as` casts followed by `write_uN`, any higher-order bytes are dropped. */
  function LeBytes(x: nat, width: nat): (r: seq<Byte>)
    ensures |r| == width
  {
    if width == 0 then [] else [x % 256] + LeBytes(x / 256, width - 1)
  }

  /** The unsigned integer whose little-endian bytes are `s`. */
  function LeValue(s: seq<Byte>): (r: nat)
    ensures r < Pow256(|s|)
  {
    if s == [] then 0
    else
      var rest := LeValue(s[1..]);
      assert s[0] + 256 * rest <= 255 + 256 * (Pow256(|s| - 1) - 1);
      s[0] + 256 * rest
  }

  /** Reading back the bytes of a value that fits returns that value. */
  lemma {:induction false} LeValueOfBytes(x: nat, width: nat)
    requires x < Pow256(width)
    ensures LeValue(LeBytes(x, width)) == x
  {
    if width > 0 {
      var s := LeBytes(x, width);
      assert s[1..] == LeBytes(x / 256, width - 1);
      LeValueOfBytes(x / 256, width - 1);
    }
  }

  /** The value of a four-byte string, spelled out term by term. */
  lemma LeValueFour(s: seq<Byte>)
    requires |s| == 4
    ensures LeValue(s) == s[0] as nat + 0x100 * (s[1] as nat) + 0x1_0000 * (s[2] as nat) + 0x100_0000 * (s[3] as nat)
  {
    assert LeValue(s[3..]) == s[3] + 256 * LeValue(s[4..]);
    assert LeValue(s[2..]) == s[2] + 256 * LeValue(s[2..][1..]);
    assert s[2..][1..] == s[3..];
    assert LeValue(s[1..]) == s[1] + 256 * LeValue(s[1..][1..]);
    assert s[1..][1..] == s[2..];
  }

  /** Every byte string is the layout of exactly one value: the encoding is
      canonical. */
  lemma {:induction false} LeBytesOfValue(s: seq<Byte>)
    ensures LeBytes(LeValue(s), |s|) == s
  {
    if s != [] {
      var v := LeValue(s);
      assert v % 256 == s[0] && v / 256 == LeValue(s[1..]);
      LeBytesOfValue(s[1..]);
    }
  }

  /** Half the range of an n-byte integer: the bound of the signed type. */
  function SignedBound(width: nat): (r: nat)
    requires width > 0
    ensures 2 * r == Pow256(width)
  {
    128 * Pow256(width - 1)
  }

  /** The bounds of `i8`, `i16`, `i32` and `i64`. */
  lemma SignedBounds()
    ensures SignedBound(1) == 0x80 && SignedBound(2) == 0x8000
    ensures SignedBound(4) == 0x8000_0000 && SignedBound(8) == 0x8000_0000_0000_0000
  {
    Pow256Values();
    assert Pow256(3) == 0x100_0000;
    assert Pow256(7) == 0x100_0000_0000_0000;
  }

  predicate InSignedRange(x: int, width: nat)
    requires width > 0
  {
    -(SignedBound(width) as int) <= x < SignedBound(width)
  }

  /** Two's complement: the unsigned value whose bytes represent `x`. */
  function Unsigned(x: int, width: nat): (u: nat)
    requires width > 0 && InSignedRange(x, width)
    ensures u < Pow256(width)
    ensures (x >= 0 ==> u == x) && (x < 0 ==> u == x + Pow256(width))
  {
    if x >= 0 then x else x + Pow256(width)
  }

  /** The signed value of an n-byte two's-complement bit pattern. */
  function Signed(u: nat, width: nat): (x: int)
    requires width > 0 && u < Pow256(width)
    ensures InSignedRange(x, width)
    ensures Unsigned(x, width) == u
  {
    if u >= SignedBound(width) then u - Pow256(width) else u
  }

  lemma SignedOfUnsigned(x: int, width: nat)
    requires width > 0 && InSignedRange(x, width)
    ensures Signed(Unsigned(x, width), width) == x
  {
  }

  /** Writes a signed integer in `width` little-endian bytes. */
  function SignedBytes(x: int, width: nat): (r: seq<Byte>)
    requires width > 0 && InSignedRange(x, width)
    ensures |r| == width
  {
    LeBytes(Unsigned(x, width), width)
  }

  /** Reads a signed integer from its little-endian bytes. */
  function SignedValue(s: seq<Byte>): (x: int)
    requires |s| > 0
    ensures InSignedRange(x, |s|)
  {
    Signed(LeValue(s), |s|)
  }

  lemma SignedValueOfBytes(x: int, width: nat)
    requires width > 0 && InSignedRange(x, width)
    ensures SignedValue(SignedBytes(x, width)) == x
  {
    LeValueOfBytes(Unsigned(x, width), width);
  }
}
