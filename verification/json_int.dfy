/** A concrete codec for `Int` payloads: JSON's encoding of a top-level integer, the
    decimal digits with a leading minus sign when negative, over Swift's 64-bit `Int`.
    It shows that lawful codecs exist and gives the integer scenarios real bytes. */
module JsonInt {
  import opened Codec

  /** Swift's `Int` on a 64-bit platform. */
  newtype Int64 = x: int | -0x8000_0000_0000_0000 <= x < 0x8000_0000_0000_0000

  const Minus: bv8 := 0x2D
  const Zero: bv8 := 0x30

  predicate IsDigit(c: bv8) {
    Zero <= c <= 0x39
  }

  predicate IsDigitRun(d: Bytes) {
    forall i :: 0 <= i < |d| ==> IsDigit(d[i])
  }

  /** The digits of a JSON integer: at least one, with no leading zero unless the number
      is zero itself. */
  predicate IsMagnitude(d: Bytes) {
    |d| > 0 && IsDigitRun(d) && (|d| == 1 || d[0] != Zero)
  }

  /** The ASCII digits '0' to '9'. */
  const DigitChars: seq<bv8> := [0x30, 0x31, 0x32, 0x33, 0x34, 0x35, 0x36, 0x37, 0x38, 0x39]

  function DigitOf(n: nat): (c: bv8)
    requires n < 10
    ensures IsDigit(c) && c != Minus
    ensures n == 0 <==> c == Zero
  {
    DigitChars[n]
  }

  function ValueOf(c: bv8): (n: nat)
    requires IsDigit(c)
    ensures n < 10
  {
    if c == 0x30 then 0 else if c == 0x31 then 1 else if c == 0x32 then 2
    else if c == 0x33 then 3 else if c == 0x34 then 4 else if c == 0x35 then 5
    else if c == 0x36 then 6 else if c == 0x37 then 7 else if c == 0x38 then 8
    else 9
  }

  /** The decimal digits of `n`, most significant first. */
  function Digits(n: nat): Bytes
    decreases n
  {
    if n < 10 then [DigitOf(n)] else Digits(n / 10) + [DigitOf(n % 10)]
  }

  /** The number a run of decimal digits denotes. */
  function Value(d: Bytes): nat
    requires IsDigitRun(d)
    decreases |d|
  {
    if |d| == 0 then 0 else 10 * Value(d[..|d| - 1]) + ValueOf(d[|d| - 1])
  }

  function Encode(n: Int64): Bytes {
    if n < 0 then [Minus] + Digits(-(n as int)) else Digits(n as int)
  }

  /** Accepts an optional minus sign followed by a JSON integer's digits whose value fits
      in `Int`; rejects everything else. */
  function Decode(p: Bytes): Option<Int64> {
    if |p| > 0 && p[0] == Minus then
      var d := p[1..];
      if IsMagnitude(d) && Value(d) <= 0x8000_0000_0000_0000 then Some((0 - Value(d)) as Int64) else None
    else if IsMagnitude(p) && Value(p) < 0x8000_0000_0000_0000 then Some(Value(p) as Int64)
    else None
  }

  const IntCodec: Codec<Int64> := Codec(Encode, Decode)

  lemma ValueOfDigit(n: nat)
    requires n < 10
    ensures ValueOf(DigitOf(n)) == n
  {
  }

  /** The digits of `n` form a JSON integer that denotes `n`. */
  lemma {:induction false} DigitsDenote(n: nat)
    ensures IsMagnitude(Digits(n))
    ensures Value(Digits(n)) == n
  {
    if n < 10 {
      var d := Digits(n);
      ValueOfDigit(n);
      assert d[..0] == [];
      assert Value(d) == 10 * Value(d[..0]) + ValueOf(d[0]);
    } else {
      DigitsDenote(n / 10);
      var high := Digits(n / 10);
      var last := DigitOf(n % 10);
      var d := high + [last];
      assert Digits(n) == d;
      assert IsDigitRun(d) by {
        forall i | 0 <= i < |d|
          ensures IsDigit(d[i])
        {
          if i < |high| {
            assert d[i] == high[i];
          }
        }
      }
      assert d[..|d| - 1] == high;
      ValueOfDigit(n % 10);
      assert Value(d) == 10 * Value(high) + n % 10;
      assert d[0] == high[0];
      if |high| == 1 {
        assert high[..0] == [];
        assert Value(high) == 10 * Value(high[..0]) + ValueOf(high[0]);
      }
    }
  }

  /** A non-negative integer's encoding is its digits, which decode back to it. */
  lemma DecodeNonNegative(u: Int64)
    requires u >= 0
    ensures Decode(Encode(u)) == Some(u)
  {
    var p := Digits(u as int);
    DigitsDenote(u as int);
    assert Encode(u) == p;
    assert IsDigit(p[0]);
    assert p[0] != Minus;
  }

  /** A negative integer's encoding is a minus sign and the digits of its magnitude. */
  lemma DecodeNegative(u: Int64)
    requires u < 0
    ensures Decode(Encode(u)) == Some(u)
  {
    var m := -(u as int);
    DigitsDenote(m);
    var d := Digits(m);
    var p := [Minus] + d;
    assert Encode(u) == p;
    assert p[0] == Minus && p[1..] == d;
    assert IsMagnitude(d) && Value(d) == m <= 0x8000_0000_0000_0000;
    assert Decode(p) == Some((0 - m) as Int64);
  }

  /** Decoding undoes encoding on every 64-bit integer. */
  lemma IntCodecLawful()
    ensures Lawful(IntCodec)
  {
    forall u: Int64
      ensures IntCodec.decode(IntCodec.encode(u)) == Some(u)
    {
      if u < 0 {
        DecodeNegative(u);
      } else {
        DecodeNonNegative(u);
      }
    }
  }
}
