/**
 * What the readers of scan/src/lib.rs make of concrete texts: numbers
 * written in decimal read back (modulo 2^64 for `unsigned_integer`, exactly
 * for every `i64` for `signed_integer`), the radix prefixes, and the
 * leniency of `literal` at the end of a line.
 */
module ScanFacts {
  import opened Wrappers
  import opened Bytes
  import opened Scan

  /** The decimal digits of n, most significant first, with no leading zero. */
  function DecimalText(n: nat): (t: seq<byte>)
    ensures 1 <= |t| && AllDigits(Decimal, t)
    ensures n > 0 ==> t[0] != '0' as int
  {
    if n < 10 then ['0' as int + n] else DecimalText(n / 10) + ['0' as int + n % 10]
  }

  /** The digits DecimalText writes denote n. */
  lemma {:induction false} DecimalValue(n: nat)
    ensures Value(Decimal, DecimalText(n)) == n
  {
    var t := DecimalText(n);
    if n >= 10 {
      DecimalValue(n / 10);
      assert t[..|t| - 1] == DecimalText(n / 10);
    }
  }

  /** No whitespace byte is a digit, in any radix. */
  lemma WhitespaceIsNoDigit(ty: IntType, b: byte)
    requires IsWhitespace(b)
    ensures DigitValue(ty, b).None?
  {
  }

  /**
   * A number written in decimal and followed by whitespace or by the end of
   * the line reads back as itself modulo 2^64, taking exactly its digits.
   */
  lemma UnsignedRoundTrip(n: nat, rest: seq<byte>)
    requires rest == [] || IsWhitespace(rest[0])
    ensures UnsignedValue(DecimalText(n) + rest) == (Some(n % U64_MODULUS), |DecimalText(n)|)
  {
    var t := DecimalText(n);
    if rest != [] {
      WhitespaceIsNoDigit(Decimal, rest[0]);
    }
    if n == 0 {
      assert t == [48];
      ZeroThenBlank(rest);
    } else {
      DigitsThenBlank(t, rest);
      DecimalValue(n);
    }
  }

  /** A lone `0`, then whitespace or nothing, reads as 0 and takes the one byte. */
  lemma ZeroThenBlank(rest: seq<byte>)
    requires rest == [] || IsWhitespace(rest[0])
    ensures UnsignedValue([48] + rest) == (Some(0), 1)
  {
    var v := [48] + rest;
    assert v[1..] == rest;
    if rest != [] {
      WhitespaceIsNoDigit(Decimal, rest[0]);
    }
    DigitRunUnique(Decimal, rest, 0);
  }

  /** Decimal digits without a leading zero, then whitespace or nothing, read as their value modulo 2^64. */
  lemma DigitsThenBlank(t: seq<byte>, rest: seq<byte>)
    requires t != [] && AllDigits(Decimal, t) && t[0] != '0' as int
    requires rest == [] || DigitValue(Decimal, rest[0]).None?
    ensures UnsignedValue(t + rest) == (Some(Value(Decimal, t) % U64_MODULUS), |t|)
  {
    var v := t + rest;
    assert Classification(v) == (Decimal, false, 0);
    assert v[0..] == v && v[..|t|] == t;
    if rest != [] {
      assert v[|t|] == rest[0];
    }
    DigitRunUnique(Decimal, v, |t|);
    AccumulateWraps(Decimal, t);
  }

  /** How `x` is written: a minus sign for a negative number, then its digits. */
  function SignedText(x: int): (t: seq<byte>)
    ensures |t| >= 1
  {
    if x < 0 then ['-' as int] + DecimalText(-x) else DecimalText(x)
  }

  /**
   * Every `i64`, the most negative included, reads back as itself: its
   * magnitude 2^63 wraps to the same bit pattern, and negating that wraps back.
   */
  lemma SignedRoundTrip(x: i64, rest: seq<byte>)
    requires rest == [] || IsWhitespace(rest[0])
    ensures SignedValue(SignedText(x) + rest) == (Some(x), |SignedText(x)|)
  {
    if x < 0 {
      NegativeRoundTrip(x, rest);
    } else {
      var v := DecimalText(x) + rest;
      assert DigitValue(Decimal, v[0]).Some?;
      ExactRoundTrip(x, rest);
      UnsignedSigned(v, x, |DecimalText(x)|);
    }
  }

  /** SignedRoundTrip for a negative `i64`: the minus sign, then the magnitude. */
  lemma NegativeRoundTrip(x: i64, rest: seq<byte>)
    requires x < 0 && (rest == [] || IsWhitespace(rest[0]))
    ensures SignedValue(SignedText(x) + rest) == (Some(x), |SignedText(x)|)
  {
    var m: int := -(x as int);
    var t := DecimalText(m);
    ExactRoundTrip(m, rest);
    NegativeSigned(t, rest, m, |t|);
    assert SignedText(x) == [45] + t;
  }

  /** With no sign in front, `signed_integer` reads what `unsigned_integer` reads, below 2^63. */
  lemma UnsignedSigned(v: seq<byte>, n: int, k: nat)
    requires 0 <= n < 0x8000_0000_0000_0000 && UnsignedValue(v) == (Some(n), k)
    requires v != [] && DigitValue(Decimal, v[0]).Some?
    ensures SignedValue(v) == (Some(n), k)
  {
    assert v[0..] == v;
    SignedOfSign(v, 1, v);
    assert AsI64(n) == n && WrapI64(1 * n) == n;
  }

  /** UnsignedRoundTrip for a number a `u64` holds. */
  lemma ExactRoundTrip(n: nat, rest: seq<byte>)
    requires n < U64_MODULUS && (rest == [] || IsWhitespace(rest[0]))
    ensures UnsignedValue(DecimalText(n) + rest) == (Some(n), |DecimalText(n)|)
  {
    UnsignedRoundTrip(n, rest);
    SmallMod(n);
  }

  lemma SmallMod(n: nat)
    requires n < U64_MODULUS
    ensures n % U64_MODULUS == n
  {
  }

  /** A minus sign before a magnitude m up to 2^63 reads as -m. */
  lemma NegativeSigned(t: seq<byte>, rest: seq<byte>, m: int, k: nat)
    requires 0 < m <= 0x8000_0000_0000_0000 && UnsignedValue(t + rest) == (Some(m), k)
    ensures SignedValue([45] + t + rest) == (Some(-m), 1 + k)
  {
    var v := [45] + t + rest;
    assert v[1..] == t + rest;
    SignedOfSign(v, -1, t + rest);
    NegatedMagnitude(m);
  }

  /** `signed_integer` is `sign` followed by `unsigned_integer` on what the sign leaves. */
  lemma SignedOfSign(v: seq<byte>, s: int, w: seq<byte>)
    requires SignOf(v).0 == s && SignOf(v).1 <= |v| && v[SignOf(v).1..] == w
    ensures var u := UnsignedValue(w);
      SignedValue(v) == (if u.0.Some? then Some(WrapI64(s * AsI64(u.0.value))) else None, |v| - |w| + u.1)
  {
  }

  /** `-1 * (m as i64)`, wrapping, is -m for every magnitude of a negative `i64`, 2^63 included. */
  lemma NegatedMagnitude(m: int)
    requires 0 < m <= 0x8000_0000_0000_0000
    ensures WrapI64(-1 * AsI64(m)) == -m
  {
    if m == 0x8000_0000_0000_0000 {
      assert AsI64(m) == -0x8000_0000_0000_0000;
      assert WrapI64(0x8000_0000_0000_0000) == -0x8000_0000_0000_0000;
    }
  }

  /** After its prefix, `unsigned_integer` takes every digit of `v` when all of `v` after the prefix is digits. */
  lemma UnsignedOfDigits(v: seq<byte>, w: seq<byte>)
    requires var c := Classification(v); c.2 <= |v| && v[c.2..] == w && AllDigits(c.0, w)
    ensures var c := Classification(v);
      UnsignedValue(v) == (if w != [] then Some(Accumulate(c.0, w)) else if c.1 then Some(0) else None, |v|)
  {
    var c := Classification(v);
    DigitRunUnique(c.0, w, |w|);
    assert w[..|w|] == w;
  }

  /** Two digits accumulate to `a * radix + b`, with no wrap-around. */
  lemma AccumulateTwo(ty: IntType, a: byte, b: byte)
    requires DigitValue(ty, a).Some? && DigitValue(ty, b).Some?
    ensures AllDigits(ty, [a, b])
    ensures Accumulate(ty, [a, b]) == DigitValue(ty, a).value * Radix(ty) + DigitValue(ty, b).value
  {
    var da, db, r := DigitValue(ty, a).value, DigitValue(ty, b).value, Radix(ty);
    assert [a, b][..1] == [a] && [a][..0] == [];
    assert Accumulate(ty, [a]) == da by {
      SmallMod(da);
    }
    DigitPairBound(da, db, r);
    SmallMod(da * r + db);
  }

  lemma DigitPairBound(da: nat, db: nat, r: nat)
    requires r == 2 || r == 8 || r == 10 || r == 16
    requires da < r && db < r
    ensures da * r + db < 0x100
  {
  }

  /** `0x1A` is hexadecimal 26, with a digit of each kind; all four bytes are taken. */
  lemma HexExample()
    ensures UnsignedValue(Ascii("0x1A")) == (Some(26), 4)
  {
    var v := Ascii("0x1A");
    assert v == [48, 120, 49, 65] && v[2..] == [49, 65];
    AccumulateTwo(Hex, 49, 65);
    UnsignedOfDigits(v, [49, 65]);
  }

  /** `0o17` is octal 15. */
  lemma OctalExample()
    ensures UnsignedValue(Ascii("0o17")) == (Some(15), 4)
  {
    var v := Ascii("0o17");
    assert v == [48, 111, 49, 55] && v[2..] == [49, 55];
    AccumulateTwo(Octal, 49, 55);
    UnsignedOfDigits(v, [49, 55]);
  }

  /** `0B11` is binary 3: the prefix letter may be upper case. */
  lemma BinaryExample()
    ensures UnsignedValue(Ascii("0B11")) == (Some(3), 4)
  {
    var v := Ascii("0B11");
    assert v == [48, 66, 49, 49] && v[2..] == [49, 49];
    AccumulateTwo(Binary, 49, 49);
    UnsignedOfDigits(v, [49, 49]);
  }

  /** A leading zero does not mean octal: `017` is decimal 17. */
  lemma LeadingZeroExample()
    ensures UnsignedValue(Ascii("017")) == (Some(17), 3)
  {
    var v := Ascii("017");
    assert v == [48, 49, 55] && v[1..] == [49, 55];
    AccumulateTwo(Decimal, 49, 55);
    UnsignedOfDigits(v, [49, 55]);
  }

  /** `0x` with no digit after it is no number, though both of its bytes are taken. */
  lemma BarePrefixExample()
    ensures UnsignedValue(Ascii("0x")) == (None, 2)
  {
    var v := Ascii("0x");
    assert v == [48, 120] && v[2..] == [];
    UnsignedOfDigits(v, []);
  }

  /** A sign with nothing after it is no number; the sign is taken. */
  lemma BareSignExample()
    ensures SignedValue(Ascii("-")) == (None, 1)
  {
    var v := Ascii("-");
    assert v == [45] && v[1..] == [];
    UnsignedOfDigits([], []);
  }

  /** A plus sign is taken and reads as 1: `+7` is 7. */
  lemma PlusSevenExample()
    ensures SignedValue(Ascii("+7")) == (Some(7), 2)
  {
    var v := Ascii("+7");
    assert v == [43, 55] && v[1..] == [55] && [55][..0] == [];
    assert AllDigits(Decimal, [55]) && Accumulate(Decimal, [55]) == 7;
    UnsignedOfDigits([55], [55]);
    SignedOfSign(v, 1, [55]);
  }

  /** `0b101` is binary 5: the third digit is accumulated like the first two. */
  lemma Binary101Example()
    ensures UnsignedValue(Ascii("0b101")) == (Some(5), 5)
  {
    var v := Ascii("0b101");
    var w: seq<byte> := [49, 48, 49];
    assert |v| == 5 && v[0] == 48 && v[1] == 98 && v[2] == 49 && v[3] == 48 && v[4] == 49;
    assert v[2..] == w;
    AccumulateBinary101();
    UnsignedOfDigits(v, w);
  }

  /** The binary digits `101` accumulate to 5. */
  lemma AccumulateBinary101()
    ensures AllDigits(Binary, [49, 48, 49]) && Accumulate(Binary, [49, 48, 49]) == 5
  {
    var w: seq<byte> := [49, 48, 49];
    assert w[..2] == [49, 48];
    AccumulateTwo(Binary, 49, 48);
    SmallMod(5);
  }

  /** An empty line holds no number, and nothing is taken. */
  lemma EmptyExample()
    ensures UnsignedValue([]) == (None, 0)
  {
    UnsignedOfDigits([], []);
  }

  /** A byte that is no digit is no number, and it is left in place. */
  lemma NonDigitExample()
    ensures UnsignedValue(Ascii("x")) == (None, 0)
  {
    var v := Ascii("x");
    assert v == [120] && v[0..] == v;
    DigitRunUnique(Decimal, v, 0);
  }

  /**
   * `literal` succeeds when the line ends early: if what is ahead is a proper
   * prefix of `lit`, all of it matches, and Scanner.Literal answers Some(()).
   */
  lemma LiteralAtEndOfLine(lit: seq<byte>, v: seq<byte>)
    requires |v| < |lit| && v == lit[..|v|]
    ensures Matched(lit, v) == |v|
  {
    MatchedUnique(lit, v, |v|);
  }

  /** A literal that is all there: Scanner.Literal answers Some(()) and takes exactly `lit`. */
  lemma LiteralPresent(lit: seq<byte>, rest: seq<byte>)
    ensures Matched(lit, lit + rest) == |lit|
  {
    assert (lit + rest)[..|lit|] == lit[..|lit|];
    MatchedUnique(lit, lit + rest, |lit|);
  }
}
