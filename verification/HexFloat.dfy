/** Hexadecimal floating-point text, as in section 5.12.3 of IEEE 754-2008: what a
    text denotes, read by a parser, and the text that fphex of
    examples/newton-fp/newton.c is meant to write. */
module HexFloat {
  import opened Arith
  import opened Powers

  // ----- digits -----

  function Pow16(n: nat): (p: nat)
    ensures p >= 1
  {
    if n == 0 then 1 else 16 * Pow16(n - 1)
  }

  lemma {:induction false} Pow16Add(a: nat, b: nat)
    ensures Pow16(a + b) == Pow16(a) * Pow16(b)
  {
    if a > 0 {
      Pow16Add(a - 1, b);
      MulAssoc(16, Pow16(a - 1), Pow16(b));
    }
  }

  function HexChar(d: nat): char
    requires d < 16
  {
    if d < 10 then '0' + d as char else 'a' + (d - 10) as char
  }

  predicate IsDecimal(c: char) { '0' <= c <= '9' }

  predicate IsHex(c: char) { IsDecimal(c) || 'a' <= c <= 'f' }

  function DigitValue(c: char): nat {
    if IsDecimal(c) then (c - '0') as nat else if 'a' <= c <= 'f' then (c - 'a') as nat + 10 else 0
  }

  lemma HexCharValue(d: nat)
    requires d < 16
    ensures IsHex(HexChar(d)) && DigitValue(HexChar(d)) == d && (HexChar(d) == '0' <==> d == 0)
  {
  }

  /** The low len hexadecimal digits of n, the most significant first. */
  function HexDigits(n: nat, len: nat): (s: string)
    ensures |s| == len
  {
    if len == 0 then [] else HexDigits(n / 16, len - 1) + [HexChar(n % 16)]
  }

  function HexValue(s: string): nat {
    if s == [] then 0 else 16 * HexValue(s[..|s| - 1]) + DigitValue(s[|s| - 1])
  }

  function DecDigits(n: nat): string {
    if n == 0 then [] else DecDigits(n / 10) + [HexChar(n % 10)]
  }

  function Decimal(n: nat): string { if n == 0 then "0" else DecDigits(n) }

  function DecValue(s: string): nat {
    if s == [] then 0 else 10 * DecValue(s[..|s| - 1]) + DigitValue(s[|s| - 1])
  }

  lemma {:induction false} HexValueOfDigits(n: nat, len: nat)
    requires n < Pow16(len)
    ensures HexValue(HexDigits(n, len)) == n
  {
    if len > 0 {
      var s := HexDigits(n, len);
      assert s[..|s| - 1] == HexDigits(n / 16, len - 1);
      HexCharValue(n % 16);
      HexValueOfDigits(n / 16, len - 1);
    }
  }

  lemma {:induction false} DigitsAreHex(n: nat, len: nat)
    ensures forall c :: c in HexDigits(n, len) ==> IsHex(c)
  {
    if len > 0 {
      HexCharValue(n % 16);
      DigitsAreHex(n / 16, len - 1);
    }
  }

  lemma {:induction false} DecValueOfDigits(n: nat)
    ensures DecValue(DecDigits(n)) == n && forall c :: c in DecDigits(n) ==> IsDecimal(c)
  {
    if n > 0 {
      var s := DecDigits(n);
      assert s[..|s| - 1] == DecDigits(n / 10);
      HexCharValue(n % 10);
      DecValueOfDigits(n / 10);
    }
  }

  lemma DecimalValue(n: nat)
    ensures DecValue(Decimal(n)) == n && Decimal(n) != [] && forall c :: c in Decimal(n) ==> IsDecimal(c)
  {
    DecValueOfDigits(n);
    assert DecValue("0") == 0;
  }

  // ----- trailing zeros -----

  function Strip(s: string): (t: string)
    ensures |t| <= |s| && t == s[..|t|]
  {
    if s != [] && s[|s| - 1] == '0' then Strip(s[..|s| - 1]) else s
  }

  lemma {:induction false} StripValue(s: string)
    ensures HexValue(Strip(s)) * Pow16(|s| - |Strip(s)|) == HexValue(s)
  {
    if s != [] && s[|s| - 1] == '0' {
      var t := s[..|s| - 1];
      StripValue(t);
      var k := |t| - |Strip(t)|;
      MulAssoc(HexValue(Strip(t)), 16, Pow16(k));
      Commute(HexValue(Strip(t)), 16);
      MulAssoc(16, HexValue(Strip(t)), Pow16(k));
    }
  }

  lemma {:induction false} StripNonzero(s: string)
    requires HexValue(s) != 0
    ensures Strip(s) != []
  {
    if s != [] && s[|s| - 1] == '0' {
      StripNonzero(s[..|s| - 1]);
    }
  }

  // ----- the double -----

  /** union ieee754_double */
  datatype Ieee = Ieee(negative: bool, exponent: nat, mantissa0: nat, mantissa1: nat)

  predicate Fields(d: Ieee) { d.exponent < 0x800 && d.mantissa0 < 0x10_0000 && d.mantissa1 < 0x1_0000_0000 }

  predicate Finite(d: Ieee) { Fields(d) && d.exponent < 0x7ff }

  function Num(d: Ieee): (m: nat)
    requires Fields(d)
    ensures m < 0x10_0000_0000_0000
  {
    d.mantissa0 * 0x1_0000_0000 + d.mantissa1
  }

  /** The magnitude in units of 2^-1074 (section 3.4 of IEEE 754-2008). */
  function Units(d: Ieee): nat
    requires Finite(d)
  {
    if d.exponent == 0 then Num(d) else (Pow2(52) + Num(d)) * Pow2(d.exponent - 1)
  }

  // ----- texts -----

  datatype Text = Text(negative: bool, leading: nat, fraction: string, exponent: int)

  datatype Parsed = Bad | Good(text: Text)

  /** The longest prefix of hexadecimal digits. */
  function TakeHex(s: string): (t: string)
    ensures |t| <= |s|
  {
    if s != [] && IsHex(s[0]) then [s[0]] + TakeHex(s[1..]) else []
  }

  /** [-]0xh[.hhh]p(+|-)ddd */
  function Parse(s: string): Parsed {
    if s != [] && s[0] == '-' then ParseUnsigned(true, s[1..]) else ParseUnsigned(false, s)
  }

  function ParseUnsigned(negative: bool, t: string): Parsed {
    if |t| < 4 || t[0] != '0' || t[1] != 'x' || !IsHex(t[2]) then Bad
    else if t[3] == '.' then
      var fraction := TakeHex(t[4..]);
      ParseExponent(negative, DigitValue(t[2]), fraction, t[4 + |fraction|..])
    else
      ParseExponent(negative, DigitValue(t[2]), [], t[3..])
  }

  function ParseExponent(negative: bool, leading: nat, fraction: string, s: string): Parsed {
    if |s| < 3 || s[0] != 'p' || (s[1] != '+' && s[1] != '-') || (exists c :: c in s[2..] && !IsDecimal(c)) then Bad
    else Good(Text(negative, leading, fraction, if s[1] == '-' then 0 - DecValue(s[2..]) else DecValue(s[2..])))
  }

  /** The text stands for leading.fraction * 2^exponent, here in units of 2^-1074 and
      multiplied out. */
  predicate Denotes(t: Text, units: nat) {
    && t.exponent >= -1074
    && units * Pow16(|t.fraction|)
       == (t.leading * Pow16(|t.fraction|) + HexValue(t.fraction)) * Pow2(t.exponent + 1074)
  }

  // ----- what fphex is meant to write -----

  function PrintedExponent(d: Ieee): int
    requires Fields(d)
  {
    if d.exponent == 0 then (if Num(d) == 0 then 0 else -1022) else d.exponent - 1023
  }

  function Fraction(d: Ieee): string
    requires Fields(d)
  {
    if Num(d) == 0 then [] else Strip(HexDigits(Num(d), 13))
  }

  function TextOf(d: Ieee): Text
    requires Fields(d)
  {
    Text(d.negative, if d.exponent == 0 then 0 else 1, Fraction(d), PrintedExponent(d))
  }

  /** The characters, without the terminating NUL. */
  function Written(t: Text, minus: bool): string
    requires t.leading < 16
  {
    (if t.negative then "-" else "") + "0x" + [HexChar(t.leading)]
    + (if t.fraction == [] then "" else "." + t.fraction)
    + "p" + (if minus then "-" else "+")
    + Decimal(if t.exponent < 0 then 0 - t.exponent else t.exponent)
  }

  function Fphex(d: Ieee): string
    requires Fields(d)
  {
    Written(TextOf(d), PrintedExponent(d) < 0)
  }

  // ----- the text denotes the double -----

  lemma {:induction false} TakeHexStops(h: string, u: string)
    requires (forall c :: c in h ==> IsHex(c)) && u != [] && !IsHex(u[0])
    ensures TakeHex(h + u) == h
  {
    if h != [] {
      assert (h + u)[1..] == h[1..] + u;
      TakeHexStops(h[1..], u);
    } else {
      assert h + u == u;
    }
  }

  function Tail(exponent: int): string {
    "p" + (if exponent < 0 then "-" else "+") + Decimal(if exponent < 0 then 0 - exponent else exponent)
  }

  lemma ParseTail(negative: bool, leading: nat, fraction: string, exponent: int)
    ensures ParseExponent(negative, leading, fraction, Tail(exponent))
         == Good(Text(negative, leading, fraction, exponent))
  {
    hide Pow2, Pow16, HexValue;
    var n := if exponent < 0 then 0 - exponent else exponent;
    DecimalValue(n);
    assert Tail(exponent)[2..] == Decimal(n);
  }

  function Head(t: Text): string
    requires t.leading < 16
  {
    "0x" + [HexChar(t.leading)] + (if t.fraction == [] then "" else "." + t.fraction) + Tail(t.exponent)
  }

  lemma WrittenParts(t: Text)
    requires t.leading < 16
    ensures Written(t, t.exponent < 0) == (if t.negative then "-" else "") + Head(t)
  {
  }

  lemma HeadParts(t: Text)
    requires t.leading < 16
    ensures var h := Head(t);
      && |h| >= 4 && h[0] == '0' && h[1] == 'x' && h[2] == HexChar(t.leading)
      && (if t.fraction == [] then h[3..] == Tail(t.exponent)
          else h[3] == '.' && h[4..] == t.fraction + Tail(t.exponent) && h[4 + |t.fraction|..] == Tail(t.exponent))
  {
    var h := Head(t);
    if t.fraction == [] {
      assert h[3..] == Tail(t.exponent);
    } else {
      assert h[4..] == t.fraction + Tail(t.exponent);
      assert h[4 + |t.fraction|..] == Tail(t.exponent);
    }
  }

  lemma ParseHead(t: Text)
    requires t.leading < 16 && forall c :: c in t.fraction ==> IsHex(c)
    ensures ParseUnsigned(t.negative, Head(t)) == Good(t)
  {
    HeadParts(t);
    HexCharValue(t.leading);
    ParseTail(t.negative, t.leading, t.fraction, t.exponent);
    assert Tail(t.exponent)[0] == 'p';
    if t.fraction == [] {
      assert Head(t)[3] == Head(t)[3..][0];
    } else {
      TakeHexStops(t.fraction, Tail(t.exponent));
    }
  }

  lemma ParseWritten(t: Text)
    requires t.leading < 16 && forall c :: c in t.fraction ==> IsHex(c)
    ensures Parse(Written(t, t.exponent < 0)) == Good(t)
  {
    WrittenParts(t);
    ParseHead(t);
    HeadParts(t);
    if t.negative {
      assert ("-" + Head(t))[1..] == Head(t);
    } else {
      assert "" + Head(t) == Head(t);
    }
  }

  lemma FractionOf(d: Ieee)
    requires Fields(d)
    ensures var f := Fraction(d);
      && |f| <= 13 && (forall c :: c in f ==> IsHex(c))
      && HexValue(f) * Pow16(13 - |f|) == Num(d)
  {
    hide Pow16, Pow2;
    Thirteen();
    if Num(d) != 0 {
      var s := HexDigits(Num(d), 13);
      HexValueOfDigits(Num(d), 13);
      StripValue(s);
      DigitsAreHex(Num(d), 13);
      assert forall c :: c in Strip(s) ==> c in s;
    }
  }

  lemma Thirteen()
    ensures Pow16(13) == 0x10_0000_0000_0000 == Pow2(52)
  {
    assert Pow16(6) == 0x100_0000;
    assert Pow16(7) == 0x1000_0000;
    Pow16Add(6, 7);
    Pow2Values();
  }

  lemma Scale(m: nat, f: nat, p: nat, q: nat, t: nat)
    requires m == f * q && p * q == t
    ensures m * p == f * t && (t + m) * p == (p + f) * t
  {
    MulAssoc(f, q, p);
    Commute(p, q);
    MulDistribute(t, m, p);
    MulDistribute(p, f, t);
    Commute(t, p);
  }

  lemma DenotesNormal(d: Ieee, f: nat, p: nat, q: nat)
    requires Finite(d) && d.exponent >= 1 && Num(d) == f * q && p * q == Pow2(52)
    ensures Units(d) * p == (p + f) * Pow2(d.exponent + 51)
  {
    var t, e := Pow2(52), Pow2(d.exponent - 1);
    Scale(Num(d), f, p, q, t);
    Swap(t + Num(d), e, p);
    MulAssoc(p + f, t, e);
    Commute(t, e);
    Pow2Add(d.exponent - 1, 52);
  }

  lemma Swap(x: int, y: int, z: int)
    ensures x * y * z == x * z * y
  {
  }

  lemma TextDenotes(d: Ieee)
    requires Finite(d)
    ensures Denotes(TextOf(d), Units(d))
  {
    hide Pow2, Pow16, HexValue;
    var t := TextOf(d);
    var k, f := |t.fraction|, HexValue(t.fraction);
    FractionOf(d);
    Thirteen();
    Pow16Add(k, 13 - k);
    if d.exponent >= 1 {
      DenotesNormal(d, f, Pow16(k), Pow16(13 - k));
    } else if Num(d) != 0 {
      Scale(Num(d), f, Pow16(k), Pow16(13 - k), Pow2(52));
    } else {
      MulMono(0, 0, Pow2(1074));
    }
  }

  /** For every finite double the text parses, has its sign, and denotes exactly its
      value. */
  lemma FphexDenotes(d: Ieee)
    requires Finite(d)
    ensures Parse(Fphex(d)) == Good(TextOf(d))
    ensures TextOf(d).negative == d.negative && Denotes(TextOf(d), Units(d))
  {
    FractionOf(d);
    ParseWritten(TextOf(d));
    TextDenotes(d);
  }

  /** Distinct finite doubles, zeros of either sign included, have distinct texts. */
  lemma FphexInjective(d: Ieee, e: Ieee)
    requires Finite(d) && Finite(e) && Fphex(d) == Fphex(e)
    ensures d == e
  {
    FphexDenotes(d);
    FphexDenotes(e);
    SameText(d, e);
  }

  lemma SameText(d: Ieee, e: Ieee)
    requires Finite(d) && Finite(e) && TextOf(d) == TextOf(e)
    ensures d == e
  {
    assert Fraction(d) == Fraction(e);
    assert d.exponent == e.exponent;
    FractionOf(d);
    FractionOf(e);
    SameNum(d, e);
  }

  lemma SameNum(d: Ieee, e: Ieee)
    requires Fields(d) && Fields(e) && Num(d) == Num(e)
    ensures d.mantissa0 == e.mantissa0 && d.mantissa1 == e.mantissa1
  {
    DivModUnique(Num(d), d.mantissa0, d.mantissa1, 0x1_0000_0000);
    DivModUnique(Num(e), e.mantissa0, e.mantissa1, 0x1_0000_0000);
  }

  function Pow10(n: nat): (p: nat)
    ensures p >= 1
  {
    if n == 0 then 1 else 10 * Pow10(n - 1)
  }

  lemma {:induction false} DecLength(n: nat, k: nat)
    requires n < Pow10(k)
    ensures |DecDigits(n)| <= k
  {
    if n > 0 {
      DecLength(n / 10, k - 1);
    }
  }

  /** The text and its NUL fit in 25 characters. */
  lemma FphexLength(d: Ieee)
    requires Fields(d)
    ensures |Fphex(d)| <= 24
  {
    var n := if PrintedExponent(d) < 0 then 0 - PrintedExponent(d) else PrintedExponent(d);
    FractionOf(d);
    assert Pow10(4) == 10000;
    DecLength(n, 4);
  }

  // ----- the text is canonical -----

  lemma {:induction false} StripLast(s: string)
    ensures Strip(s) != [] ==> Strip(s)[|Strip(s)| - 1] != '0'
  {
    if s != [] && s[|s| - 1] == '0' { StripLast(s[..|s| - 1]); }
  }

  /** A number written with the fewest digits. */
  lemma {:induction false} DecSize(n: nat)
    requires n > 0
    ensures var k := |DecDigits(n)|; k >= 1 && Pow10(k - 1) <= n < Pow10(k)
  {
    if n >= 10 { DecSize(n / 10); } else { assert DecDigits(n) == [HexChar(n)] && Pow10(1) == 10; }
  }

  function ExponentDigits(t: Text): nat { |Decimal(if t.exponent < 0 then 0 - t.exponent else t.exponent)| }

  lemma CanonicalText(d: Ieee)
    requires Finite(d)
    ensures var t := TextOf(d);
      && t.leading == (if d.exponent == 0 then 0 else 1)
      && t.exponent == (if Units(d) == 0 then 0 else if d.exponent == 0 then -1022 else d.exponent - 1023)
      && (t.fraction != [] ==> t.fraction[|t.fraction| - 1] != '0')
  {
    hide Pow2, HexDigits, Strip;
    StripLast(HexDigits(Num(d), 13));
    if d.exponent != 0 { MulAtLeast(Pow2(52) + Num(d), Pow2(d.exponent - 1)); }
  }

  lemma WrittenLength(t: Text)
    requires t.leading < 16
    ensures var s, k := Written(t, t.exponent < 0), ExponentDigits(t);
      && |s| == (if t.negative then 6 else 5) + (if t.fraction == [] then 0 else 1 + |t.fraction|) + k
      && s[|s| - k - 1] == if t.exponent < 0 then '-' else '+'
  {
    var n, s := if t.exponent < 0 then 0 - t.exponent else t.exponent, Written(t, t.exponent < 0);
    var front := (if t.negative then "-" else "") + "0x" + [HexChar(t.leading)]
      + (if t.fraction == [] then "" else "." + t.fraction) + "p";
    assert s == front + (if t.exponent < 0 then "-" else "+") + Decimal(n);
    assert s[|front|] == if t.exponent < 0 then '-' else '+';
  }

  /** The text is the shortest of its kind: the digit before the point is 1 exactly for
      normal numbers, no digit after it is a superfluous zero, a point stands only before
      a digit, and the exponent, which is 0 for zeros and -1022 for denormals, has the
      fewest digits and a minus sign exactly when it is negative. */
  lemma FphexCanonical(d: Ieee)
    requires Finite(d)
    ensures Parse(Fphex(d)).Good?
    ensures var s, t := Fphex(d), Parse(Fphex(d)).text;
      var n, k := if t.exponent < 0 then 0 - t.exponent else t.exponent, ExponentDigits(t);
      && t.leading == (if d.exponent == 0 then 0 else 1)
      && t.exponent == (if Units(d) == 0 then 0 else if d.exponent == 0 then -1022 else d.exponent - 1023)
      && (t.fraction != [] ==> t.fraction[|t.fraction| - 1] != '0')
      && |s| == (if t.negative then 6 else 5) + (if t.fraction == [] then 0 else 1 + |t.fraction|) + k
      && s[|s| - k - 1] == (if t.exponent < 0 then '-' else '+')
      && k >= 1 && n < Pow10(k) && (k > 1 ==> Pow10(k - 1) <= n)
  {
    hide Parse, Written, Units, Fraction, Denotes, DecDigits, HexValue, Pow2;
    FphexDenotes(d);
    CanonicalText(d);
    var t := TextOf(d);
    WrittenLength(t);
    var n := if t.exponent < 0 then 0 - t.exponent else t.exponent;
    if n > 0 { DecSize(n); } else { assert Pow10(1) == 10; }
  }
}
