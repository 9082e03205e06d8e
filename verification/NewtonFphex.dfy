/** fphex of examples/newton-fp/newton.c: three buffers filled through moving
    pointers, here indices. */
module NewtonFphex {
  import opened Arith
  import opened Powers
  import opened HexFloat

  const NUL: char := 0 as char

  lemma {:induction false} PrependDigit(n: nat, k: nat)
    ensures HexDigits(n, k + 1) == [HexChar(n / Pow16(k) % 16)] + HexDigits(n, k)
  {
    if k > 0 {
      PrependDigit(n / 16, k - 1);
      DivDiv(n, 16, Pow16(k - 1));
    }
  }

  lemma NextQuotient(n: nat, k: nat)
    ensures n / Pow16(k) / 16 == n / Pow16(k + 1)
  {
    DivDiv(n, Pow16(k), 16);
  }

  lemma NothingLeft(n: nat, k: nat)
    requires n < Pow16(k)
    ensures n / Pow16(k) == 0
  {
    ModSmall(n, Pow16(k));
  }

  /** The first three loops: thirteen hexadecimal digits, filled from the end. */
  method MantissaDigits(n: nat, numbuf: array<char>) returns (numstr: nat)
    requires numbuf.Length == 32 && n < Pow16(13)
    modifies numbuf
    ensures numstr == 19 && numbuf[19..] == HexDigits(n, 13)
  {
    var num: nat := n;
    numstr := 32;
    assert n / Pow16(0) == n by { assert Pow16(0) == 1; }
    while num != 0
      invariant 19 <= numstr <= 32 && num == n / Pow16(32 - numstr)
      invariant numbuf[numstr..] == HexDigits(n, 32 - numstr)
      decreases num
    {
      if numstr == 19 { NothingLeft(n, 13); }
      NextDigit(n, 32 - numstr);
      numstr := Prepend(numbuf, numstr, HexChar(num % 16));
      num := num / 16;
    }
    numstr := PadZeros(n, numbuf, numstr);
  }

  lemma NextDigit(n: nat, k: nat)
    ensures HexDigits(n, k + 1) == [HexChar(n / Pow16(k) % 16)] + HexDigits(n, k)
    ensures n / Pow16(k) / 16 == n / Pow16(k + 1)
    ensures n / Pow16(k) == 0 ==> HexDigits(n, k + 1) == ['0'] + HexDigits(n, k) && n / Pow16(k + 1) == 0
  {
    PrependDigit(n, k);
    NextQuotient(n, k);
  }

  /** The digits above the leading one are zeros. */
  method PadZeros(n: nat, numbuf: array<char>, start: nat) returns (numstr: nat)
    requires numbuf.Length == 32 && 19 <= start <= 32 && n / Pow16(32 - start) == 0
    requires numbuf[start..] == HexDigits(n, 32 - start)
    modifies numbuf
    ensures numstr == 19 && numbuf[19..] == HexDigits(n, 13)
  {
    numstr := start;
    if numstr == 32 {
      NextDigit(n, 0);
      numstr := Prepend(numbuf, numstr, '0');
    }
    while numstr > 19
      invariant 19 <= numstr <= 32 && n / Pow16(32 - numstr) == 0
      invariant numbuf[numstr..] == HexDigits(n, 32 - numstr)
    {
      NextDigit(n, 32 - numstr);
      numstr := Prepend(numbuf, numstr, '0');
    }
  }

  /** *--p = c */
  method Prepend(a: array<char>, p: nat, c: char) returns (p': nat)
    requires 1 <= p <= a.Length
    modifies a
    ensures p' == p - 1 && a[p'..] == [c] + old(a[p..])
  {
    p' := p - 1;
    a[p'] := c;
  }

  /** numend is moved down past the trailing zeros. */
  method StripZeros(numbuf: array<char>) returns (numend: nat)
    requires numbuf.Length == 32 && Strip(numbuf[19..]) != []
    ensures 19 < numend <= 32 && numbuf[19..numend] == Strip(numbuf[19..])
  {
    numend := 32;
    assert numbuf[19..32] == numbuf[19..];
    while numbuf[numend - 1] == '0'
      invariant 19 < numend <= 32 && Strip(numbuf[19..numend]) == Strip(numbuf[19..])
      decreases numend
    {
      assert numbuf[19..numend][..numend - 20] == numbuf[19..numend - 1];
      numend := numend - 1;
    }
  }

  lemma LastDigit(e: nat, s: string)
    requires e > 0
    ensures DecDigits(e) + s == DecDigits(e / 10) + ([HexChar(e % 10)] + s)
  {
  }

  /** The decimal digits of the exponent, at most four, filled from the end. */
  method ExponentDigits(e: nat, expbuf: array<char>) returns (expstr: nat)
    requires expbuf.Length == 5 && e < 10000
    modifies expbuf
    ensures 1 <= expstr < 5 && expbuf[expstr..] == Decimal(e)
  {
    var exponent: nat := e;
    expstr := 5;
    assert Pow10(4) == 10000;
    while exponent != 0
      invariant 1 <= expstr <= 5 && exponent < Pow10(expstr - 1)
      invariant DecDigits(e) == DecDigits(exponent) + expbuf[expstr..]
      decreases exponent
    {
      LastDigit(exponent, expbuf[expstr..]);
      expstr := Prepend(expbuf, expstr, HexChar(exponent % 10));
      exponent := exponent / 10;
    }
    if expstr == 5 {
      expstr := Prepend(expbuf, expstr, '0');
    }
  }

  /** *outp++ = c; text is what has been written so far. */
  method Put(outbuf: array<char>, outp: nat, c: char, ghost text: string) returns (outp': nat)
    requires outp < outbuf.Length && outbuf[..outp] == text
    modifies outbuf
    ensures outp' == outp + 1 && outbuf[..outp'] == text + [c]
    ensures forall k :: outp' <= k < outbuf.Length ==> outbuf[k] == old(outbuf[k])
  {
    outbuf[outp] := c;
    outp' := outp + 1;
  }

  /** The copying loops at the end. */
  method Copy(outbuf: array<char>, outp: nat, a: array<char>, from: nat, to: nat,
          ghost text: string) returns (outp': nat)
    requires from <= to <= a.Length && a != outbuf && outp + (to - from) <= outbuf.Length && outbuf[..outp] == text
    modifies outbuf
    ensures outp' == outp + (to - from) && outbuf[..outp'] == text + a[from..to]
    ensures forall k :: outp' <= k < outbuf.Length ==> outbuf[k] == old(outbuf[k])
  {
    var p := from;
    outp' := outp;
    while p < to
      invariant from <= p <= to && outp' == outp + (p - from)
      invariant outbuf[..outp'] == text + a[from..p]
      invariant forall k :: outp' <= k < outbuf.Length ==> outbuf[k] == old(outbuf[k])
    {
      outp' := Put(outbuf, outp', a[p], text + a[from..p]);
      p := p + 1;
    }
  }

  /** expnegative and the magnitude of the exponent */
  method SplitExponent(d: Ieee, zeroMantissa: bool) returns (negative: bool, exponent: nat)
    requires Fields(d) && zeroMantissa == (Num(d) == 0)
    ensures negative == (PrintedExponent(d) < 0)
    ensures exponent == (if negative then 0 - PrintedExponent(d) else PrintedExponent(d)) && exponent <= 1024
  {
    exponent := d.exponent;
    if exponent == 0 {
      if zeroMantissa {
        negative := false;
      } else {
        negative := true;
        exponent := 0x3ff - 1;
      }
    } else if exponent >= 0x3ff {
      negative := false;
      exponent := exponent - 0x3ff;
    } else {
      negative := true;
      exponent := 0x3ff - exponent;
    }
  }

  function SignificandText(d: Ieee): string
    requires Fields(d)
  {
    PrefixText(d) + (if Fraction(d) == [] then "" else "." + Fraction(d))
  }

  function ExponentText(negative: bool, exponent: nat): string {
    "p" + (if negative then "-" else "+") + Decimal(exponent)
  }

  lemma TextParts(d: Ieee, negative: bool, exponent: nat)
    requires Fields(d) && negative == (PrintedExponent(d) < 0)
    requires exponent == (if negative then 0 - PrintedExponent(d) else PrintedExponent(d))
    ensures SignificandText(d) + ExponentText(negative, exponent) == Fphex(d)
  {
  }

  /** The sign, the prefix, the leading digit, and the fraction if there is one. */
  method PutSignificand(d: Ieee, outbuf: array<char>, numbuf: array<char>, numstr: nat, numend: nat)
      returns (outp: nat)
    requires Fields(d) && outbuf.Length >= 40 && numbuf.Length == 32 && numbuf != outbuf
    requires 19 == numstr <= numend <= 32 && numbuf[numstr..numend] == Fraction(d)
    modifies outbuf
    ensures outp <= 18 && forall k :: outp <= k < outbuf.Length ==> outbuf[k] == old(outbuf[k])
    ensures outbuf[..outp] == SignificandText(d)
  {
    outp := PutPrefix(d, outbuf);
    ghost var text := PrefixText(d);
    if numend > numstr {
      outp := Put(outbuf, outp, '.', text);
      outp := Copy(outbuf, outp, numbuf, numstr, numend, text + ".");
      assert text + "." + Fraction(d) == text + ("." + Fraction(d));
    } else {
      assert text == text + "";
    }
  }

  function PrefixText(d: Ieee): string
    requires Fields(d)
  {
    (if d.negative then "-" else "") + "0x" + [HexChar(if d.exponent == 0 then 0 else 1)]
  }

  method PutPrefix(d: Ieee, outbuf: array<char>) returns (outp: nat)
    requires Fields(d) && outbuf.Length >= 40
    modifies outbuf
    ensures outp <= 4 && outbuf[..outp] == PrefixText(d)
    ensures forall k :: outp <= k < outbuf.Length ==> outbuf[k] == old(outbuf[k])
  {
    ghost var text := "";
    outp := 0;
    if d.negative {
      outp := Put(outbuf, outp, '-', text);
      text := "-";
    }
    outp := Put(outbuf, outp, '0', text);
    outp := Put(outbuf, outp, 'x', text + "0");
    outp := Put(outbuf, outp, if d.exponent == 0 then '0' else '1', text + "0x");
  }

  /** The exponent and the NUL. */
  method PutExponent(outbuf: array<char>, start: nat, expbuf: array<char>, expstr: nat, negative: bool,
          ghost exponent: nat)
      returns (outp: nat)
    requires outbuf.Length >= 40 && start <= 18 && expbuf.Length == 5 && 1 <= expstr < 5 && expbuf != outbuf
    requires expbuf[expstr..] == Decimal(exponent)
    modifies outbuf
    ensures outp <= 25 && outbuf[..outp] == old(outbuf[..start]) + ExponentText(negative, exponent) + [NUL]
    ensures forall k :: outp <= k < outbuf.Length ==> outbuf[k] == old(outbuf[k])
  {
    ghost var text := outbuf[..start];
    outp := Put(outbuf, start, 'p', text);
    outp := Put(outbuf, outp, if negative then '-' else '+', text + "p");
    outp := Copy(outbuf, outp, expbuf, expstr, 5, text + "p" + (if negative then "-" else "+"));
    assert expbuf[expstr..5] == Decimal(exponent);
    assert outbuf[..outp] == text + ExponentText(negative, exponent);
    outp := Put(outbuf, outp, NUL, text + ExponentText(negative, exponent));
  }

  /** numstr and numend: the stripped fraction, empty for a zero mantissa. */
  method FractionDigits(d: Ieee, numbuf: array<char>) returns (numstr: nat, numend: nat)
    requires Fields(d) && numbuf.Length == 32
    modifies numbuf
    ensures 19 == numstr <= numend <= 32 && numbuf[numstr..numend] == Fraction(d)
  {
    var num := d.mantissa0 * 0x1_0000_0000 + d.mantissa1;
    Thirteen();
    numstr := MantissaDigits(num, numbuf);
    numend := numstr;
    if num != 0 {
      HexValueOfDigits(num, 13);
      StripNonzero(HexDigits(num, 13));
      numend := StripZeros(numbuf);
    }
  }

  /** fphex: the text, its NUL, and the number of characters with the NUL; everything
      stays inside the three buffers and the rest of outbuf is untouched. */
  method FphexCode(d: Ieee, outbuf: array<char>) returns (len: nat)
    requires Fields(d) && outbuf.Length >= 40
    modifies outbuf
    ensures len <= 25 && outbuf[..len] == Fphex(d) + [NUL]
    ensures forall k :: len <= k < outbuf.Length ==> outbuf[k] == old(outbuf[k])
  {
    var numbuf := new char[32];
    var expbuf := new char[5];
    var numstr, numend := FractionDigits(d, numbuf);
    var negative, exponent := SplitExponent(d, d.mantissa0 == 0 && d.mantissa1 == 0);
    var expstr := ExponentDigits(exponent, expbuf);
    len := PutSignificand(d, outbuf, numbuf, numstr, numend);
    len := PutExponent(outbuf, len, expbuf, expstr, negative, exponent);
    TextParts(d, negative, exponent);
  }
}
