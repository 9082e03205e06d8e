/** FPU_load_bcd and FPU_store_bcd of extras/x87-emu/reg_ld_str.c: eighteen decimal
    digits, two to a byte and the least significant byte first, and a sign byte. */
module PackedDecimal {
  import opened Arith
  import opened Rounding
  import opened FpuRegs
  import opened FpuState
  import opened FpuMachine
  import opened StoreReal
  import opened StoreRealCorrect
  import opened LoadReal
  import opened IntegerData

  const LARGEST: int := 999_999_999_999_999_999

  // ----- digits -----

  /** Two digits in a byte; a nibble above 9 counts as what it is. */
  function ByteValue(d: u8): nat { d % 0x10 + d / 0x10 * 10 }

  function DigitByte(n: nat): u8 { n % 10 + n / 10 % 10 * 0x10 }

  predicate DecimalByte(d: u8) { d % 0x10 <= 9 && d / 0x10 <= 9 }

  lemma DigitByteValue(n: nat)
    ensures DecimalByte(DigitByte(n)) && ByteValue(DigitByte(n)) + 100 * (n / 100) == n
  {
    var lo, hi := n % 10, n / 10 % 10;
    DivModUnique(DigitByte(n), hi, lo, 0x10);
    Powers.DivDiv(n, 10, 10);
  }

  lemma ByteValueDigits(d: u8, v: nat)
    requires DecimalByte(d)
    ensures var n := ByteValue(d) + 100 * v; DigitByte(n) == d && n / 100 == v
  {
    var n, lo, hi := ByteValue(d) + 100 * v, d % 0x10, d / 0x10;
    DivModUnique(n, hi + 10 * v, lo, 10);
    DivModUnique(hi + 10 * v, v, hi, 10);
    DivModUnique(n, v, lo + hi * 10, 100);
  }

  /** The number that the digit bytes denote. */
  function Value(b: seq<u8>): nat {
    if b == [] then 0 else ByteValue(b[0]) + 100 * Value(b[1..])
  }

  /** n as 2 * len decimal digits. */
  function Digits(n: nat, len: nat): (b: seq<u8>)
    ensures |b| == len
  {
    if len == 0 then [] else [DigitByte(n)] + Digits(n / 100, len - 1)
  }

  function Power100(len: nat): nat {
    if len == 0 then 1 else 100 * Power100(len - 1)
  }

  predicate Decimal(b: seq<u8>) {
    forall d :: d in b ==> DecimalByte(d)
  }

  /** The division loop writes decimal digits of the number it divides. */
  lemma {:induction false} ValueOfDigits(n: nat, len: nat)
    requires n < Power100(len)
    ensures Decimal(Digits(n, len)) && Value(Digits(n, len)) == n
  {
    if len > 0 {
      DigitByteValue(n);
      ValueOfDigits(n / 100, len - 1);
      assert Digits(n, len)[1..] == Digits(n / 100, len - 1);
    }
  }

  /** The multiplication loop reads back what the division loop writes. */
  lemma {:induction false} DigitsOfValue(b: seq<u8>)
    requires Decimal(b)
    ensures Digits(Value(b), |b|) == b && Value(b) < Power100(|b|)
  {
    if b != [] {
      DigitsOfValue(b[1..]);
      ByteValueDigits(b[0], Value(b[1..]));
      assert b == [b[0]] + b[1..];
    }
  }

  lemma NineBytes()
    ensures Power100(9) == LARGEST + 1
  {
    assert Power100(4) == 1_0000_0000;
    assert Power100(9) == 100 * 100 * 100 * 100 * 100 * Power100(4);
  }

  lemma ValueBound(b: seq<u8>)
    requires |b| <= 9
    ensures Value(b) < 2 * Power100(|b|) && Power100(|b|) <= LARGEST + 1
  {
    NineBytes();
    ValueBoundStep(b);
    PowerMono(|b|, 9);
  }

  lemma {:induction false} ValueBoundStep(b: seq<u8>)
    ensures 3 * Value(b) <= 5 * Power100(|b|) - 5
  {
    if b != [] {
      ValueBoundStep(b[1..]);
    }
  }

  lemma {:induction false} PowerMono(a: nat, b: nat)
    requires a <= b
    ensures 1 <= Power100(a) <= Power100(b)
    decreases b
  {
    if a < b {
      PowerMono(a, b - 1);
    } else if a > 0 {
      PowerMono(a - 1, b - 1);
    }
  }

  // ----- loading -----

  function LoadBcdSpec(d: seq<u8>): Reg
    requires |d| == 10
  {
    ValueBound(d[..9]);
    IntReg(d[9] >= 0x80, Value(d[..9]))
  }

  /** The multiplication loop. */
  method ReadDigits(s: array<u8>) returns (l: int)
    requires s.Length == 10
    ensures l == Value(s[..9])
  {
    l := 0;
    var pos := 8;
    ghost var b := s[..9];
    while pos >= 0
      invariant -1 <= pos <= 8
      invariant l == ValueFrom(b, pos + 1)
    {
      var bcd: int := s[pos];
      l := l * 10;
      l := l + bcd / 0x10;
      l := l * 10;
      l := l + bcd % 0x10;
      pos := pos - 1;
    }
    ValueFromIsValue(b, 0);
    assert b[0..] == b;
  }

  function ValueFrom(b: seq<u8>, i: nat): nat
    requires i <= |b|
    decreases |b| - i
  {
    if i == |b| then 0 else ByteValue(b[i]) + 100 * ValueFrom(b, i + 1)
  }

  lemma {:induction false} ValueFromIsValue(b: seq<u8>, i: nat)
    requires i <= |b|
    ensures ValueFrom(b, i) == Value(b[i..])
    decreases |b| - i
  {
    if i < |b| {
      ValueFromIsValue(b, i + 1);
      assert b[i..][1..] == b[i + 1..];
    }
  }

  method LoadBcd(s: array<u8>, st0: FpuReg) returns (tag: Tag)
    requires s.Length == 10
    modifies st0
    ensures st0.Val() == LoadBcdSpec(s[..]) && tag == TagOf(st0.Val())
  {
    var l := ReadDigits(s);
    assert s[..][..9] == s[..9];
    ValueBound(s[..9]);
    var sign := s[9] >= 0x80;
    if l == 0 {
      st0.Set(CONST_Z);
      st0.exp := if sign then 0x8000 else 0;
      tag := Zero;
    } else {
      st0.SetSig(l);
      tag := NormalizeNoExcep(st0, 63, sign);
    }
  }

  // ----- storing -----

  const INDEFINITE: seq<u8> := [0, 0, 0, 0, 0, 0, 0, 0xc0, 0xff, 0xff]

  function StoreBcdSpec(cw: Control, sw: Status, r: Reg, tag: Tag): Stored<seq<u8>> {
    var kind := Kind(r, tag);
    if kind == Empty || kind == Infinity || kind == NaN then
      Stored(if cw.masks.invalid then Some(INDEFINITE) else None,
             Exception(cw, sw, if kind == Empty then StackUnder else Invalid))
    else
      var n, loss := RoundedSig(cw.rc, r, kind), RoundingCode(cw.rc, r, kind);
      if n > LARGEST then
        Stored(if cw.masks.invalid then Some(INDEFINITE) else None, Exception(cw, sw, Invalid))
      else
        Stored(Some(Digits(n, 9) + [if r.Neg() then 0x80 else 0]),
               if loss == Exact then sw else SetPrecisionFlag(cw, sw, loss == LostUp))
  }

  /** FPU_div_small (div_small.S): divide in place, returning the remainder. */
  method DivSmall(r: FpuReg, y: u32) returns (rem: u32)
    requires y > 0
    modifies r`sigl, r`sigh
    ensures r.Val().Sig() == old(r.Val()).Sig() / y && rem == old(r.Val()).Sig() % y
  {
    ghost var s := r.Val().Sig();
    var hi, carry := r.sigh / y, r.sigh % y;
    var low := carry * TWO32 + r.sigl;
    TwoWordDivision(r.sigh, r.sigl, y);
    r.sigh := hi;
    r.sigl := low / y;
    rem := low % y;
  }

  lemma TwoWordDivision(sigh: u32, sigl: u32, y: u32)
    requires y > 0
    ensures var hi, low := sigh / y, sigh % y * TWO32 + sigl;
      && 0 <= hi < TWO32 && 0 <= low / y < TWO32 && 0 <= low % y < TWO32
      && (sigh * TWO32 + sigl) / y == hi * TWO32 + low / y
      && (sigh * TWO32 + sigl) % y == low % y
  {
    var hi, c := sigh / y, sigh % y;
    var low := c * TWO32 + sigl;
    var q, rem := low / y, low % y;
    FloorAtMost(sigh, y);
    Commute(y, TWO32);
    FloorBelow(low, TWO32, y);
    assert low == q * y + rem;
    LongDivision(sigh, sigl, hi, c, q, rem, y);
    DivModUnique(sigh * TWO32 + sigl, hi * TWO32 + q, rem, y);
  }

  lemma LongDivision(sigh: int, sigl: int, hi: int, c: int, q: int, rem: int, y: int)
    requires sigh == hi * y + c && c * TWO32 + sigl == q * y + rem
    ensures sigh * TWO32 + sigl == (hi * TWO32 + q) * y + rem
  {
    assert (hi * TWO32 + q) * y == hi * y * TWO32 + q * y;
  }

  method StoreBcd(f: Fpu, st0: FpuReg, tag: Tag, d: array<u8>) returns (ok: bool)
    requires d.Length == 10 && StackTag(tag)
    modifies f`partialStatus, d
    ensures var s := StoreBcdSpec(f.controlWord, old(f.partialStatus), st0.Val(), tag);
      && f.partialStatus == s.sw && ok == s.image.Some?
      && (ok ==> s.image.value == d[..]) && (!ok ==> d[..] == old(d[..]))
  {
    var sign := if st0.Val().Neg() then 0x80 else 0;
    var bad, kind := InvalidOperand(f, st0, tag);
    if bad {
      ok := WriteIndefinite(f, d);
      return;
    }
    var t := new FpuReg(st0.Val());
    var loss := RoundToInt(t, kind, f.controlWord.rc);
    if t.sigh > 0x0de0_b6b3 || (t.sigh == 0x0de0_b6b3 && t.sigl > 0xa763_ffff) {
      f.Exception(Invalid);
      ok := WriteIndefinite(f, d);
      return;
    }
    assert t.Val().Sig() <= LARGEST;
    if loss != Exact {
      f.SetPrecisionFlag(loss == LostUp);
    }
    WriteDigits(t, d);
    d[9] := sign;
    assert d[..] == d[..9] + [sign];
    ok := true;
  }

  /** From the label invalid_operand on. */
  method WriteIndefinite(f: Fpu, d: array<u8>) returns (ok: bool)
    requires d.Length == 10
    modifies d
    ensures ok == f.controlWord.masks.invalid
    ensures d[..] == if ok then INDEFINITE else old(d[..])
  {
    ok := f.controlWord.masks.invalid;
    if ok {
      var i := 0;
      while i < 7
        invariant 0 <= i <= 7
        invariant forall j :: 0 <= j < i ==> d[j] == 0
      {
        d[i] := 0;
        i := i + 1;
      }
      d[7], d[8], d[9] := 0xc0, 0xff, 0xff;
      assert d[..7] == [0, 0, 0, 0, 0, 0, 0];
      assert d[..] == d[..7] + [0xc0, 0xff, 0xff];
    }
  }

  /** The division loop. */
  method WriteDigits(ll: FpuReg, d: array<u8>)
    requires d.Length == 10
    modifies ll`sigl, ll`sigh, d
    ensures d[..9] == Digits(old(ll.Val()).Sig(), 9)
  {
    ghost var all := Digits(ll.Val().Sig(), 9);
    var i := 0;
    while i < 9
      invariant 0 <= i <= 9
      invariant forall j :: 0 <= j < i ==> d[j] == all[j]
      invariant Digits(ll.Val().Sig(), 9 - i) == all[i..]
    {
      DigitsStep(ll.Val().Sig(), 9 - i);
      var b: int := DivSmall(ll, 10);
      var c: int := DivSmall(ll, 10);
      d[i] := b + c * 0x10;
      assert all[i..][1..] == all[i + 1..];
      i := i + 1;
    }
  }

  lemma DigitsStep(m: nat, len: nat)
    requires len > 0
    ensures 0 <= m / 10 % 10 * 0x10 + m % 10 < 0x100
    ensures Digits(m, len)[0] == m % 10 + m / 10 % 10 * 0x10
    ensures Digits(m, len)[1..] == Digits(m / 10 / 10, len - 1)
  {
    Powers.DivDiv(m, 10, 10);
  }

  // ----- the two directions -----

  /** Eighteen valid digits and a sign survive loading and storing, in every mode and
      without an exception; so does minus zero. */
  lemma BcdRoundTrip(cw: Control, sw: Status, d: seq<u8>)
    requires |d| == 10 && Decimal(d[..9]) && (d[9] == 0 || d[9] == 0x80)
    ensures var r := LoadBcdSpec(d); StoreBcdSpec(cw, sw, r, TagOf(r)) == Stored(Some(d), sw)
  {
    DigitsOfValue(d[..9]);
    NineBytes();
    var n := Value(d[..9]);
    StoreBcdInteger(cw, sw, d[9] >= 0x80, n);
    assert d == d[..9] + [d[9]];
  }

  lemma StoreBcdInteger(cw: Control, sw: Status, neg: bool, n: u64)
    requires n <= LARGEST
    ensures var r := IntReg(neg, n);
      StoreBcdSpec(cw, sw, r, TagOf(r)) == Stored(Some(Digits(n, 9) + [if neg then 0x80 else 0]), sw)
  {
    IntReloads(cw.rc, neg, n);
  }

  /** The register of an integer rounds to that integer. */
  lemma IntReloads(mode: Mode, neg: bool, n: u64)
    ensures var r := IntReg(neg, n);
      && r.Neg() == neg && (TagOf(r) == Valid || TagOf(r) == Zero)
      && RoundedSig(mode, r, TagOf(r)) == n && RoundingCode(mode, r, TagOf(r)) == Exact
  {
    var r := IntReg(neg, n);
    Words(r);
    if n != 0 {
      RoundMagExact(mode, neg, n, Powers.Pow2(Powers.LeadingZeros(n)));
    }
  }

  /** Storing a register and loading it again leaves the register's value rounded to
      an integer, whenever that has at most eighteen digits. */
  lemma StoreLoadBcd(cw: Control, sw: Status, r: Reg)
    requires Numeric(r) && RoundedSig(cw.rc, r, Kind(r, TagOf(r))) <= LARGEST
    ensures var image := StoreBcdSpec(cw, sw, r, TagOf(r)).image;
      && image.Some? && |image.value| == 10
      && LoadBcdSpec(image.value) == IntReg(r.Neg(), RoundedSig(cw.rc, r, Kind(r, TagOf(r))))
  {
    var n := RoundedSig(cw.rc, r, Kind(r, TagOf(r)));
    NineBytes();
    ValueOfDigits(n, 9);
    var d := StoreBcdSpec(cw, sw, r, TagOf(r)).image.value;
    assert d[..9] == Digits(n, 9);
  }
}
