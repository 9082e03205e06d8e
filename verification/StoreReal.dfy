/** FPU_store_double and FPU_store_single of extras/x87-emu/reg_ld_str.c: what they
    write and which flags they raise (as functions), that this is correct rounding in
    every mode (as lemmas), and the word-by-word code itself (as methods). */
module StoreReal {
  import opened Arith
  import opened Powers
  import opened Rounding
  import opened FpuRegs
  import opened FpuState
  import opened FpuMachine

  datatype Option<+T> = None | Some(value: T)

  /** What a store hands to memory, unless an unmasked exception stops it, and the
      status word it leaves. */
  datatype Stored<T> = Stored(image: Option<T>, sw: Status)

  /** The two words of a double; the high one has the sign and the exponent. */
  datatype Double = Double(lo: u32, hi: u32)

  const TWO52: int := 0x10_0000_0000_0000
  const TWO23: int := 0x80_0000

  /** l |= 0x80000000 for a negative register. */
  function WithSign(neg: bool, hi: u32): u32 {
    if neg && hi < BIT31 then hi + BIT31 else hi
  }

  /** The masked response, or none: EXCEPTION(loss) after a rounding. */
  function LossException(cw: Control, sw: Status, loss: Loss): Status {
    match loss
    case Exact => sw
    case TooBig => Exception(cw, sw, Invalid)
    case LostUp => Exception(cw, sw, Precision(true))
    case LostDown => Exception(cw, sw, Precision(false))
  }

  /** The common end of the denormal paths: underflow (unless the 80486 would not
      report it), then loss of precision. */
  function TinyStatus(cw: Control, sw: Status, loss: Loss, quiet: bool): (r: (bool, Status)) {
    if loss == Exact then (true, sw) else
    var sw1 := if quiet then sw else Exception(cw, sw, Underflow);
    if !quiet && !cw.masks.underflow then (false, sw1) else
    (cw.masks.precision, LossException(cw, sw1, loss))
  }

  function OverflowStatus(cw: Control, sw: Status): (r: (bool, Status)) {
    var sw1 := Exception(cw, sw, Overflow);
    if !cw.masks.overflow then (false, sw1) else
    (cw.masks.precision, SetPrecisionUpDown(cw, sw1, true))
  }

  // ----- rounding the significand -----

  /** The significand of r rounded to a multiple of q, in units of q, and the exponent
      that goes with it: a carry out of the top, to 2 * half, goes into the exponent. */
  function Mantissa(mode: Mode, r: Reg, q: nat, half: nat): nat
    requires q > 0
  {
    var n := RoundMag(mode, r.Neg(), r.Sig(), q);
    if n == 2 * half then half else n
  }

  function RoundedExponent(mode: Mode, r: Reg, q: nat, half: nat): int
    requires q > 0
  {
    r.Exponent() + if RoundMag(mode, r.Neg(), r.Sig(), q) == 2 * half then 1 else 0
  }

  lemma MantissaRange(mode: Mode, r: Reg, q: nat, half: nat)
    requires q > 0 && half * q == TWO63 && r.Sig() >= TWO63
    ensures half <= Mantissa(mode, r, q, half) < 2 * half
    ensures RoundMag(mode, r.Neg(), r.Sig(), q) <= 2 * half
  {
    RoundMagNear(mode, r.Neg(), r.Sig(), q);
    FloorAtLeast(r.Sig(), half, q);
    MulAssoc(2, half, q);
    FloorBelow(r.Sig(), 2 * half, q);
  }

  /** The precision flag of the normal paths. */
  function InexactStatus(cw: Control, sw: Status, r: Reg, q: nat): Status
    requires q > 0
  {
    if r.Sig() % q == 0 then sw
    else SetPrecisionUpDown(cw, sw, RoundMag(cw.rc, r.Neg(), r.Sig(), q) > r.Sig() / q)
  }

  // ----- FPU_store_double -----

  function PackDouble(neg: bool, m: nat, be: nat): Double
    requires m < TWO52 && be < 0x800
  {
    Double(m % TWO32, WithSign(neg, m / TWO32 + be * 0x10_0000))
  }

  function NormalDouble(cw: Control, sw: Status, r: Reg): Stored<Double>
    requires r.Sig() >= TWO63
  {
    var m, e := Mantissa(cw.rc, r, 0x800, TWO52), RoundedExponent(cw.rc, r, 0x800, TWO52);
    if e > 1023 then
      var (ok, sw') := OverflowStatus(cw, sw);
      Stored(if ok then Some(Double(m % TWO32, WithSign(r.Neg(), 0x7ff0_0000))) else None, sw')
    else
      MantissaRange(cw.rc, r, 0x800, TWO52);
      Stored(Some(PackDouble(r.Neg(), m - TWO52, (e + 1023) % 0x800)), InexactStatus(cw, sw, r, 0x800))
  }

  /** From the label denormal_arg on; t is the copy that gets rounded. */
  function TinyDouble(cw: Control, sw: Status, r: Reg, t: Reg, tag: Tag): Stored<Double> {
    var n, loss := RoundedSig(cw.rc, t, tag), RoundingCode(cw.rc, t, tag);
    var (ok, sw') := TinyStatus(cw, sw, loss, n == TWO52 && r.sigl % 0x800 != 0);
    Stored(if ok then Some(Double(n % TWO32, WithSign(r.Neg(), n / TWO32))) else None, sw')
  }

  /** A NaN keeps the leading bits of its significand and is made quiet; anything
      else that is not a number becomes the indefinite NaN. */
  function NaNDouble(cw: Control, sw: Status, r: Reg): Stored<Double> {
    if r.Exponent() == EXP_OVER && r.sigh >= BIT31 then
      var hi := r.sigh / 0x800 % 0x10_0000;
      var lo := r.sigl / 0x800 + r.sigh % 0x800 * 0x20_0000;
      if r.sigh % BIT31 >= 0x4000_0000 then
        Stored(Some(Double(lo, WithSign(r.Neg(), hi + 0x7ff0_0000))), sw)
      else
        assert hi < 0x8_0000 by { QuietBit(r.sigh); }
        Stored(if cw.masks.invalid then Some(Double(lo, WithSign(r.Neg(), hi + 0x7ff8_0000))) else None,
               Exception(cw, sw, Invalid))
    else
      Stored(if cw.masks.invalid then Some(Double(0, 0xfff8_0000)) else None, Exception(cw, sw, Invalid))
  }

  lemma QuietBit(sigh: u32)
    requires sigh >= BIT31
    ensures sigh / 0x800 % 0x10_0000 == sigh % BIT31 / 0x800
  {
    var t := sigh - BIT31;
    DivModUnique(sigh, t / 0x800 + 0x10_0000, t % 0x800, 0x800);
    DivModUnique(t / 0x800 + 0x10_0000, 1, t / 0x800, 0x10_0000);
    ModEqual(sigh, t, 1, BIT31);
    ModSmall(t, BIT31);
  }

  function NumericDouble(cw: Control, sw: Status, r: Reg, kind: Tag): Stored<Double>
    requires (kind == Valid && TagOf(r) == Valid) || kind == Denormal
  {
    if kind == Denormal then TinyDouble(cw, sw, r, r, Denormal)
    else if r.Exponent() < -1022 then TinyDouble(cw, sw, r, r.(exp := r.exp + 1074), Valid)
    else NormalDouble(cw, sw, r)
  }

  function StoreDoubleSpec(cw: Control, sw: Status, r: Reg, tag: Tag): Stored<Double>
    requires tag == Valid ==> TagOf(r) == Valid
  {
    var kind := Kind(r, tag);
    if kind == Valid || kind == Denormal then NumericDouble(cw, sw, r, kind)
    else if kind == Infinity then Stored(Some(Double(0, WithSign(r.Neg(), 0x7ff0_0000))), sw)
    else if kind == NaN then NaNDouble(cw, sw, r)
    else if kind == Empty then
      Stored(if cw.masks.invalid then Some(Double(0, 0xfff8_0000)) else None, Exception(cw, sw, StackUnder))
    else Stored(Some(Double(0, WithSign(r.Neg(), 0))), sw)
  }

  // ----- FPU_store_single -----

  function PackSingle(neg: bool, m: nat, be: nat): u32
    requires m < TWO23 && be < 0x100
  {
    WithSign(neg, m + be * TWO23)
  }

  function NormalSingle(cw: Control, sw: Status, r: Reg): Stored<u32>
    requires r.Sig() >= TWO63
  {
    var m, e := Mantissa(cw.rc, r, 0x100_0000_0000, TWO23), RoundedExponent(cw.rc, r, 0x100_0000_0000, TWO23);
    if e > 127 then
      var (ok, sw') := OverflowStatus(cw, sw);
      Stored(if ok then Some(WithSign(r.Neg(), 0x7f80_0000)) else None, sw')
    else
      MantissaRange(cw.rc, r, 0x100_0000_0000, TWO23);
      Stored(Some(PackSingle(r.Neg(), m - TWO23, (e + 127) % 0x100)), InexactStatus(cw, sw, r, 0x100_0000_0000))
  }

  function TinySingle(cw: Control, sw: Status, r: Reg, t: Reg, tag: Tag): Stored<u32> {
    var n, loss := RoundedSig(cw.rc, t, tag), RoundingCode(cw.rc, t, tag);
    var (ok, sw') := TinyStatus(cw, sw, loss, n % TWO32 == TWO23 && (r.sigh % 0x100 != 0 || r.sigl != 0));
    Stored(if ok then Some(WithSign(r.Neg(), n % TWO32)) else None, sw')
  }

  function NaNSingle(cw: Control, sw: Status, r: Reg): Stored<u32> {
    if r.Exponent() == EXP_OVER && r.sigh >= BIT31 then
      var f := r.sigh % BIT31 / 0x100;
      if r.sigh % BIT31 >= 0x4000_0000 then
        Stored(Some(WithSign(r.Neg(), f + 0x7f80_0000)), sw)
      else
        Stored(if cw.masks.invalid then Some(WithSign(r.Neg(), f + 0x7fc0_0000)) else None,
               Exception(cw, sw, Invalid))
    else
      Stored(if cw.masks.invalid then Some(0xffc0_0000) else None, Exception(cw, sw, Invalid))
  }

  function NumericSingle(cw: Control, sw: Status, r: Reg, kind: Tag): Stored<u32>
    requires (kind == Valid && TagOf(r) == Valid) || kind == Denormal
  {
    if kind == Denormal then TinySingle(cw, sw, r, r, Denormal)
    else if r.Exponent() < -126 then TinySingle(cw, sw, r, r.(exp := r.exp + 149), Valid)
    else NormalSingle(cw, sw, r)
  }

  function StoreSingleSpec(cw: Control, sw: Status, r: Reg, tag: Tag): Stored<u32>
    requires tag == Valid ==> TagOf(r) == Valid
  {
    var kind := Kind(r, tag);
    if kind == Valid || kind == Denormal then NumericSingle(cw, sw, r, kind)
    else if kind == Infinity then Stored(Some(WithSign(r.Neg(), 0x7f80_0000)), sw)
    else if kind == NaN then NaNSingle(cw, sw, r)
    else if kind == Empty then
      Stored(if cw.masks.invalid then Some(0xffc0_0000) else None, Exception(cw, sw, StackUnder))
    else Stored(Some(WithSign(r.Neg(), 0)), sw)
  }
}
