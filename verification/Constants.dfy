/** The five irrational constants of extras/x87-emu/reg_constant.c, pinned to their last
    bit by neighbouring fractions of their continued fractions. */
module Constants {
  import opened Arith
  import opened Powers
  import opened Rounding
  import opened FpuRegs
  import opened StackOps

  /** A fraction below a number and one above it. */
  datatype Bounds = Bounds(p: nat, q: nat, p': nat, q': nat)

  /** Neighbours in the continued fractions of pi, log2(10), log2(e) and ln(2). */
  function BoundsOf(k: Constant): Bounds
    requires Irrational(k)
  {
    match k
    case Pi => Bounds(6167950454, 1963319607, 14885392687, 4738167652)
    case Log2Ten => Bounds(496090320832, 149338067129, 82361153417, 24793177656)
    case Log10Two => Bounds(24793177656, 82361153417, 149338067129, 496090320832)
    case Log2E => Bounds(69866059742, 48427462327, 9878417065, 6847196937)
    case LnTwo => Bounds(6847196937, 9878417065, 48427462327, 69866059742)
  }

  predicate Irrational(k: Constant) { k != One && k != Nought }

  /** The value of a constant in units of 2^-65, and 1.0 in them. */
  function InUnits(r: Reg): nat
    requires r.Exponent() >= -2
  {
    r.Sig() * Pow2(r.Exponent() + 2)
  }

  const UNIT: nat := 4 * TWO63

  /** Rounded down every constant lies below both fractions and rounded up above both,
      and no fraction with a smaller denominator lies between the two. */
  lemma ConstantsPinned(k: Constant)
    requires Irrational(k)
    ensures var b, down, up := BoundsOf(k), ConstantReg(k, DOWN), ConstantReg(k, UP);
      && b.p' * b.q == b.p * b.q' + 1
      && !down.Neg() && !up.Neg() && down.Exponent() >= -2 && up.Exponent() >= -2
      && InUnits(down) * b.q < b.p * UNIT && b.p' * UNIT < InUnits(up) * b.q'
  {
    assert Pow2(1) == 2 && Pow2(2) == 4 && Pow2(3) == 8;
  }

  /** 1.0 and 0.0 are exact in every rounding mode. */
  lemma ExactConstants(rc: Mode)
    ensures ConstantReg(One, rc).Exponent() == 0 && InUnits(ConstantReg(One, rc)) == UNIT && !ConstantReg(One, rc).Neg()
    ensures ConstantReg(Nought, rc).Sig() == 0 && !ConstantReg(Nought, rc).Neg()
    ensures TagOf(ConstantReg(Nought, rc)) == Zero
  {
    assert Pow2(2) == 4;
  }

  /** The logarithms are told apart by small powers: 2^33 < 10^10 < 2^34, and
      2^10 < e^7 and e^9 < 2^13 for every e between 2.718 and 2.7183. Pi lies between
      Archimedes' bounds. */
  lemma ConstantsBounded()
    ensures 0x2_0000_0000 < 10_000_000_000 < 0x4_0000_0000
    ensures var b := BoundsOf(Log2Ten); 33 * b.q < 10 * b.p && 10 * b.p' < 34 * b.q'
    ensures var b := BoundsOf(Log10Two); 10 * b.q < 34 * b.p && 33 * b.p' < 10 * b.q'
    ensures 1024 * Times(1000, 7) < Times(2718, 7) && Times(27183, 9) < 8192 * Times(10_000, 9)
    ensures var b := BoundsOf(Log2E); 10 * b.q < 7 * b.p && 9 * b.p' < 13 * b.q'
    ensures var b := BoundsOf(LnTwo); 9 * b.q < 13 * b.p && 10 * b.p' < 7 * b.q'
    ensures var b := BoundsOf(Pi); 223 * b.q < 71 * b.p && 7 * b.p' < 22 * b.q'
  {
    assert Times(2718, 4) == 2718 * 2718 * 2718 * 2718;
    assert Times(27183, 4) == 27183 * 27183 * 27183 * 27183;
  }

  function Times(x: nat, n: nat): nat { if n == 0 then 1 else x * Times(x, n - 1) }
}
