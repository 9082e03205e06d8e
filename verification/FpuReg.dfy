/** FPU_REG of extras/x87-emu/fpu_emu.h: a sign, a 15-bit exponent and a 64-bit
    significand, stored as two 32-bit words and a 16-bit one, and what it means. */
module FpuRegs {
  import opened Arith
  import opened Powers
  import opened Rounding

  type u8 = x: int | 0 <= x < 0x100
  type u16 = x: int | 0 <= x < 0x1_0000
  type u32 = x: int | 0 <= x < 0x1_0000_0000
  type u64 = x: int | 0 <= x < 0x1_0000_0000_0000_0000

  const BIT31: int := 0x8000_0000
  const TWO32: int := 0x1_0000_0000
  const TWO63: int := 0x8000_0000_0000_0000
  const TWO64: int := 0x1_0000_0000_0000_0000

  const EXP_OVER: int := 0x4000
  const EXP_UNDER: int := -0x3fff
  const EXTENDED_Ebias: int := 0x3fff

  /** Tags, with the finer kinds that FPU_Special tells apart. */
  datatype Tag = Valid | Zero | Special | Empty | Denormal | Infinity | NaN

  /** The four tags that the tag word can hold. */
  predicate StackTag(t: Tag) { t == Valid || t == Zero || t == Special || t == Empty }

  /** The contents of a register as a value. */
  datatype Reg = Reg(sigl: u32, sigh: u32, exp: u16) {
    function Sig(): u64 { sigh * TWO32 + sigl }
    predicate Neg() { exp >= 0x8000 }
    function Field(): (f: nat)
      ensures f < 0x8000
    {
      exp % 0x8000
    }
    function Exponent(): int { Field() - EXTENDED_Ebias }
    function Exponent16(): int { if exp >= 0x8000 then exp - 0x1_0000 else exp }
  }

  function MakeReg(neg: bool, field: nat, sig: u64): (r: Reg)
    requires field < 0x8000
    ensures r.Sig() == sig && r.Field() == field && r.Neg() == neg
  {
    Reg(sig % TWO32, sig / TWO32, field + if neg then 0x8000 else 0)
  }

  const CONST_Z := Reg(0, 0, 0)
  const CONST_1 := Reg(0, BIT31, 0x3fff)
  const CONST_L2T := Reg(0xcd1b8afe, 0xd49a784b, 0x4000)
  const CONST_L2E := Reg(0x5c17f0bc, 0xb8aa3b29, 0x3fff)
  const CONST_PI := Reg(0x2168c235, 0xc90fdaa2, 0x4000)
  const CONST_LG2 := Reg(0xfbcff799, 0x9a209a84, 0x3ffd)
  const CONST_LN2 := Reg(0xd1cf79ac, 0xb17217f7, 0x3ffe)
  const CONST_QNaN := Reg(0, 0xc000_0000, 0xffff)

  /** FPU_tagof. */
  function TagOf(r: Reg): (t: Tag)
    ensures t == Valid || t == Zero || t == Special
  {
    if r.Field() == 0 then
      if r.Sig() == 0 then Zero else Special
    else if r.Field() == 0x7fff then Special
    else if r.sigh < BIT31 then Special
    else Valid
  }

  /** FPU_Special: what a register tagged Special really holds. */
  function SpecialKind(r: Reg): (t: Tag)
    ensures t == Denormal || t == Infinity || t == NaN
  {
    if r.Exponent() == EXP_UNDER then Denormal
    else if r.Exponent() != EXP_OVER then NaN
    else if r.sigh == BIT31 && r.sigl == 0 then Infinity
    else NaN
  }

  function Kind(r: Reg, tag: Tag): Tag {
    if tag == Special then SpecialKind(r) else tag
  }

  /** What the tags mean: Valid is a normal number, Zero a number that is zero, and
      Special everything else that a register can hold. */
  lemma TagOfMeans(r: Reg)
    ensures TagOf(r) == Valid <==> 0 < r.Field() < 0x7fff && r.Sig() >= TWO63
    ensures TagOf(r) == Zero <==> r.Field() == 0 && Mag(r) == 0
    ensures TagOf(r) == Special <==>
      r.Field() == 0x7fff || (r.Field() == 0 && r.Sig() > 0) || (0 < r.Field() && r.Sig() < TWO63)
  {
    if r.Field() == 0 { MulMonoRight(r.Sig(), 1, Pow2(62)); MulMonoRight(r.Sig(), 0, Pow2(62)); }
  }

  /** What a register in use holds, from its fields: NaN is everything that is neither a
      number nor an infinity, with the unsupported formats. */
  lemma KindMeans(r: Reg)
    ensures var k, f, s := Kind(r, TagOf(r)), r.Field(), r.Sig();
      && (k == Valid <==> 0 < f < 0x7fff && s >= TWO63)
      && (k == Denormal <==> f == 0 && s > 0)
      && (k == Zero <==> f == 0 && s == 0)
      && (k == Infinity <==> f == 0x7fff && s == TWO63)
      && (k == NaN <==> (f == 0x7fff && s != TWO63) || (0 < f < 0x7fff && s < TWO63))
  {
    Words(r);
  }

  /** A finite number other than zero: normal, denormal or pseudodenormal. */
  predicate Numeric(r: Reg) {
    TagOf(r) == Valid || (TagOf(r) == Special && SpecialKind(r) == Denormal)
  }

  /** The magnitude of a finite register in units of 2^-16508, which is fine enough
      for every register, also after its leading zeros have been shifted out. */
  function Mag(r: Reg): nat {
    r.Sig() * Pow2((if r.Field() == 0 then 1 else r.Field()) + 62)
  }

  /** The same for a significand with an unbiased exponent. */
  function MagOf(sig: nat, e: int): nat
    requires e >= -16445
  {
    sig * Pow2(e + 16445)
  }

  lemma MagValid(r: Reg)
    requires TagOf(r) == Valid
    ensures Mag(r) == MagOf(r.Sig(), r.Exponent()) && r.Sig() >= TWO63
  {
  }

  // ----- registers in place -----

  /** An FPU_REG that is passed by pointer and overwritten. */
  class FpuReg {
    var sigl: u32
    var sigh: u32
    var exp: u16

    function Val(): Reg
      reads this
    {
      Reg(sigl, sigh, exp)
    }

    constructor (r: Reg)
      ensures Val() == r
    {
      sigl, sigh, exp := r.sigl, r.sigh, r.exp;
    }

    method Set(r: Reg)
      modifies this
      ensures Val() == r
    {
      sigl, sigh, exp := r.sigl, r.sigh, r.exp;
    }

    /** Stores a 64-bit significand in the two words. */
    method SetSig(sig: u64)
      modifies this`sigl, this`sigh
      ensures Val().Sig() == sig
    {
      sigl, sigh := sig % TWO32, sig / TWO32;
    }

    /** significand(r)++ */
    method Increment()
      requires Val().Sig() + 1 < TWO64
      modifies this`sigl, this`sigh
      ensures Val().Sig() == old(Val().Sig()) + 1
    {
      if sigl == 0xffff_ffff {
        sigl, sigh := 0, sigh + 1;
      } else {
        sigl := sigl + 1;
      }
    }
  }

  /** FPU_normalize_nuo (reg_norm.S): shift out leading zeros, lowering the 16-bit
      exponent; zero gets the exponent EXP_UNDER. */
  method NormalizeNuo(r: FpuReg) returns (tag: Tag)
    modifies r
    ensures old(r.Val()).Sig() == 0 ==> tag == Zero && r.Val() == Reg(0, 0, EXP_UNDER + 0x1_0000)
    ensures var s := old(r.Val()).Sig(); s != 0 ==>
      && tag == Valid
      && r.Val().Sig() == s * Pow2(LeadingZeros(s))
      && r.exp == (old(r.exp) - LeadingZeros(s)) % 0x1_0000
  {
    var s := r.Val().Sig();
    if s == 0 {
      r.exp := EXP_UNDER + 0x1_0000;
      return Zero;
    }
    var n := LeadingZeros(s);
    r.SetSig(s * Pow2(n));
    r.exp := (r.exp - n) % 0x1_0000;
    return Valid;
  }

  // ----- FPU_round_to_int -----

  function ShiftRight(s: u64, n: nat): (r: u64) {
    FloorAtMost(s, Pow2(n));
    s / Pow2(n)
  }

  lemma FloorAtMost(s: nat, q: nat)
    requires q > 0
    ensures 0 <= s / q <= s
  {
    assert s == s / q * q + s % q;
    MulMonoRight(s / q, 1, q);
  }

  /** The extension word that FPU_shrxs (wm_shrx.S) returns: the leading 24 of the
      lost bits, and 1 at the bottom if any lost bit but the first is set. */
  function Extension(lost: nat, q: nat): (eax: u32)
    requires lost < q
  {
    LeadingFits(lost, q);
    lost * TWO32 / q / 0x100 * 0x100 + if 2 * lost % q != 0 then 1 else 0
  }

  lemma LeadingFits(lost: nat, q: nat)
    requires lost < q
    ensures 0 <= lost * TWO32 / q / 0x100 * 0x100 < TWO32 - 1
  {
    Commute(q, TWO32);
    MulStrict(lost, q, TWO32);
    FloorBelow(lost * TWO32, TWO32, q);
    FloorAtMost(lost * TWO32, q);
    ClearLow(lost * TWO32 / q);
  }

  lemma ClearLow(x: nat)
    requires x < TWO32
    ensures 0 <= x / 0x100 * 0x100 < TWO32 - 1
  {
  }

  function ShrExtension(s: u64, n: nat): (eax: u32) {
    Extension(s % Pow2(n), Pow2(n))
  }

  lemma LeadingLostBit(lost: nat, q: nat)
    requires lost < q
    ensures lost * TWO32 / q >= BIT31 <==> 2 * lost >= q
  {
    if 2 * lost >= q {
      FloorAtLeast(lost * TWO32, BIT31, q);
    } else {
      FloorBelow(lost * TWO32, BIT31, q);
    }
  }

  lemma OtherLostBits(lost: nat, q: nat)
    requires lost < q
    ensures 2 * lost % q == 0 <==> lost == 0 || 2 * lost == q
  {
    if 2 * lost >= q {
      DivModUnique(2 * lost, 1, 2 * lost - q, q);
    } else {
      ModSmall(2 * lost, q);
    }
  }

  /** The three tests that FPU_round_to_int makes on the extension word. */
  lemma ExtensionMeaning(lost: nat, q: nat)
    requires lost < q
    ensures var eax := Extension(lost, q);
      && (eax >= BIT31 <==> 2 * lost >= q)
      && (eax >= BIT31 && eax % 2 == 1 <==> 2 * lost > q)
      && (eax != 0 <==> lost != 0)
  {
    LeadingLostBit(lost, q);
    OtherLostBits(lost, q);
    ExtensionParts(lost * TWO32 / q, if 2 * lost % q != 0 then 1 else 0);
  }

  lemma ExtensionParts(t: int, bit: int)
    requires 0 <= bit <= 1
    ensures t / 0x100 * 0x100 + bit >= BIT31 <==> t >= BIT31
    ensures (t / 0x100 * 0x100 + bit) % 2 == bit
  {
    var k := t / 0x100;
    assert t == 0x100 * k + t % 0x100;
    DivModUnique(k * 0x100 + bit, k * 0x80, bit, 2);
  }

  /** What FPU_round_to_int leaves: the significand as an integer. */
  function RoundedSig(mode: Mode, r: Reg, tag: Tag): (n: u64) {
    if tag == Zero then 0
    else if r.Exponent() > 63 then TWO64 - 1
    else
      assert RoundMag(mode, r.Neg(), r.Sig(), Pow2(63 - r.Exponent())) < TWO64 by {
        RoundedFits(mode, r);
      }
      RoundMag(mode, r.Neg(), r.Sig(), Pow2(63 - r.Exponent()))
  }

  /** With an exponent of at most 63 rounding cannot reach 2^64: only a shift by
      nothing leaves all 64 bits set, and it loses no fraction. */
  lemma RoundedFits(mode: Mode, r: Reg)
    requires r.Exponent() <= 63
    ensures RoundMag(mode, r.Neg(), r.Sig(), Pow2(63 - r.Exponent())) < TWO64
  {
    var n, s := 63 - r.Exponent(), r.Sig();
    RoundMagNear(mode, r.Neg(), s, Pow2(n));
    if n == 0 {
      DivModUnique(s, s, 0, 1);
    } else {
      Pow2Mono(1, n);
      MulMonoRight(TWO63, 2, Pow2(n));
      FloorBelow(s, TWO63, Pow2(n));
    }
  }

  /** The return values of FPU_round_to_int: 0, 1, PRECISION_LOST_UP and
      PRECISION_LOST_DOWN. */
  datatype Loss = Exact | TooBig | LostUp | LostDown

  function RoundingCode(mode: Mode, r: Reg, tag: Tag): Loss {
    if tag == Zero then Exact
    else if r.Exponent() > 63 then TooBig
    else
      var s, q := r.Sig(), Pow2(63 - r.Exponent());
      if s % q == 0 then Exact
      else if RoundMag(mode, r.Neg(), s, q) == s / q then LostDown
      else LostUp
  }

  /** The code tells the truth: Exact exactly when nothing was lost, LostUp or LostDown
      exactly when the integer lies above or below the number. */
  lemma RoundingCodeTruthful(mode: Mode, r: Reg, tag: Tag)
    requires tag != Zero && r.Exponent() <= 63
    ensures var q, n, code := Pow2(63 - r.Exponent()), RoundedSig(mode, r, tag), RoundingCode(mode, r, tag);
      && IsRounding(mode, r.Neg(), r.Sig(), q, n)
      && (code == Exact <==> n * q == r.Sig())
      && (code == LostUp <==> n * q > r.Sig())
      && (code == LostDown <==> n * q < r.Sig())
  {
    RoundMagIsRounding(mode, r.Neg(), r.Sig(), Pow2(63 - r.Exponent()));
    RoundMagSide(mode, r.Neg(), r.Sig(), Pow2(63 - r.Exponent()));
  }

  lemma RoundMagSide(mode: Mode, neg: bool, s: nat, q: nat)
    requires q > 0
    ensures var n := RoundMag(mode, neg, s, q);
      && (s % q == 0 <==> n * q == s)
      && (s % q != 0 && n != s / q <==> n * q > s)
      && (s % q != 0 && n == s / q <==> n * q < s)
  {
    RoundMagNear(mode, neg, s, q);
    assert s == s / q * q + s % q;
    MulDistribute(s / q, 1, q);
  }

  method RoundToInt(r: FpuReg, tag: Tag, mode: Mode) returns (code: Loss)
    modifies r`sigl, r`sigh
    ensures r.Val().Sig() == RoundedSig(mode, old(r.Val()), tag)
    ensures code == RoundingCode(mode, old(r.Val()), tag)
  {
    if tag == Zero {
      r.SetSig(0);
      return Exact;
    }
    if r.Val().Exponent() > 63 {
      r.sigl, r.sigh := 0xffff_ffff, 0xffff_ffff;
      return TooBig;
    }
    UpDecision(mode, r.Val(), tag);
    var eax := Shrxs(r, 63 - r.Val().Exponent());
    Words(r.Val());
    var veryBig := r.sigh == 0xffff_ffff && r.sigl == 0xffff_ffff;
    if GoesUp(mode, r.Val().Neg(), eax, r.sigl) {
      if veryBig { return TooBig; }
      r.Increment();
      return LostUp;
    }
    return if eax != 0 then LostDown else Exact;
  }

  /** The switch of FPU_round_to_int on the rounding control field. */
  predicate GoesUp(mode: Mode, neg: bool, eax: u32, sigl: u32) {
    var halfOrMore := eax >= BIT31;
    var moreThanHalf := halfOrMore && eax % 2 == 1;
    match mode
    case RND => moreThanHalf || (halfOrMore && sigl % 2 == 1)
    case DOWN => eax != 0 && neg
    case UP => eax != 0 && !neg
    case CHOP => false
  }

  lemma LowWordParity(f: nat)
    ensures f % TWO32 % 2 == f % 2
  {
    ModEqual(f, f % TWO32, f / TWO32 * BIT31, 2);
  }

  lemma Words(r: Reg)
    ensures r.Sig() % TWO32 == r.sigl && r.Sig() / TWO32 == r.sigh
  {
    DivModUnique(r.Sig(), r.sigh, r.sigl, TWO32);
  }

  /** The decision to go up, from the extension word and the low word of the floor. */
  lemma UpDecision(mode: Mode, r: Reg, tag: Tag)
    requires tag != Zero && r.Exponent() <= 63
    ensures var n := 63 - r.Exponent();
      var f, eax := ShiftRight(r.Sig(), n), ShrExtension(r.Sig(), n);
      var up := GoesUp(mode, r.Neg(), eax, f % TWO32);
      && RoundedSig(mode, r, tag) == f + (if up then 1 else 0)
      && RoundingCode(mode, r, tag) == (if up then LostUp else if eax != 0 then LostDown else Exact)
  {
    var n := 63 - r.Exponent();
    GoesUpIsRoundMag(mode, r.Neg(), r.Sig(), Pow2(n), ShiftRight(r.Sig(), n), r.Sig() % Pow2(n));
    RoundedFits(mode, r);
  }

  lemma GoesUpIsRoundMag(mode: Mode, neg: bool, s: nat, q: nat, f: nat, lost: nat)
    requires q > 0 && f == s / q && lost == s % q
    ensures RoundMag(mode, neg, s, q) == f + if GoesUp(mode, neg, Extension(lost, q), f % TWO32) then 1 else 0
    ensures Extension(lost, q) == 0 <==> lost == 0
  {
    ExtensionMeaning(lost, q);
    LowWordParity(f);
  }

  /** FPU_shrxs: shift right in place, returning the extension word. */
  method Shrxs(r: FpuReg, n: nat) returns (eax: u32)
    modifies r`sigl, r`sigh
    ensures r.Val().Sig() == ShiftRight(old(r.Val()).Sig(), n)
    ensures eax == ShrExtension(old(r.Val()).Sig(), n)
  {
    eax := ShrExtension(r.Val().Sig(), n);
    r.SetSig(ShiftRight(r.Val().Sig(), n));
  }
}
