/** The three string-length functions of examples/strlen-compare/strlen-test.c: byte by
    byte, by a string instruction, and four bytes at a time. */
module StringLength {

  type Byte = bv8

  /** The specification: the position of the first NUL. */
  predicate IsLength(s: seq<Byte>, n: nat) {
    n < |s| && s[n] == 0 && forall i :: 0 <= i < n ==> s[i] != 0
  }

  predicate Terminated(s: seq<Byte>) { exists i :: 0 <= i < |s| && s[i] == 0 }

  /** A string has one length. */
  lemma LengthUnique(s: seq<Byte>, m: nat, n: nat)
    requires IsLength(s, m) && IsLength(s, n)
    ensures m == n
  {
  }

  /** The scan has not passed the NUL. */
  lemma StillInside(s: seq<Byte>, n: nat)
    requires Terminated(s) && n <= |s| && forall i :: 0 <= i < n ==> s[i] != 0
    ensures n < |s|
  {
  }

  method SimpleStrlen(s: array<Byte>) returns (n: nat)
    requires Terminated(s[..])
    ensures IsLength(s[..], n)
  {
    n := 0;
    while s[n] != 0
      invariant n < s.Length && forall i :: 0 <= i < n ==> s[..][i] != 0
      decreases s.Length - n
    {
      StillInside(s[..], n + 1);
      n := n + 1;
    }
  }

  /** repnz scasb counts ecx down from -1, once for every byte it looks at. */
  method ScasbStrlen(s: array<Byte>) returns (n: nat)
    requires Terminated(s[..]) && s.Length < 0x1_0000_0000
    ensures IsLength(s[..], n)
  {
    var ecx, edi, zf := 0xffff_ffff, 0, false;
    while ecx != 0 && !zf
      invariant 0 <= edi <= s.Length && ecx == 0xffff_ffff - edi
      invariant zf ==> edi >= 1 && IsLength(s[..], edi - 1)
      invariant !zf ==> edi < s.Length && forall i :: 0 <= i < edi ==> s[..][i] != 0
      decreases ecx
    {
      zf := s[edi] == 0;
      if !zf { StillInside(s[..], edi + 1); }
      edi := edi + 1;
      ecx := ecx - 1;
    }
    // cnt is an int, the result a size_t.
    var cnt := if ecx >= 0x8000_0000 then ecx - 0x1_0000_0000 else ecx;
    n := (-2 - cnt) % 0x1_0000_0000;
  }

  /** A 32-bit word as the machine loads it, low byte first. */
  function Word(b0: Byte, b1: Byte, b2: Byte, b3: Byte): bv32 {
    (b0 as bv32) | ((b1 as bv32) << 8) | ((b2 as bv32) << 16) | ((b3 as bv32) << 24)
  }

  predicate Hit(w: bv32) { (w - 0x0101_0101) & 0x8080_8080 != 0 }

  /** The test passes exactly for words with a zero byte or a byte above 0x80: no
      zero is missed, and the false hits are known. */
  lemma HitIff(b0: Byte, b1: Byte, b2: Byte, b3: Byte)
    ensures Hit(Word(b0, b1, b2, b3)) <==>
      || b0 == 0 || b1 == 0 || b2 == 0 || b3 == 0
      || b0 > 0x80 || b1 > 0x80 || b2 > 0x80 || b3 > 0x80
  {
  }

  /** Four bytes at a time; a false hit only goes on. */
  method TrickyStrlen(s: array<Byte>) returns (n: nat)
    requires Terminated(s[..]) && s.Length % 4 == 0
    ensures IsLength(s[..], n)
  {
    var cp := 0;
    while true
      invariant 0 <= cp <= s.Length && cp % 4 == 0 && forall i :: 0 <= i < cp ==> s[..][i] != 0
      decreases s.Length - cp
    {
      StillInside(s[..], cp);
      var longword := Word(s[cp], s[cp + 1], s[cp + 2], s[cp + 3]);
      HitIff(s[cp], s[cp + 1], s[cp + 2], s[cp + 3]);
      if Hit(longword) {
        if s[cp] == 0 { return cp; }
        if s[cp + 1] == 0 { return cp + 1; }
        if s[cp + 2] == 0 { return cp + 2; }
        if s[cp + 3] == 0 { return cp + 3; }
      }
      cp := cp + 4;
    }
  }

  /** (simple - scasb) | (simple - tricky) is zero: the three agree. */
  method StrlenCompare(buf: array<Byte>) returns (difference: bv32)
    requires Terminated(buf[..]) && buf.Length % 4 == 0 && buf.Length < 0x8000_0000
    ensures difference == 0
  {
    var simple := SimpleStrlen(buf);
    var scasb := ScasbStrlen(buf);
    var tricky := TrickyStrlen(buf);
    LengthUnique(buf[..], simple, scasb);
    LengthUnique(buf[..], simple, tricky);
    difference := ((simple - scasb) as bv32) | ((simple - tricky) as bv32);
  }
}
