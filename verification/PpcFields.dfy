/**
 Instruction fields of the PPC64 assembler: the encoders that place a value at bits hi..lo of
 an instruction word and the decoders that take it out again.  Words are unsigned, and a
 C `int` argument is the integer it denotes.
 */
module PpcFields {
  import opened Bits

  type Word = w: nat | w < 0x1_0000_0000

  /** Bit ranges narrower than a word, numbered from the least significant bit. */
  predicate Range(hi: int, lo: int) {
    0 <= lo <= hi < 32 && hi - lo < 31
  }

  function Width(hi: int, lo: int): nat
    requires Range(hi, lo)
  {
    hi - lo + 1
  }

  /** The values the assertion in u_field lets through. */
  predicate FitsUnsigned(x: int, hi: int, lo: int)
    requires Range(hi, lo)
  {
    0 <= x < Pow2(Width(hi, lo))
  }

  predicate FitsSigned(x: int, hi: int, lo: int)
    requires Range(hi, lo)
  {
    0 - Pow2(hi - lo) <= x < Pow2(hi - lo)
  }

  function UField(x: int, hi: int, lo: int): (w: Word)
    requires Range(hi, lo) && FitsUnsigned(x, hi, lo)
  {
    ShlBound(x, Width(hi, lo), lo);
    Pow2Monotone(hi + 1, 32);
    Pow2Values();
    Shl(x, lo)
  }

  function SField(x: int, hi: int, lo: int): (w: Word)
    requires Range(hi, lo) && FitsSigned(x, hi, lo)
  {
    UField(Low(x, Width(hi, lo)), hi, lo)
  }

  function InvUField(w: Word, hi: int, lo: int): nat
    requires Range(hi, lo)
  {
    Low(Shr(w, lo), Width(hi, lo))
  }

  /** Reads an unsigned 32-bit word as a C `int`. */
  function AsInt(w: Word): int {
    if w >= 0x8000_0000 then w - 0x1_0000_0000 else w
  }

  function Wrap32(x: int): Word {
    x % 0x1_0000_0000
  }

  /** Shifts the field up to the sign bit and back down arithmetically. */
  function InvSField(w: Word, hi: int, lo: int): int
    requires Range(hi, lo)
  {
    Shr(AsInt(Wrap32(Shl(w, 31 - hi))), 31 - hi + lo)
  }

  /** The n-bit two's complement value of f. */
  function SignExtend(f: nat, n: nat): int
    requires n > 0
  {
    if f >= Pow2(n - 1) then f - Pow2(n) else f
  }

  lemma {:induction false} SignExtendShr(f: nat, n: nat, lo: nat)
    requires lo < n && f < Pow2(n)
    ensures 0 <= Shr(f, lo) < Pow2(n - lo)
    ensures Shr(SignExtend(f, n), lo) == SignExtend(Shr(f, lo), n - lo)
    decreases lo
  {
    ShrBound(f, n, lo);
    if lo > 0 {
      SignExtendShr(f / 2, n - 1, lo - 1);
      assert SignExtend(f, n) / 2 == SignExtend(f / 2, n - 1);
    }
  }

  lemma {:induction false} SignExtendLow(x: int, n: nat)
    requires n > 0 && 0 - Pow2(n - 1) <= x < Pow2(n - 1)
    ensures SignExtend(Low(x, n), n) == x
    decreases n
  {
    if n > 1 { SignExtendLow(x / 2, n - 1); }
  }

  // ----- what the decoders compute -----

  /** Shifting left by 31 - hi puts the sign of the low hi + 1 bits at the sign bit. */
  lemma ShiftedToSign(w: Word, hi: nat)
    requires hi < 32
    ensures AsInt(Wrap32(Shl(w, 31 - hi))) == Shl(SignExtend(Low(w, hi + 1), hi + 1), 31 - hi)
  {
    var j := 31 - hi;
    var f := Low(w, hi + 1);
    assert Wrap32(Shl(w, j)) == Shl(f, j) by {
      Pow2Values();
      DivMod(Shl(w, j), 32);
      LowShl(w, j, hi + 1);
    }
    assert Shl(Pow2(hi), j) == 0x8000_0000 && Shl(Pow2(hi + 1), j) == 0x1_0000_0000 by {
      Pow2Values();
      ShlPow2(hi, j);
      ShlPow2(hi + 1, j);
    }
    ShlMonotone(f, Pow2(hi), j);
    ShlMonotone(Pow2(hi), f, j);
    ShlMonotone(f, Pow2(hi + 1), j);
  }

  /** The shift-up, shift-down decoder returns the two's complement value of the field. */
  lemma InvSFieldSignExtends(w: Word, hi: int, lo: int)
    requires Range(hi, lo)
    ensures InvSField(w, hi, lo) == SignExtend(InvUField(w, hi, lo), Width(hi, lo))
  {
    var j := 31 - hi;
    var f := Low(w, hi + 1);
    var s := SignExtend(f, hi + 1);
    ShiftedToSign(w, hi);
    ShrAdd(Shl(s, j), j, lo);
    SplitUnique(s, 0, j);
    SignExtendShr(f, hi + 1, lo);
    LowShr(w, lo, Width(hi, lo));
  }

  lemma InvUFieldUndoes(x: int, hi: int, lo: int)
    requires Range(hi, lo) && FitsUnsigned(x, hi, lo)
    ensures InvUField(UField(x, hi, lo), hi, lo) == x
  {
    SplitUnique(x, 0, lo);
    SplitUnique(0, x, Width(hi, lo));
    ShlNonNegative(0, Width(hi, lo));
  }

  lemma InvSFieldUndoes(x: int, hi: int, lo: int)
    requires Range(hi, lo) && FitsSigned(x, hi, lo)
    ensures InvSField(SField(x, hi, lo), hi, lo) == x
  {
    InvUFieldUndoes(Low(x, Width(hi, lo)), hi, lo);
    InvSFieldSignExtends(SField(x, hi, lo), hi, lo);
    SignExtendLow(x, Width(hi, lo));
  }

  /** What s_field accepts is exactly what inv_s_field can read from some word. */
  lemma SignedExact(x: int, hi: int, lo: int)
    requires Range(hi, lo)
    ensures FitsSigned(x, hi, lo) <==> exists w: Word :: InvSField(w, hi, lo) == x
  {
    hide InvSField;
    if FitsSigned(x, hi, lo) { InvSFieldUndoes(x, hi, lo); }
    if w: Word :| InvSField(w, hi, lo) == x { InvSFieldSignExtends(w, hi, lo); }
  }

  /** What u_field accepts is exactly what inv_u_field can read from some word. */
  lemma UnsignedExact(x: int, hi: int, lo: int)
    requires Range(hi, lo)
    ensures FitsUnsigned(x, hi, lo) <==> exists w: Word :: InvUField(w, hi, lo) == x
  {
    hide UField;
    if FitsUnsigned(x, hi, lo) { InvUFieldUndoes(x, hi, lo); }
  }

  function OrWord(a: Word, b: Word): (w: Word) {
    Pow2Values();
    OrBound(a, b, 32);
    Or(a, b)
  }

  /** A field lying wholly above or wholly below bits hi..lo reads zero there. */
  lemma FieldElsewhere(x: int, hi: int, lo: int, hi': int, lo': int)
    requires Range(hi, lo) && FitsUnsigned(x, hi, lo)
    requires Range(hi', lo') && (hi < lo' || hi' < lo)
    ensures InvUField(UField(x, hi, lo), hi', lo') == 0
  {
    var n' := Width(hi', lo');
    ShlNonNegative(0, n');
    SplitUnique(0, 0, n');
    if hi < lo' {
      ShlBound(x, Width(hi, lo), lo);
      ShrBound(UField(x, hi, lo), hi + 1, lo');
    } else {
      var d := lo - (hi' + 1);
      ShlAdd(x, d, hi' + 1);
      LowShr(UField(x, hi, lo), lo', n');
      ShlNonNegative(0, hi' + 1);
      SplitUnique(Shl(x, d), 0, hi' + 1);
      ShrBound(0, 0, lo');
    }
  }

  /** OR-ing a field into a word changes no decoded field outside it, and sets the field it
      is placed in when that field was clear. */
  lemma OrInField(w: Word, x: int, hi: int, lo: int, hi': int, lo': int)
    requires Range(hi, lo) && FitsUnsigned(x, hi, lo) && Range(hi', lo')
    ensures hi < lo' || hi' < lo ==>
              InvUField(OrWord(w, UField(x, hi, lo)), hi', lo') == InvUField(w, hi', lo')
    ensures InvUField(w, hi, lo) == 0 ==> InvUField(OrWord(w, UField(x, hi, lo)), hi, lo) == x
  {
    var f := UField(x, hi, lo);
    OrFields(w, f, lo);
    OrFields(Shr(w, lo), Shr(f, lo), Width(hi, lo));
    InvUFieldUndoes(x, hi, lo);
    OrZero(x);
    if hi < lo' || hi' < lo {
      OrFields(w, f, lo');
      OrFields(Shr(w, lo'), Shr(f, lo'), Width(hi', lo'));
      FieldElsewhere(x, hi, lo, hi', lo');
      OrZero(InvUField(w, hi', lo'));
    }
  }

  /** The six bits at the top of an instruction word. */
  function Opcode(inst: Word): nat {
    InvUField(inst, 31, 26)
  }

  lemma TopField(w: Word, lo: nat)
    requires 0 < lo < 32
    ensures InvUField(w, 31, lo) == Shr(w, lo)
  {
    assert 0 <= Shr(w, lo) < Pow2(32 - lo) by {
      Pow2Values();
      ShrBound(w, 32, lo);
    }
    ShlNonNegative(0, 32 - lo);
    SplitUnique(0, Shr(w, lo), 32 - lo);
  }

  lemma OpcodeValue(w: Word)
    ensures Opcode(w) == w / 0x400_0000
  {
    Pow2Values();
    TopField(w, 26);
    At(w, 26, 0x400_0000);
  }
}
