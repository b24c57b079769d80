/**
 Branch patching: replacing the displacement field of an already emitted branch, and reading
 the destination of a branch back out of its instruction word.
 */
module PpcBranch {
  import opened Bits
  import opened PpcFields

  const B_OP := 18
  const BC_OP := 16

  type Int32 = x: int | -0x8000_0000 <= x < 0x8000_0000

  predicate IsBranch(inst: Word) {
    Opcode(inst) == B_OP || Opcode(inst) == BC_OP
  }

  /** Top bit of the displacement field: LI ends at bit 25 and BD at bit 15, both start at bit 2. */
  function DisplacementTop(inst: Word): int
    requires IsBranch(inst)
  {
    if Opcode(inst) == B_OP then 25 else 15
  }

  /** Displacement in words, computed as a C `int`. */
  function Disp(dest: Int32, pos: Int32): int {
    Shr(AsInt(Wrap32(dest - pos)), 2)
  }

  /** The displacement passes the range assertion of s_field. */
  predicate InReach(dest: Int32, inst: Word, pos: Int32)
    requires IsBranch(inst)
  {
    FitsSigned(Disp(dest, pos), DisplacementTop(inst), 2)
  }

  /** inst & ~m | v, where m is the mask and v the new value of the field. */
  function ReplaceField(inst: Word, x: int, hi: int, lo: int): Word
    requires Range(hi, lo) && FitsSigned(x, hi, lo)
  {
    OrWord(AndNot(inst, SField(-1, hi, lo)), SField(x, hi, lo))
  }

  function PatchedBranch(dest: Int32, inst: Word, pos: Int32): Word
    requires IsBranch(inst) && InReach(dest, inst, pos)
  {
    ReplaceField(inst, Disp(dest, pos), DisplacementTop(inst), 2)
  }

  function BranchDestination(inst: Word, pos: Int32): Int32
    requires IsBranch(inst)
  {
    AsInt(Wrap32(pos + Shl(InvSField(inst, DisplacementTop(inst), 2), 2)))
  }

  // ----- replacing a field -----

  lemma ClearedField(inst: Word, hi: int, lo: int, hi': int, lo': int)
    requires Range(hi, lo) && Range(hi', lo')
    ensures InvUField(AndNot(inst, SField(-1, hi, lo)), hi, lo) == 0
    ensures hi < lo' || hi' < lo ==>
              InvUField(AndNot(inst, SField(-1, hi, lo)), hi', lo') == InvUField(inst, hi', lo')
  {
    var ones := Low(-1, Width(hi, lo));
    var m := SField(-1, hi, lo);
    InvUFieldUndoes(ones, hi, lo);
    AndNotFields(inst, m, lo);
    AndNotFields(Shr(inst, lo), Shr(m, lo), Width(hi, lo));
    AndNotOnes(InvUField(inst, hi, lo), Width(hi, lo));
    if hi < lo' || hi' < lo {
      FieldElsewhere(ones, hi, lo, hi', lo');
      AndNotFields(inst, m, lo');
      AndNotFields(Shr(inst, lo'), Shr(m, lo'), Width(hi', lo'));
      AndNotZero(InvUField(inst, hi', lo'));
    }
  }

  lemma ReplacedField(inst: Word, x: int, hi: int, lo: int, hi': int, lo': int)
    requires Range(hi, lo) && FitsSigned(x, hi, lo) && Range(hi', lo')
    ensures InvSField(ReplaceField(inst, x, hi, lo), hi, lo) == x
    ensures hi < lo' || hi' < lo ==>
              InvUField(ReplaceField(inst, x, hi, lo), hi', lo') == InvUField(inst, hi', lo')
  {
    ClearedField(inst, hi, lo, hi', lo');
    OrInField(AndNot(inst, SField(-1, hi, lo)), Low(x, Width(hi, lo)), hi, lo, hi', lo');
    InvSFieldSignExtends(ReplaceField(inst, x, hi, lo), hi, lo);
    SignExtendLow(x, Width(hi, lo));
  }

  lemma Reassemble(w: Word, hi: int, lo: int)
    requires Range(hi, lo) && 0 < lo && hi < 31
    ensures w == Shl(Shl(InvUField(w, 31, hi + 1), Width(hi, lo)) + InvUField(w, hi, lo), lo)
                 + InvUField(w, lo - 1, 0)
  {
    var n := Width(hi, lo);
    Split(w, lo);
    Split(Shr(w, lo), n);
    ShrAdd(w, lo, n);
    TopField(w, hi + 1);
  }

  /** A word is its field at hi..lo together with the bits above and below that field. */
  lemma FieldsDetermine(v: Word, w: Word, hi: int, lo: int)
    requires Range(hi, lo) && 0 < lo && hi < 31
    requires InvUField(v, hi, lo) == InvUField(w, hi, lo)
    requires InvUField(v, 31, hi + 1) == InvUField(w, 31, hi + 1)
    requires InvUField(v, lo - 1, 0) == InvUField(w, lo - 1, 0)
    ensures v == w
  {
    Reassemble(v, hi, lo);
    Reassemble(w, hi, lo);
  }

  // ----- patching branches -----

  /** Patching sets the displacement and leaves every bit outside it, so also the opcode, alone. */
  lemma PatchTouchesOnlyDisplacement(dest: Int32, inst: Word, pos: Int32, hi: int, lo: int)
    requires IsBranch(inst) && InReach(dest, inst, pos)
    requires Range(hi, lo) && (DisplacementTop(inst) < lo || hi < 2)
    ensures InvUField(PatchedBranch(dest, inst, pos), hi, lo) == InvUField(inst, hi, lo)
    ensures Opcode(PatchedBranch(dest, inst, pos)) == Opcode(inst)
  {
    ReplacedField(inst, Disp(dest, pos), DisplacementTop(inst), 2, hi, lo);
    ReplacedField(inst, Disp(dest, pos), DisplacementTop(inst), 2, 31, 26);
  }

  /** Reading back a patched branch gives the destination it was patched to exactly when that
      destination is a whole number of words away. */
  lemma PatchRoundTrip(dest: Int32, inst: Word, pos: Int32)
    requires IsBranch(inst) && InReach(dest, inst, pos)
    ensures IsBranch(PatchedBranch(dest, inst, pos))
    ensures BranchDestination(PatchedBranch(dest, inst, pos), pos) == dest <==> (dest - pos) % 4 == 0
  {
    PatchTouchesOnlyDisplacement(dest, inst, pos, 1, 0);
    ReplacedField(inst, Disp(dest, pos), DisplacementTop(inst), 2, 1, 0);
    var d := AsInt(Wrap32(dest - pos));
    WordsTimesFour(d);
    WrapBack(dest, pos);
  }

  /** A bc, opcode 16: the 14 bits from bit 2 on become the displacement in words, and the condition
      in bits 25 to 16, AA and LK stay. */
  lemma PatchedBc(dest: Int32, inst: Word, pos: Int32)
    requires InvUField(inst, 31, 26) == 16 && InReach(dest, inst, pos)
    ensures var w := PatchedBranch(dest, inst, pos);
            && InvUField(w, 31, 26) == 16 && InvUField(w, 25, 16) == InvUField(inst, 25, 16)
            && InvUField(w, 1, 0) == InvUField(inst, 1, 0)
            && InvSField(w, 15, 2) == Disp(dest, pos)
    ensures -0x8000_0000 <= dest - pos < 0x8000_0000 && (dest - pos) % 4 == 0 ==>
              4 * InvSField(PatchedBranch(dest, inst, pos), 15, 2) == dest - pos
  {
    hide InvSField;
    hide InvUField;
    hide ReplaceField;
    hide Disp;
    hide FitsSigned;
    ReplacedField(inst, Disp(dest, pos), 15, 2, 31, 26);
    ReplacedField(inst, Disp(dest, pos), 15, 2, 25, 16);
    ReplacedField(inst, Disp(dest, pos), 15, 2, 1, 0);
    DispWords(dest, pos);
  }

  /** A b, opcode 18: the 24 bits from bit 2 on become the displacement in words, and AA and LK stay. */
  lemma PatchedB(dest: Int32, inst: Word, pos: Int32)
    requires InvUField(inst, 31, 26) == 18 && InReach(dest, inst, pos)
    ensures var w := PatchedBranch(dest, inst, pos);
            && InvUField(w, 31, 26) == 18 && InvUField(w, 1, 0) == InvUField(inst, 1, 0)
            && InvSField(w, 25, 2) == Disp(dest, pos)
    ensures -0x8000_0000 <= dest - pos < 0x8000_0000 && (dest - pos) % 4 == 0 ==>
              4 * InvSField(PatchedBranch(dest, inst, pos), 25, 2) == dest - pos
  {
    hide InvSField;
    hide InvUField;
    hide ReplaceField;
    hide Disp;
    hide FitsSigned;
    ReplacedField(inst, Disp(dest, pos), 25, 2, 31, 26);
    ReplacedField(inst, Disp(dest, pos), 25, 2, 1, 0);
    DispWords(dest, pos);
  }

  /** A b reaches 32 megabytes either way and a bc 32 kilobytes. */
  lemma ReachExact(dest: Int32, inst: Word, pos: Int32)
    requires IsBranch(inst)
    ensures InvUField(inst, 31, 26) == 18 ==>
              (InReach(dest, inst, pos) <==> -0x200_0000 <= AsInt(Wrap32(dest - pos)) < 0x200_0000)
    ensures InvUField(inst, 31, 26) == 16 ==>
              (InReach(dest, inst, pos) <==> -0x8000 <= AsInt(Wrap32(dest - pos)) < 0x8000)
  {
    hide InvUField;
    Pow2Values();
    At(AsInt(Wrap32(dest - pos)), 2, 4);
  }

  /** The destination of any branch word, by the positions of its bits. */
  lemma DestinationOf(inst: Word, pos: Int32)
    requires IsBranch(inst)
    ensures InvUField(inst, 31, 26) == 18 ==>
              BranchDestination(inst, pos) == AsInt(Wrap32(pos + 4 * SignExtend(inst / 4 % 0x100_0000, 24)))
    ensures InvUField(inst, 31, 26) == 16 ==>
              BranchDestination(inst, pos) == AsInt(Wrap32(pos + 4 * SignExtend(inst / 4 % 0x4000, 14)))
  {
    hide InvUField;
    hide InvSField;
    hide SignExtend;
    FieldFromTwo(inst, 25);
    FieldFromTwo(inst, 15);
    Pow2Values();
    At(InvSField(inst, DisplacementTop(inst), 2), 2, 4);
  }

  lemma FieldFromTwo(inst: Word, hi: int)
    requires 2 <= hi < 31
    ensures InvSField(inst, hi, 2) == SignExtend(inst / 4 % Pow2(hi - 1), hi - 1)
  {
    hide InvSField;
    InvSFieldSignExtends(inst, hi, 2);
    Pow2Values();
    At(inst, 2, 4);
    At(inst / 4, hi - 1, Pow2(hi - 1));
  }

  lemma DispWords(dest: Int32, pos: Int32)
    ensures -0x8000_0000 <= dest - pos < 0x8000_0000 && (dest - pos) % 4 == 0 ==> 4 * Disp(dest, pos) == dest - pos
  {
    Pow2Values();
    At(AsInt(Wrap32(dest - pos)), 2, 4);
  }

  lemma WordsTimesFour(d: int)
    ensures Shl(Shr(d, 2), 2) == d - d % 4
  {
    Split(d, 2);
    Pow2Values();
    DivMod(d, 2);
  }

  lemma WrapBack(dest: Int32, pos: Int32)
    ensures var d := AsInt(Wrap32(dest - pos));
            AsInt(Wrap32(pos + d - d % 4)) == dest <==> (dest - pos) % 4 == 0
  {
  }

  /** Patching a branch again forgets the first destination. */
  lemma RepatchForgets(first: Int32, dest: Int32, inst: Word, pos: Int32)
    requires IsBranch(inst) && InReach(first, inst, pos) && InReach(dest, inst, pos)
    ensures IsBranch(PatchedBranch(first, inst, pos))
    ensures InReach(dest, PatchedBranch(first, inst, pos), pos)
    ensures PatchedBranch(dest, PatchedBranch(first, inst, pos), pos) == PatchedBranch(dest, inst, pos)
  {
    var once := PatchedBranch(first, inst, pos);
    var top := DisplacementTop(inst);
    var x := Disp(dest, pos);
    PatchTouchesOnlyDisplacement(first, inst, pos, 31, top + 1);
    PatchTouchesOnlyDisplacement(first, inst, pos, 1, 0);
    SetFieldValue(once, x, top);
    SetFieldValue(inst, x, top);
    ReplacedField(once, x, top, 2, 31, top + 1);
    ReplacedField(inst, x, top, 2, 31, top + 1);
    ReplacedField(once, x, top, 2, 1, 0);
    ReplacedField(inst, x, top, 2, 1, 0);
    FieldsDetermine(ReplaceField(once, x, top, 2), ReplaceField(inst, x, top, 2), top, 2);
  }

  lemma SetFieldValue(inst: Word, x: int, hi: int)
    requires Range(hi, 2) && FitsSigned(x, hi, 2)
    ensures InvUField(ReplaceField(inst, x, hi, 2), hi, 2) == Low(x, Width(hi, 2))
  {
    ClearedField(inst, hi, 2, 1, 0);
    OrInField(AndNot(inst, SField(-1, hi, 2)), Low(x, Width(hi, 2)), hi, 2, 1, 0);
  }
}
