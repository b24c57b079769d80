/**
 The PPC64 instructions the constant loaders and memory accessors emit: their encoding into
 instruction words, their decoding, and their effect on registers and memory (Power ISA 2.06,
 books I.3.3.2, I.3.3.3, I.3.3.8, I.3.3.11 and I.3.3.12).
 */
module PpcIsa {
  import opened Bits
  import opened Options
  import opened PpcFields

  type Reg = r: nat | r < 32
  type Simm16 = x: int | -0x8000 <= x < 0x8000
  type Uimm16 = x: nat | x < 0x1_0000
  type Index6 = x: nat | x < 64

  const R0: Reg := 0

  datatype LoadOp = LD | LWA | LWZ | LHA | LHZ | LBZ
  datatype StoreOp = STD | STW | STH | STB

  datatype Instr =
    | Addi(rt: Reg, ra: Reg, si: Simm16)
    | Addis(rt: Reg, ra: Reg, si: Simm16)
    | Ori(ra: Reg, rs: Reg, ui: Uimm16)
    | Oris(ra: Reg, rs: Reg, ui: Uimm16)
    | Rldicr(ra: Reg, rs: Reg, sh: Index6, me: Index6)
    | Rldimi(ra: Reg, rs: Reg, sh: Index6, mb: Index6)
    | Load(lop: LoadOp, rt: Reg, ra: Reg, d: Simm16)
    | LoadX(lop: LoadOp, rt: Reg, ra: Reg, rb: Reg)
    | Store(sop: StoreOp, rs: Reg, ra: Reg, d: Simm16)
    | StoreX(sop: StoreOp, rs: Reg, ra: Reg, rb: Reg)

  // ----- encoding -----

  /** The operations whose displacement field lacks its two low bits. */
  predicate LoadIsDs(op: LoadOp) { op.LD? || op.LWA? }
  predicate StoreIsDs(op: StoreOp) { op.STD? }

  /** What the assertion in ds() demands. */
  predicate Encodable(i: Instr) {
    (i.Load? && LoadIsDs(i.lop) ==> i.d % 4 == 0) && (i.Store? && StoreIsDs(i.sop) ==> i.d % 4 == 0)
  }

  function LoadOpcode(op: LoadOp): nat {
    match op case LD => 58 case LWA => 58 case LWZ => 32 case LHA => 42 case LHZ => 40 case LBZ => 34
  }

  function LoadXo(op: LoadOp): nat {
    match op case LD => 21 case LWA => 341 case LWZ => 23 case LHA => 343 case LHZ => 279 case LBZ => 87
  }

  function StoreOpcode(op: StoreOp): nat {
    match op case STD => 62 case STW => 36 case STH => 44 case STB => 38
  }

  function StoreXo(op: StoreOp): nat {
    match op case STD => 149 case STW => 151 case STH => 407 case STB => 215
  }

  /** x & 0xFFFF */
  function Imm16(x: int): Uimm16 { x % 0x1_0000 }

  function FormD(op: nat, t: Reg, a: Reg, imm: Uimm16): Word
    requires op < 64
  {
    Pow2Values();
    OrWord(OrWord(OrWord(UField(op, 31, 26), UField(t, 25, 21)), UField(a, 20, 16)), imm)
  }

  function FormX(op: nat, t: Reg, a: Reg, b: Reg, xo: nat): Word
    requires op < 64 && xo < 1024
  {
    Pow2Values();
    OrWord(OrWord(FormD(op, t, a, 0), UField(b, 15, 11)), UField(xo, 10, 1))
  }

  /** mb2126: the six bits of x with the top one moved to the bottom, at bits 10..5 */
  function SplitMask(x: Index6): Word {
    Pow2Values();
    UField(2 * (x % 32) + x / 32, 10, 5)
  }

  /** sh162030: the low five bits of x at bits 15..11 and the top one at bit 1 */
  function SplitShift(x: Index6): Word {
    Pow2Values();
    OrWord(UField(x % 32, 15, 11), UField(x / 32, 1, 1))
  }

  function FormMd(s: Reg, a: Reg, sh: Index6, m: Index6, xo: nat): Word
    requires xo < 8
  {
    Pow2Values();
    OrWord(OrWord(OrWord(FormD(30, s, a, 0), SplitShift(sh)), SplitMask(m)), UField(xo, 4, 2))
  }

  function Encode(i: Instr): Word {
    match i
    case Addi(rt, ra, si) => FormD(14, rt, ra, Imm16(si))
    case Addis(rt, ra, si) => FormD(15, rt, ra, Imm16(si))
    case Ori(ra, rs, ui) => FormD(24, rs, ra, ui)
    case Oris(ra, rs, ui) => FormD(25, rs, ra, ui)
    case Rldicr(ra, rs, sh, me) => FormMd(rs, ra, sh, me, 1)
    case Rldimi(ra, rs, sh, mb) => FormMd(rs, ra, sh, mb, 3)
    case Load(op, rt, ra, d) => OrWord(FormD(LoadOpcode(op), rt, ra, Imm16(d)), if op.LWA? then 2 else 0)
    case LoadX(op, rt, ra, rb) => FormX(31, rt, ra, rb, LoadXo(op))
    case Store(op, rs, ra, d) => FormD(StoreOpcode(op), rs, ra, Imm16(d))
    case StoreX(op, rs, ra, rb) => FormX(31, rs, ra, rb, StoreXo(op))
  }

  // ----- decoding -----

  function Signed16(u: Uimm16): Simm16 { if u >= 0x8000 then u - 0x1_0000 else u }

  function DecodeX(t: Reg, a: Reg, b: Reg, xo: nat): Option<Instr> {
    if xo == 21 then Some(LoadX(LD, t, a, b))
    else if xo == 341 then Some(LoadX(LWA, t, a, b))
    else if xo == 23 then Some(LoadX(LWZ, t, a, b))
    else if xo == 343 then Some(LoadX(LHA, t, a, b))
    else if xo == 279 then Some(LoadX(LHZ, t, a, b))
    else if xo == 87 then Some(LoadX(LBZ, t, a, b))
    else if xo == 149 then Some(StoreX(STD, t, a, b))
    else if xo == 151 then Some(StoreX(STW, t, a, b))
    else if xo == 407 then Some(StoreX(STH, t, a, b))
    else if xo == 215 then Some(StoreX(STB, t, a, b))
    else None
  }

  function DecodeMd(s: Reg, a: Reg, sh: Index6, m: Index6, xo: nat): Option<Instr> {
    if xo == 1 then Some(Rldicr(a, s, sh, m))
    else if xo == 3 then Some(Rldimi(a, s, sh, m))
    else None
  }

  function DecodeD(op: nat, t: Reg, a: Reg, imm: Uimm16): Option<Instr> {
    if op == 14 then Some(Addi(t, a, Signed16(imm)))
    else if op == 15 then Some(Addis(t, a, Signed16(imm)))
    else if op == 24 then Some(Ori(a, t, imm))
    else if op == 25 then Some(Oris(a, t, imm))
    else if op == 58 && imm % 4 == 0 then Some(Load(LD, t, a, Signed16(imm)))
    else if op == 58 && imm % 4 == 2 then Some(Load(LWA, t, a, Signed16(imm - 2)))
    else if op == 32 then Some(Load(LWZ, t, a, Signed16(imm)))
    else if op == 42 then Some(Load(LHA, t, a, Signed16(imm)))
    else if op == 40 then Some(Load(LHZ, t, a, Signed16(imm)))
    else if op == 34 then Some(Load(LBZ, t, a, Signed16(imm)))
    else if op == 62 && imm % 4 == 0 then Some(Store(STD, t, a, Signed16(imm)))
    else if op == 36 then Some(Store(STW, t, a, Signed16(imm)))
    else if op == 44 then Some(Store(STH, t, a, Signed16(imm)))
    else if op == 38 then Some(Store(STB, t, a, Signed16(imm)))
    else None
  }

  /** Reads a word the way the processor does, by bit position. */
  function Decode(w: Word): Option<Instr> {
    var op, t, a, low := w / 0x400_0000, w / 0x20_0000 % 32, w / 0x1_0000 % 32, w % 0x1_0000;
    if op == 31 then
      (if low % 2 == 0 then DecodeX(t, a, low / 0x800, low / 2 % 1024) else None)
    else if op == 30 then
      (if low % 2 == 0 then
         DecodeMd(t, a, low / 0x800 + 32 * (low / 2 % 2), low / 64 % 32 + 32 * (low / 32 % 2), low / 4 % 8)
       else None)
    else DecodeD(op, t, a, low)
  }

  // ----- decoding undoes encoding -----

  /** OR-ing a field below everything else in a word adds it. */
  lemma AddField(q: nat, x: nat, hi: int, lo: int, above: nat, unit: nat)
    requires Range(hi, lo) && FitsUnsigned(x, hi, lo)
    requires above == Pow2(hi + 1) && unit == Pow2(lo)
    ensures Or(q * above, UField(x, hi, lo)) == q * above + x * unit
  {
    ShlIsProduct(q, hi + 1);
    ShlIsProduct(x, lo);
    ShlBound(x, Width(hi, lo), lo);
    OrDisjoint(q, UField(x, hi, lo), hi + 1);
  }

  lemma AddImmediate(q: nat, imm: nat, k: nat, above: nat)
    requires above == Pow2(k) && imm < above
    ensures Or(q * above, imm) == q * above + imm
  {
    ShlIsProduct(q, k);
    OrDisjoint(q, imm, k);
  }

  lemma FormDValue(op: nat, t: Reg, a: Reg, imm: Uimm16)
    requires op < 64
    ensures FormD(op, t, a, imm) == 0x400_0000 * op + 0x20_0000 * t + 0x1_0000 * a + imm
  {
    hide Or;
    Pow2Values();
    assert UField(op, 31, 26) == op * 0x400_0000 by { ShlIsProduct(op, 26); }
    AddField(op, t, 25, 21, 0x400_0000, 0x20_0000);
    AddField(32 * op + t, a, 20, 16, 0x20_0000, 0x1_0000);
    AddImmediate(1024 * op + 32 * t + a, imm, 16, 0x1_0000);
  }

  lemma FormXValue(op: nat, t: Reg, a: Reg, b: Reg, xo: nat)
    requires op < 64 && xo < 1024
    ensures FormX(op, t, a, b, xo)
         == 0x400_0000 * op + 0x20_0000 * t + 0x1_0000 * a + 0x800 * b + 2 * xo
  {
    hide Or;
    Pow2Values();
    FormDValue(op, t, a, 0);
    var q := 1024 * op + 32 * t + a;
    AddField(q, b, 15, 11, 0x1_0000, 0x800);
    AddField(32 * q + b, xo, 10, 1, 0x800, 2);
  }

  /** The top bit of a split shift may be OR-ed in last. */
  lemma OrShiftLast(w: nat, a: nat, b: nat, m: nat, x: nat)
    ensures Or(Or(Or(w, Or(a, b)), m), x) == Or(Or(Or(Or(w, a), m), x), b)
  {
    var wa := Or(w, a);
    OrAssociates(w, a, b);
    OrAssociates(wa, b, m);
    OrCommutes(b, m);
    OrAssociates(wa, m, b);
    OrAssociates(Or(wa, m), b, x);
    OrCommutes(b, x);
    OrAssociates(Or(wa, m), x, b);
  }

  lemma FormMdValue(s: Reg, a: Reg, sh: Index6, m: Index6, xo: nat)
    requires xo < 8
    ensures FormMd(s, a, sh, m, xo)
         == 0x7800_0000 + 0x20_0000 * s + 0x1_0000 * a
            + 0x800 * (sh % 32) + 32 * (2 * (m % 32) + m / 32) + 4 * xo + 2 * (sh / 32)
  {
    hide Or;
    FormDValue(30, s, a, 0);
    Pow2Values();
    var mm := 2 * (m % 32) + m / 32;
    OrShiftLast(FormD(30, s, a, 0), UField(sh % 32, 15, 11), UField(sh / 32, 1, 1),
                UField(mm, 10, 5), UField(xo, 4, 2));
    MdFields(30 * 1024 + 32 * s + a, sh % 32, mm, xo, sh / 32);
  }

  lemma MdFields(q: nat, s5: nat, m6: nat, xo: nat, s1: nat)
    requires s5 < Pow2(5) && m6 < Pow2(6) && xo < Pow2(3) && s1 < Pow2(1)
    ensures Or(Or(Or(Or(0x1_0000 * q, UField(s5, 15, 11)), UField(m6, 10, 5)), UField(xo, 4, 2)), UField(s1, 1, 1))
         == 0x1_0000 * q + 0x800 * s5 + 32 * m6 + 4 * xo + 2 * s1
  {
    hide Or;
    var q1 := 32 * q + s5;
    var q2 := 64 * q1 + m6;
    Pow2Values();
    AddField(q, s5, 15, 11, 0x1_0000, 0x800);
    AddField(q1, m6, 10, 5, 0x800, 32);
    AddField(q2, xo, 4, 2, 32, 4);
    AddField(8 * q2 + xo, s1, 1, 1, 4, 2);
  }

  lemma DigitsD(w: nat, op: nat, t: Reg, a: Reg, imm: Uimm16)
    requires w == 0x400_0000 * op + 0x20_0000 * t + 0x1_0000 * a + imm
    ensures w / 0x400_0000 == op && w / 0x20_0000 % 32 == t && w / 0x1_0000 % 32 == a
    ensures w % 0x1_0000 == imm
  {
    assert w / 0x20_0000 == 32 * op + t;
    assert w / 0x1_0000 == 1024 * op + 32 * t + a;
  }

  lemma DecodeFormD(op: nat, t: Reg, a: Reg, imm: Uimm16)
    requires op < 64 && op != 30 && op != 31
    ensures Decode(FormD(op, t, a, imm)) == DecodeD(op, t, a, imm)
  {
    hide FormD;
    var w := FormD(op, t, a, imm);
    FormDValue(op, t, a, imm);
    DigitsD(w, op, t, a, imm);
  }

  lemma DigitsX(imm: Uimm16, b: Reg, xo: nat)
    requires xo < 1024 && imm == 0x800 * b + 2 * xo
    ensures imm / 0x800 == b && imm / 2 % 1024 == xo && imm % 2 == 0
  {
  }

  lemma DecodeFormX(t: Reg, a: Reg, b: Reg, xo: nat)
    requires xo < 1024
    ensures Decode(FormX(31, t, a, b, xo)) == DecodeX(t, a, b, xo)
  {
    hide FormX;
    var w, imm := FormX(31, t, a, b, xo), 0x800 * b + 2 * xo;
    FormXValue(31, t, a, b, xo);
    DigitsD(w, 31, t, a, imm);
    DigitsX(imm, b, xo);
  }

  lemma DigitsMd(imm: nat, s5: nat, m5: nat, m1: nat, xo: nat, s1: nat)
    requires s5 < 32 && m5 < 32 && m1 < 2 && xo < 8 && s1 < 2
    requires imm == 0x800 * s5 + 64 * m5 + 32 * m1 + 4 * xo + 2 * s1
    ensures imm / 0x800 == s5 && imm / 64 % 32 == m5 && imm / 32 % 2 == m1
    ensures imm / 4 % 8 == xo && imm / 2 % 2 == s1 && imm % 2 == 0
  {
    assert imm / 64 == 32 * s5 + m5;
    assert imm / 32 == 64 * s5 + 2 * m5 + m1;
    assert imm / 4 == 512 * s5 + 16 * m5 + 8 * m1 + xo;
    assert imm / 2 == 1024 * s5 + 32 * m5 + 16 * m1 + 2 * xo + s1;
  }

  lemma DecodeFormMd(s: Reg, a: Reg, sh: Index6, m: Index6, xo: nat)
    requires xo < 8
    ensures Decode(FormMd(s, a, sh, m, xo)) == DecodeMd(s, a, sh, m, xo)
  {
    hide FormMd;
    var w := FormMd(s, a, sh, m, xo);
    var s5, m5, m1, s1 := sh % 32, m % 32, m / 32, sh / 32;
    var imm := 0x800 * s5 + 64 * m5 + 32 * m1 + 4 * xo + 2 * s1;
    FormMdValue(s, a, sh, m, xo);
    DigitsD(w, 30, s, a, imm);
    DigitsMd(imm, s5, m5, m1, xo, s1);
  }

  lemma LwaWord(t: Reg, a: Reg, imm: Uimm16)
    requires imm % 4 == 0
    ensures OrWord(FormD(58, t, a, imm), 2) == FormD(58, t, a, imm + 2)
  {
    FormDValue(58, t, a, imm);
    FormDValue(58, t, a, imm + 2);
    OrTwo(FormD(58, t, a, imm), 0x4000 * (58 * 1024 + 32 * t + a) + imm / 4);
  }

  lemma OrTwo(w: nat, q: nat)
    requires w == 4 * q
    ensures Or(w, 2) == w + 2
  {
    Pow2Values();
    AddImmediate(q, 2, 2, 4);
  }

  lemma SignedImm(d: Simm16)
    ensures Signed16(Imm16(d)) == d && Imm16(d) % 4 == d % 4
  {
  }

  lemma DecodeLoad(op: LoadOp, rt: Reg, ra: Reg, d: Simm16)
    requires LoadIsDs(op) ==> d % 4 == 0
    ensures Decode(Encode(Load(op, rt, ra, d))) == Some(Load(op, rt, ra, d))
  {
    hide Decode;
    hide FormD;
    hide Or;
    hide Imm16;
    hide Signed16;
    SignedImm(d);
    var imm := Imm16(d);
    if op.LWA? {
      LwaWord(rt, ra, imm);
      DecodeFormD(58, rt, ra, imm + 2);
    } else {
      OrZero(FormD(LoadOpcode(op), rt, ra, imm));
      DecodeFormD(LoadOpcode(op), rt, ra, imm);
    }
  }

  /** The processor decodes every emitted word to the instruction it was emitted for. */
  lemma DecodeEncode(i: Instr)
    requires Encodable(i)
    ensures Decode(Encode(i)) == Some(i)
  {
    hide Decode;
    hide FormD;
    hide FormX;
    hide FormMd;
    hide Or;
    match i
    case Addi(rt, ra, si) => DecodeFormD(14, rt, ra, Imm16(si));
    case Addis(rt, ra, si) => DecodeFormD(15, rt, ra, Imm16(si));
    case Ori(ra, rs, ui) => DecodeFormD(24, rs, ra, ui);
    case Oris(ra, rs, ui) => DecodeFormD(25, rs, ra, ui);
    case Rldicr(ra, rs, sh, me) => DecodeFormMd(rs, ra, sh, me, 1);
    case Rldimi(ra, rs, sh, mb) => DecodeFormMd(rs, ra, sh, mb, 3);
    case Load(op, rt, ra, d) => DecodeLoad(op, rt, ra, d);
    case LoadX(op, rt, ra, rb) => DecodeFormX(rt, ra, rb, LoadXo(op));
    case Store(op, rs, ra, d) => DecodeFormD(StoreOpcode(op), rs, ra, Imm16(d));
    case StoreX(op, rs, ra, rb) => DecodeFormX(rs, ra, rb, StoreXo(op));
  }

  /** A word is put together from the digits decoding takes it apart into. */
  lemma WordDigits(w: Word)
    ensures var op, t, a, low := w / 0x400_0000, w / 0x20_0000 % 32, w / 0x1_0000 % 32, w % 0x1_0000;
            op < 64 && w == 0x400_0000 * op + 0x20_0000 * t + 0x1_0000 * a + low
  {
    assert w / 0x400_0000 == w / 0x1_0000 / 32 / 32 && w / 0x20_0000 == w / 0x1_0000 / 32;
  }

  lemma ImmSigned(imm: Uimm16)
    ensures Imm16(Signed16(imm)) == imm && Signed16(imm) % 4 == imm % 4
  {
  }

  lemma OrNothing(w: Word)
    ensures OrWord(w, 0) == w
  {
    OrZero(w);
  }

  lemma EncodeDecodedD(op: nat, t: Reg, a: Reg, imm: Uimm16)
    requires op < 64 && DecodeD(op, t, a, imm).Some?
    ensures Encodable(DecodeD(op, t, a, imm).value) && Encode(DecodeD(op, t, a, imm).value) == FormD(op, t, a, imm)
  {
    hide FormD;
    hide OrWord;
    hide Imm16;
    hide Signed16;
    OrNothing(FormD(op, t, a, imm));
    ImmSigned(imm);
    if op == 58 && imm % 4 == 2 {
      LwaWord(t, a, imm - 2);
      ImmSigned(imm - 2);
    }
  }

  lemma XDigits(low: Uimm16)
    requires low % 2 == 0
    ensures low == 0x800 * (low / 0x800) + 2 * (low / 2 % 1024)
  {
    assert low / 0x800 == low / 2 / 1024;
  }

  lemma MdDigits(low: Uimm16)
    requires low % 2 == 0
    ensures low == 0x800 * (low / 0x800) + 64 * (low / 64 % 32) + 32 * (low / 32 % 2) + 4 * (low / 4 % 8)
                   + 2 * (low / 2 % 2)
  {
    assert low / 4 == low / 2 / 2 && low / 32 == low / 4 / 8 && low / 64 == low / 32 / 2;
    assert low / 0x800 == low / 64 / 32;
  }

  lemma EncodeDecodedX(t: Reg, a: Reg, b: Reg, xo: nat)
    requires xo < 1024 && DecodeX(t, a, b, xo).Some?
    ensures Encodable(DecodeX(t, a, b, xo).value) && Encode(DecodeX(t, a, b, xo).value) == FormX(31, t, a, b, xo)
  {
    hide FormX;
  }

  lemma EncodeDecodedMd(s: Reg, a: Reg, sh: Index6, m: Index6, xo: nat)
    requires xo < 8 && DecodeMd(s, a, sh, m, xo).Some?
    ensures Encodable(DecodeMd(s, a, sh, m, xo).value)
    ensures Encode(DecodeMd(s, a, sh, m, xo).value) == FormMd(s, a, sh, m, xo)
  {
    hide FormMd;
  }

  lemma FormDWord(w: Word)
    ensures w / 0x400_0000 < 64
    ensures w == FormD(w / 0x400_0000, w / 0x20_0000 % 32, w / 0x1_0000 % 32, w % 0x1_0000)
  {
    hide FormD;
    WordDigits(w);
    FormDValue(w / 0x400_0000, w / 0x20_0000 % 32, w / 0x1_0000 % 32, w % 0x1_0000);
  }

  lemma FormXWord(w: Word)
    requires w / 0x400_0000 == 31 && w % 0x1_0000 % 2 == 0
    ensures var low := w % 0x1_0000;
            w == FormX(31, w / 0x20_0000 % 32, w / 0x1_0000 % 32, low / 0x800, low / 2 % 1024)
  {
    hide FormX;
    var low := w % 0x1_0000;
    WordDigits(w);
    XDigits(low);
    FormXValue(31, w / 0x20_0000 % 32, w / 0x1_0000 % 32, low / 0x800, low / 2 % 1024);
  }

  lemma MdParts(s: Reg, a: Reg, s5: nat, s1: nat, m5: nat, m1: nat, xo: nat)
    requires s5 < 32 && s1 < 2 && m5 < 32 && m1 < 2 && xo < 8
    ensures FormMd(s, a, s5 + 32 * s1, m5 + 32 * m1, xo)
         == 0x7800_0000 + 0x20_0000 * s + 0x1_0000 * a + 0x800 * s5 + 64 * m5 + 32 * m1 + 4 * xo + 2 * s1
  {
    hide FormMd;
    FormMdValue(s, a, s5 + 32 * s1, m5 + 32 * m1, xo);
  }

  lemma FormMdWord(w: Word)
    requires w / 0x400_0000 == 30 && w % 0x1_0000 % 2 == 0
    ensures var low := w % 0x1_0000;
            w == FormMd(w / 0x20_0000 % 32, w / 0x1_0000 % 32, low / 0x800 + 32 * (low / 2 % 2),
                        low / 64 % 32 + 32 * (low / 32 % 2), low / 4 % 8)
  {
    hide FormMd;
    var low := w % 0x1_0000;
    var s5, s1, m5, m1 := low / 0x800, low / 2 % 2, low / 64 % 32, low / 32 % 2;
    WordDigits(w);
    MdDigits(low);
    MdParts(w / 0x20_0000 % 32, w / 0x1_0000 % 32, s5, s1, m5, m1, low / 4 % 8);
  }

  /** No two words are the same instruction: whatever decodes is what encoding that instruction gives. */
  lemma EncodeDecode(w: Word)
    requires Decode(w).Some?
    ensures Encodable(Decode(w).value) && Encode(Decode(w).value) == w
  {
    hide FormD;
    hide FormX;
    hide FormMd;
    hide Encode;
    hide DecodeD;
    hide DecodeX;
    hide DecodeMd;
    var op, t, a, low := w / 0x400_0000, w / 0x20_0000 % 32, w / 0x1_0000 % 32, w % 0x1_0000;
    if op == 31 {
      FormXWord(w);
      EncodeDecodedX(t, a, low / 0x800, low / 2 % 1024);
    } else if op == 30 {
      FormMdWord(w);
      EncodeDecodedMd(t, a, low / 0x800 + 32 * (low / 2 % 2), low / 64 % 32 + 32 * (low / 32 % 2), low / 4 % 8);
    } else {
      FormDWord(w);
      EncodeDecodedD(op, t, a, low);
    }
  }

  // ----- execution -----

  type Regs = Reg -> U64

  /** Memory and the byte order in which the processor reads and writes it. */
  datatype Mem = Mem(at: U64 -> Byte, little: bool)

  /** A processor state, or the trap taken on a word that is no instruction. */
  datatype Machine = Running(regs: Regs, mem: Mem) | Trap

  function Wrap64(x: int): U64 { x % 0x1_0000_0000_0000_0000 }

  function SetReg(f: Regs, r: Reg, v: U64): Regs {
    (q: Reg) => if q == r then v else f(q)
  }

  /** RA = 0 stands for the constant zero, not for register 0. */
  function Base(f: Regs, ra: Reg): U64 { if ra == R0 then 0 else f(ra) }

  function Rotl64(x: U64, n: Index6): U64 {
    Wrap64(Shl(x, n) + Shr(x, 64 - n))
  }

  /** Bits numbered 0 (most significant) to me of x, the rest clear. */
  function KeepHigh(x: U64, me: Index6): int {
    Shl(Shr(x, 63 - me), 63 - me)
  }

  /** Bits mb to 63 - sh, wrapping around when mb is the larger, come from x and the rest from y. */
  function InsertMasked(x: U64, y: U64, sh: Index6, mb: Index6): int {
    if mb <= 63 - sh then
      Shl(Shr(y, 64 - mb), 64 - mb) + Shl(Shr(Low(x, 64 - mb), sh), sh) + Low(y, sh)
    else
      Shl(Shr(x, sh), sh) + Shl(Shr(Low(y, sh), 64 - mb), 64 - mb) + Low(x, 64 - mb)
  }

  predicate IsArith(i: Instr) {
    i.Addi? || i.Addis? || i.Ori? || i.Oris? || i.Rldicr? || i.Rldimi?
  }

  function Target(i: Instr): Reg
    requires IsArith(i)
  {
    match i case Addi(rt, _, _) => rt case Addis(rt, _, _) => rt case _ => i.ra
  }

  /** The value an arithmetic instruction leaves in its target register. */
  function ArithValue(i: Instr, f: Regs): U64
    requires IsArith(i)
  {
    match i
    case Addi(_, ra, si) => Wrap64(Base(f, ra) + si)
    case Addis(_, ra, si) => Wrap64(Base(f, ra) + 0x1_0000 * si)
    case Ori(_, rs, ui) => Wrap64(Or(f(rs), ui))
    case Oris(_, rs, ui) => Wrap64(Or(f(rs), 0x1_0000 * ui))
    case Rldicr(_, rs, sh, me) => Wrap64(KeepHigh(Rotl64(f(rs), sh), me))
    case Rldimi(ra, rs, sh, mb) => Wrap64(InsertMasked(Rotl64(f(rs), sh), f(ra), sh, mb))
  }

  /** The address k bytes after ea. */
  function ByteAddress(ea: int, k: int): U64 { Wrap64(ea + k) }

  lemma ShiftAddress(ea: int, k: int)
    ensures ByteAddress(ea + 1, k) == ByteAddress(ea, k + 1)
  {
  }

  /** Where the lowest byte of an n-byte number at ea is. */
  function LowByteAddress(m: Mem, ea: int, n: nat): U64 {
    ByteAddress(ea, if m.little then 0 else n - 1)
  }

  /** Where the bytes above the lowest one begin. */
  function HighBytes(m: Mem, ea: int): int { if m.little then ea + 1 else ea }

  /** The n bytes at ea as a number. */
  function ReadBytes(m: Mem, ea: int, n: nat): (v: nat)
    ensures v < Pow2(8 * n)
    decreases n
  {
    if n == 0 then 0
    else
      assert Pow2(8 * n) == 256 * Pow2(8 * (n - 1)) by {
        Pow2Values();
        Pow2Sum(8, 8 * (n - 1));
      }
      256 * ReadBytes(m, HighBytes(m, ea), n - 1) + m.at(LowByteAddress(m, ea, n))
  }

  function LoadWidth(op: LoadOp): nat {
    match op case LD => 8 case LWA => 4 case LWZ => 4 case LHA => 2 case LHZ => 2 case LBZ => 1
  }

  function LoadValue(op: LoadOp, m: Mem, ea: U64): U64 {
    var v := ReadBytes(m, ea, LoadWidth(op));
    Wrap64(if op.LWA? || op.LHA? then SignExtend(v, 8 * LoadWidth(op)) else v)
  }

  function StoreWidth(op: StoreOp): nat {
    match op case STD => 8 case STW => 4 case STH => 2 case STB => 1
  }

  /** Memory after the low n bytes of v were written at ea. */
  function WriteBytes(m: Mem, ea: int, n: nat, v: nat): Mem
    decreases n
  {
    if n == 0 then m
    else
      var high := WriteBytes(m, HighBytes(m, ea), n - 1, v / 256);
      Mem((a: U64) => if a == LowByteAddress(m, ea, n) then v % 256 else high.at(a), m.little)
  }

  function StoreValue(op: StoreOp, m: Mem, ea: U64, v: U64): Mem {
    WriteBytes(m, ea, StoreWidth(op), v)
  }

  function Step(i: Instr, s: Machine): Machine
    requires s.Running?
  {
    match i
    case Load(op, rt, ra, d) =>
      s.(regs := SetReg(s.regs, rt, LoadValue(op, s.mem, Wrap64(Base(s.regs, ra) + d))))
    case LoadX(op, rt, ra, rb) =>
      s.(regs := SetReg(s.regs, rt, LoadValue(op, s.mem, Wrap64(Base(s.regs, ra) + s.regs(rb)))))
    case Store(op, rs, ra, d) =>
      s.(mem := StoreValue(op, s.mem, Wrap64(Base(s.regs, ra) + d), s.regs(rs)))
    case StoreX(op, rs, ra, rb) =>
      s.(mem := StoreValue(op, s.mem, Wrap64(Base(s.regs, ra) + s.regs(rb)), s.regs(rs)))
    case _ => s.(regs := SetReg(s.regs, Target(i), ArithValue(i, s.regs)))
  }

  /** Runs straight-line code word by word. */
  function Run(code: seq<Word>, s: Machine): Machine {
    if code == [] then s
    else
      var before := Run(code[..|code| - 1], s);
      var i := Decode(code[|code| - 1]);
      if before.Trap? || i.None? then Trap else Step(i.value, before)
  }
}
