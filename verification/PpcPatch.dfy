/**
 Recognising, reading and rewriting the constant of an emitted load_const sequence.
 */
module PpcPatch {
  import opened Bits
  import opened Options
  import opened PpcFields
  import opened PpcIsa
  import opened PpcAssembler

  const LOAD_CONST_WORDS := 5

  /** (w & ~0x0000FFFF) | (s & 0x0000FFFF) */
  function SetImm(w: Word, s: int): Word {
    OrWord(AndNot(w, 0xFFFF), Imm16(s))
  }

  /** The low half of an instruction word read as a short. */
  function GetImm(w: Word): Simm16 { Signed16(w % 0x1_0000) }

  predicate IsLis(w: Word) { Opcode(w) == 15 && w / 0x1_0000 % 32 == 0 }
  predicate IsOri(w: Word) { Opcode(w) == 24 }
  predicate IsOris(w: Word) { Opcode(w) == 25 }
  predicate IsRldicr(w: Word) { Opcode(w) == 30 && w / 4 % 8 == 1 }

  /** The tests tell the instructions apart as the processor does; that for rldicr leaves out the
      record bit. */
  lemma Recognised(w: Word)
    ensures IsLis(w) <==> Decode(w).Some? && Decode(w).value.Addis? && Decode(w).value.ra == R0
    ensures IsOri(w) <==> Decode(w).Some? && Decode(w).value.Ori?
    ensures IsOris(w) <==> Decode(w).Some? && Decode(w).value.Oris?
    ensures IsRldicr(w) && w % 2 == 0 <==> Decode(w).Some? && Decode(w).value.Rldicr?
  {
    hide Opcode;
    OpcodeValue(w);
    LowDigit(w);
  }

  lemma LowDigit(w: nat)
    ensures w % 0x1_0000 / 4 % 8 == w / 4 % 8 && w % 0x1_0000 % 2 == w % 2
  {
    DigitBelow(w / 0x1_0000, w % 0x1_0000 / 4, w % 0x1_0000 % 4);
  }

  lemma DigitBelow(q: nat, a: nat, b: nat)
    requires b < 4
    ensures (0x1_0000 * q + 4 * a + b) / 4 % 8 == a % 8 && (0x1_0000 * q + 4 * a + b) % 2 == b % 2
  {
    var x := 0x1_0000 * q + 4 * a + b;
    QuotientUnique(x, 4, 0x4000 * q + a, b);
    QuotientUnique(0x4000 * q + a, 8, 0x800 * q + a / 8, a % 8);
    QuotientUnique(x, 2, 0x8000 * q + 2 * a + b / 2, b % 2);
  }

  predicate IsLoadConst(ws: seq<Word>)
    requires |ws| == LOAD_CONST_WORDS
  {
    if IsOri(ws[1]) then IsLis(ws[0]) && IsRldicr(ws[2]) && IsOris(ws[3]) && IsOri(ws[4])
    else if IsLis(ws[1]) then IsLis(ws[0]) && IsOri(ws[2]) && IsOri(ws[3])
    else false
  }

  /** What is taken for a load_const: lis with ori, rldicr (record bit or not), oris and ori, or lis
      twice with ori twice and anything after them. */
  lemma SequenceRecognised(ws: seq<Word>)
    requires |ws| == LOAD_CONST_WORDS
    ensures IsLoadConst(ws) <==>
            && Decode(ws[0]).Some? && Decode(ws[0]).value.Addis? && Decode(ws[0]).value.ra == R0
            && (|| (&& Decode(ws[1]).Some? && Decode(ws[1]).value.Ori?
                    && (var plain := ws[2] - ws[2] % 2; Decode(plain).Some? && Decode(plain).value.Rldicr?)
                    && Decode(ws[3]).Some? && Decode(ws[3]).value.Oris?
                    && Decode(ws[4]).Some? && Decode(ws[4]).value.Ori?)
                || (&& Decode(ws[1]).Some? && Decode(ws[1]).value.Addis? && Decode(ws[1]).value.ra == R0
                    && Decode(ws[2]).Some? && Decode(ws[2]).value.Ori?
                    && Decode(ws[3]).Some? && Decode(ws[3]).value.Ori?))
  {
    hide Decode;
    hide Opcode;
    Recognised(ws[0]);
    Recognised(ws[1]);
    Recognised(ws[2]);
    Recognised(ws[3]);
    Recognised(ws[4]);
    Recognised(ws[2] - ws[2] % 2);
    OpcodeValue(ws[1]);
    OpcodeValue(ws[2]);
    OpcodeValue(ws[2] - ws[2] % 2);
    RecordBit(ws[2]);
  }

  lemma RecordBit(w: Word)
    ensures var plain := w - w % 2;
            plain % 2 == 0 && plain / 0x400_0000 == w / 0x400_0000 && plain / 4 % 8 == w / 4 % 8
  {
  }

  /** Which words hold bits 63..48, 47..32, 31..16 and 15..0 of the constant. */
  function Slots(ws: seq<Word>): (k: seq<nat>)
    requires |ws| == LOAD_CONST_WORDS
    ensures |k| == 4 && forall i, j | 0 <= i < j < 4 ::
              k[i] < LOAD_CONST_WORDS && k[j] < LOAD_CONST_WORDS && k[i] != k[j]
  {
    if IsOri(ws[1]) then [0, 1, 3, 4] else [0, 2, 1, 3]
  }

  /** The four chunks shifted into place, read as a C long; the chunks do not overlap. */
  function Join(c3: Uimm16, c2: Uimm16, c1: Uimm16, c0: Uimm16): Long {
    var u := 0x1_0000_0000_0000 * c3 + 0x1_0000_0000 * c2 + 0x1_0000 * c1 + c0;
    if u >= 0x8000_0000_0000_0000 then u - 0x1_0000_0000_0000_0000 else u
  }

  function GetConst(ws: seq<Word>): Long
    requires |ws| == LOAD_CONST_WORDS && IsLoadConst(ws)
  {
    var k := Slots(ws);
    Join(Imm16(GetImm(ws[k[0]])), Imm16(GetImm(ws[k[1]])), Imm16(GetImm(ws[k[2]])), Imm16(GetImm(ws[k[3]])))
  }

  function Patched(ws: seq<Word>, x: Long): (r: seq<Word>)
    requires |ws| == LOAD_CONST_WORDS && IsLoadConst(ws)
    ensures |r| == LOAD_CONST_WORDS
  {
    var k := Slots(ws);
    ws[k[0] := SetImm(ws[k[0]], x / 0x1_0000_0000_0000)]
      [k[1] := SetImm(ws[k[1]], x / 0x1_0000_0000)]
      [k[2] := SetImm(ws[k[2]], x / 0x1_0000)]
      [k[3] := SetImm(ws[k[3]], x)]
  }

  lemma SetImmValue(w: Word, s: int)
    ensures SetImm(w, s) == w - w % 0x1_0000 + Imm16(s)
  {
    Pow2Values();
    var q := w / 0x1_0000;
    assert AndNot(w, 0xFFFF) == 0x1_0000 * q by {
      At(w, 16, 0x1_0000);
      At(0xFFFF, 16, 0x1_0000);
      At(-1, 16, 0x1_0000);
      AndNotFields(w, 0xFFFF, 16);
      AndNotZero(q);
      AndNotOnes(w % 0x1_0000, 16);
      var c := AndNot(w, 0xFFFF);
      Split(c, 16);
      At(q, 16, 0x1_0000);
    }
    AddImmediate(q, Imm16(s), 16, 0x1_0000);
  }

  /** Rewriting the immediate keeps the upper half of the word, and is read back. */
  lemma SetImmKeeps(w: Word, s: int)
    ensures SetImm(w, s) / 0x1_0000 == w / 0x1_0000 && SetImm(w, s) % 0x1_0000 == Imm16(s)
    ensures Imm16(GetImm(SetImm(w, s))) == Imm16(s)
    ensures Opcode(SetImm(w, s)) == Opcode(w) && (IsLis(SetImm(w, s)) <==> IsLis(w))
    ensures forall r: int :: SetImm(SetImm(w, s), r) == SetImm(w, r)
  {
    hide SetImm;
    SetImmValue(w, s);
    QuotientUnique(SetImm(w, s), 0x1_0000, w / 0x1_0000, Imm16(s));
    OpcodeValue(w);
    OpcodeValue(SetImm(w, s));
    hide Opcode;
    assert forall v: Word :: v / 0x400_0000 == v / 0x1_0000 / 1024;
    forall r: int
      ensures SetImm(SetImm(w, s), r) == SetImm(w, r)
    {
      SetImmValue(w, r);
      SetImmValue(SetImm(w, s), r);
    }
  }

  lemma JoinChunks(x: Long)
    ensures Join(Imm16(x / 0x1_0000_0000_0000), Imm16(x / 0x1_0000_0000), Imm16(x / 0x1_0000), Imm16(x)) == x
  {
    var q1 := x / 0x1_0000;
    var q2 := q1 / 0x1_0000;
    assert x / 0x1_0000_0000 == q2 && x / 0x1_0000_0000_0000 == q2 / 0x1_0000;
    assert x == 0x1_0000 * q1 + Imm16(x) && q1 == 0x1_0000 * q2 + Imm16(q1);
    assert q2 == 0x1_0000 * (q2 / 0x1_0000) + Imm16(q2);
  }

  /** Patching any recognised sequence: it stays recognised, holds the new constant, keeps every
      word outside the four immediates, and forgets what was patched before. */
  lemma PatchedConstant(ws: seq<Word>, x: Long, y: Long)
    requires |ws| == LOAD_CONST_WORDS && IsLoadConst(ws)
    ensures IsLoadConst(Patched(ws, x)) && GetConst(Patched(ws, x)) == x
    ensures forall k | 0 <= k < LOAD_CONST_WORDS :: Patched(ws, x)[k] / 0x1_0000 == ws[k] / 0x1_0000
    ensures Patched(Patched(ws, x), y) == Patched(ws, y)
  {
    hide SetImm;
    hide Join;
    hide IsLis;
    hide Opcode;
    hide GetImm;
    hide Imm16;
    var k := Slots(ws);
    SetImmKeeps(ws[k[0]], x / 0x1_0000_0000_0000);
    SetImmKeeps(ws[k[1]], x / 0x1_0000_0000);
    SetImmKeeps(ws[k[2]], x / 0x1_0000);
    SetImmKeeps(ws[k[3]], x);
    JoinChunks(x);
  }

  /** A D-form word under the recognisers and the immediate accessors. */
  lemma WordD(op: nat, t: Reg, a: Reg, imm: Uimm16, s: int)
    requires op < 64
    ensures var w := FormD(op, t, a, imm);
            && Opcode(w) == op && w / 0x1_0000 % 32 == a && w % 0x1_0000 == imm
            && SetImm(w, s) == FormD(op, t, a, Imm16(s))
  {
    var w := FormD(op, t, a, imm);
    FormDValue(op, t, a, imm);
    FormDValue(op, t, a, Imm16(s));
    SetImmValue(w, s);
    hide FormD;
    hide SetImm;
    OpcodeValue(w);
    hide Opcode;
    DigitsD(w, op, t, a, imm);
  }

  lemma SldiWord(d: Reg)
    ensures IsRldicr(Encode(Rldicr(d, d, 32, 31)))
  {
    hide FormMd;
    FormMdValue(d, d, 32, 31, 1);
    OpcodeValue(FormMd(d, d, 32, 31, 1));
    hide Opcode;
    RldicrDigits(FormMd(d, d, 32, 31, 1), d);
  }

  lemma RldicrDigits(w: nat, d: Reg)
    requires w == 0x7800_0000 + 0x20_0000 * d + 0x1_0000 * d + 1990
    ensures w / 0x400_0000 == 30 && w / 4 % 8 == 1
  {
    var q := 0x3C0_0000 + 0x1_0000 * d + 0x800 * d + 62;
    QuotientUnique(w, 4, 8 * q + 1, 2);
  }

  /** The chunk placed in a word, signed or not, is the same sixteen bits. */
  lemma SameBits(v: int)
    ensures Imm16(Chunk(v)) == Imm16(v) && Imm16(Signed16(Imm16(v))) == Imm16(v)
    ensures Imm16(Imm16(v)) == Imm16(v)
  {
  }

  /** One word of the pattern: its constant bits are v, and patching makes them u. */
  lemma PatternWord(i: Instr, v: int, u: int)
    requires match i
             case Addis(_, ra, si) => ra == R0 && si == Chunk(v)
             case Ori(_, _, ui) => ui == Imm16(v)
             case Oris(_, _, ui) => ui == Imm16(v)
             case _ => false
    ensures var w := Encode(i);
            && Imm16(GetImm(w)) == Imm16(v)
            && (IsLis(w) <==> i.Addis?) && (IsOri(w) <==> i.Ori?) && (IsOris(w) <==> i.Oris?)
            && SetImm(w, u) == Encode(match i case Addis(t, a, _) => Addis(t, a, Chunk(u))
                                              case Ori(a, t, _) => Ori(a, t, Imm16(u))
                                              case Oris(a, t, _) => Oris(a, t, Imm16(u)))
  {
    hide FormD;
    hide SetImm;
    hide Opcode;
    SameBits(v);
    SameBits(u);
    match i
    case Addis(t, a, _) => WordD(15, t, a, Imm16(v), u);
    case Ori(a, t, _) => WordD(24, t, a, Imm16(v), u);
    case Oris(a, t, _) => WordD(25, t, a, Imm16(v), u);
  }

  /** The emitted pattern is recognised, yields its constant, and patching it with y gives the
      very words that loading y in the first place would have given. */
  lemma PatchIsReload(d: Reg, x: Long, y: Long, tmp: Option<Reg>)
    ensures IsLoadConst(EncodeAll(LoadConstCode(d, x, tmp)))
    ensures GetConst(EncodeAll(LoadConstCode(d, x, tmp))) == x
    ensures Patched(EncodeAll(LoadConstCode(d, x, tmp)), y) == EncodeAll(LoadConstCode(d, y, tmp))
  {
    hide SetImm;
    hide Encode;
    hide Join;
    hide Imm16;
    hide GetImm;
    hide Signed16;
    hide IsLis;
    hide IsOri;
    hide IsOris;
    hide IsRldicr;
    var code := LoadConstCode(d, x, tmp);
    var k := if tmp.None? then [0, 1, 3, 4] else [0, 2, 1, 3];
    PatternWord(code[k[0]], x / 0x1_0000_0000_0000, y / 0x1_0000_0000_0000);
    PatternWord(code[k[1]], x / 0x1_0000_0000, y / 0x1_0000_0000);
    PatternWord(code[k[2]], x / 0x1_0000, y / 0x1_0000);
    PatternWord(code[k[3]], x, y);
    SldiWord(d);
    JoinChunks(x);
    var ws, vs := EncodeAll(code), EncodeAll(LoadConstCode(d, y, tmp));
    assert Slots(ws) == k;
    assert Patched(ws, y)[0] == vs[0] && Patched(ws, y)[1] == vs[1] && Patched(ws, y)[2] == vs[2];
    assert Patched(ws, y)[3] == vs[3] && Patched(ws, y)[4] == vs[4];
  }

  /** Running a load_const sequence after it was patched leaves the new constant in d, and nothing
      of the old one anywhere. */
  lemma PatchedLoads(d: Reg, x: Long, y: Long, tmp: Option<Reg>)
    requires tmp != Some(d)
    ensures IsLoadConst(EncodeAll(LoadConstCode(d, x, tmp)))
    ensures LoadsConstant(Patched(EncodeAll(LoadConstCode(d, x, tmp)), y), d, tmp, y, 0)
  {
    hide LoadsConstant;
    hide LoadConstCode;
    hide Patched;
    hide IsLoadConst;
    PatchIsReload(d, x, y, tmp);
    if tmp.None? { PlainLoads(d, y); } else { ParallelLoads(d, y, tmp.value); }
  }

  lemma PatchedInPlace(b: seq<Word>, c: seq<Word>, n: nat, x: Long)
    requires n + LOAD_CONST_WORDS <= |b| == |c|
    requires var ws := b[n..n + LOAD_CONST_WORDS];
             IsLoadConst(ws) && forall i | 0 <= i < LOAD_CONST_WORDS :: c[n + i] == Patched(ws, x)[i]
    requires forall i | 0 <= i < |b| && !(n <= i < n + LOAD_CONST_WORDS) :: c[i] == b[i]
    ensures c == b[..n] + Patched(b[n..n + LOAD_CONST_WORDS], x) + b[n + LOAD_CONST_WORDS..]
  {
    hide Patched;
    hide IsLoadConst;
    var ps := Patched(b[n..n + LOAD_CONST_WORDS], x);
    assert c[n..n + LOAD_CONST_WORDS] == ps;
    assert c == c[..n] + c[n..n + LOAD_CONST_WORDS] + c[n + LOAD_CONST_WORDS..];
  }

  /** patch_const on the code buffer: rewrites the sequence starting at word n in place. */
  method PatchConst(a: Assembler, n: nat, x: Long)
    requires n + LOAD_CONST_WORDS <= |a.code| && IsLoadConst(a.code[n..n + LOAD_CONST_WORDS])
    modifies a
    ensures a.code == old(a.code)[..n] + Patched(old(a.code)[n..n + LOAD_CONST_WORDS], x)
                      + old(a.code)[n + LOAD_CONST_WORDS..]
  {
    hide SetImm;
    hide IsLoadConst;
    ghost var ws := a.code[n..n + LOAD_CONST_WORDS];
    var c := a.code;
    if IsOri(c[n + 1]) {
      c := c[n := SetImm(c[n], x / 0x1_0000_0000_0000)];
      c := c[n + 1 := SetImm(c[n + 1], x / 0x1_0000_0000)];
      c := c[n + 3 := SetImm(c[n + 3], x / 0x1_0000)];
      c := c[n + 4 := SetImm(c[n + 4], x)];
    } else {
      c := c[n := SetImm(c[n], x / 0x1_0000_0000_0000)];
      c := c[n + 2 := SetImm(c[n + 2], x / 0x1_0000_0000)];
      c := c[n + 1 := SetImm(c[n + 1], x / 0x1_0000)];
      c := c[n + 3 := SetImm(c[n + 3], x)];
    }
    PatchedInPlace(a.code, c, n, x);
    a.code := c;
    a.Mark();
  }
}
