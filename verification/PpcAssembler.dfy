/**
 The constant loaders of the PPC64 assembler.  They append instruction words to a code buffer;
 their contracts say what the processor does when it runs the words they appended.
 */
module PpcAssembler {
  import opened Bits
  import opened Options
  import opened PpcFields
  import opened PpcIsa

  type Long = x: int | -0x8000_0000_0000_0000 <= x < 0x8000_0000_0000_0000

  /** Registers whose value after running some code does not depend on the state before it. */
  type Known = map<Reg, U64>

  /** Running ws leaves exactly the values of k in the registers of k and changes nothing else. */
  ghost predicate Knows(ws: seq<Word>, k: Known) {
    forall s: Machine :: s.Running? ==> Agrees(k, s, Run(ws, s))
  }

  ghost predicate Agrees(k: Known, s: Machine, t: Machine)
    requires s.Running?
  {
    && t.Running?
    && t.mem == s.mem
    && forall r: Reg :: t.regs(r) == if r in k then k[r] else s.regs(r)
  }

  function View(k: Known): Regs {
    (r: Reg) => if r in k then k[r] else 0
  }

  /** The registers whose contents an arithmetic instruction uses. */
  function Sources(i: Instr): set<Reg>
    requires IsArith(i)
  {
    match i
    case Addi(_, ra, _) => if ra == R0 then {} else {ra}
    case Addis(_, ra, _) => if ra == R0 then {} else {ra}
    case Ori(_, rs, _) => {rs}
    case Oris(_, rs, _) => {rs}
    case Rldicr(_, rs, _, _) => {rs}
    case Rldimi(ra, rs, _, _) => {ra, rs}
  }

  lemma RunAppend(ws: seq<Word>, i: Instr, s: Machine)
    requires Encodable(i) && Run(ws, s).Running?
    ensures Run(ws + [Encode(i)], s) == Step(i, Run(ws, s))
  {
    hide Encode;
    hide Decode;
    DecodeEncode(i);
    assert (ws + [Encode(i)])[..|ws|] == ws;
  }

  lemma KnowsStep(ws: seq<Word>, k: Known, i: Instr)
    requires Knows(ws, k) && IsArith(i) && Sources(i) <= k.Keys
    ensures Knows(ws + [Encode(i)], k[Target(i) := ArithValue(i, View(k))])
  {
    hide Encode;
    hide ArithValue;
    hide Run;
    hide Step;
    forall s: Machine | s.Running?
      ensures Agrees(k[Target(i) := ArithValue(i, View(k))], s, Run(ws + [Encode(i)], s))
    {
      assert Agrees(k, s, Run(ws, s));
      RunAppend(ws, i, s);
      AgreesStep(k, i, s, Run(ws, s));
    }
  }

  lemma AgreesStep(k: Known, i: Instr, s: Machine, t: Machine)
    requires s.Running? && IsArith(i) && Sources(i) <= k.Keys && Agrees(k, s, t)
    ensures Agrees(k[Target(i) := ArithValue(i, View(k))], s, Step(i, t))
  {
    hide ArithValue;
    SameSources(i, t.regs, View(k));
  }

  lemma SameSources(i: Instr, f: Regs, g: Regs)
    requires IsArith(i) && forall r | r in Sources(i) :: f(r) == g(r)
    ensures ArithValue(i, f) == ArithValue(i, g)
  {
    hide Rotl64;
    hide KeepHigh;
    hide InsertMasked;
    hide Or;
  }

  // ----- values of the instructions as the loaders use them -----

  /** Rotating by 32 swaps the halves of a doubleword. */
  lemma SwapHalves(v: U64)
    ensures Rotl64(v, 32) == v % 0x1_0000_0000 * 0x1_0000_0000 + v / 0x1_0000_0000
    ensures Rotl64(v, 32) / 0x1_0000_0000 == v % 0x1_0000_0000
  {
    hide Shl;
    hide Shr;
    Pow2Values();
    At(v, 32, 0x1_0000_0000);
    var h, l := v / 0x1_0000_0000, v % 0x1_0000_0000;
    QuotientUnique(v * 0x1_0000_0000 + h, 0x1_0000_0000_0000_0000, h, l * 0x1_0000_0000 + h);
    QuotientUnique(l * 0x1_0000_0000 + h, 0x1_0000_0000, l, h);
  }

  lemma SldiValue(v: U64)
    ensures Wrap64(KeepHigh(Rotl64(v, 32), 31)) == v % 0x1_0000_0000 * 0x1_0000_0000
  {
    hide Shl;
    hide Shr;
    hide Rotl64;
    Pow2Values();
    SwapHalves(v);
    var x, l := Rotl64(v, 32), v % 0x1_0000_0000;
    assert Shr(x, 32) == l by { At(x, 32, 0x1_0000_0000); }
    assert KeepHigh(x, 31) == l * 0x1_0000_0000 by { At(l, 32, 0x1_0000_0000); }
  }

  lemma InsrdiValue(t: U64, y: U64)
    ensures Wrap64(InsertMasked(Rotl64(t, 32), y, 32, 0))
         == t % 0x1_0000_0000 * 0x1_0000_0000 + y % 0x1_0000_0000
  {
    hide Shl;
    hide Shr;
    hide Low;
    hide Rotl64;
    Pow2Values();
    SwapHalves(t);
    var x := Rotl64(t, 32);
    At(x, 64, 0x1_0000_0000_0000_0000);
    At(x, 32, 0x1_0000_0000);
    At(y, 64, 0x1_0000_0000_0000_0000);
    At(y, 32, 0x1_0000_0000);
    At(t % 0x1_0000_0000, 32, 0x1_0000_0000);
    At(0, 64, 0x1_0000_0000_0000_0000);
  }

  /** OR of an immediate into a register whose bits there are clear adds it. */
  lemma OriValue(v: U64, ui: Uimm16)
    requires v % 0x1_0000 == 0
    ensures Or(v, ui) == v + ui
  {
    Pow2Values();
    AddImmediate(v / 0x1_0000, ui, 16, 0x1_0000);
  }

  lemma OrisValue(v: U64, ui: Uimm16)
    requires v % 0x1_0000_0000 == 0
    ensures Or(v, 0x1_0000 * ui) == v + 0x1_0000 * ui
  {
    Pow2Values();
    AddImmediate(v / 0x1_0000_0000, 0x1_0000 * ui, 32, 0x1_0000_0000);
  }

  // ----- sixteen-bit chunks -----

  /** (short)(x & 0xFFFF) */
  function Chunk(x: int): Simm16 { Signed16(Imm16(x)) }

  /** (x >> 16) plus the compensation for reading the low chunk as signed */
  function Carry(x: int): int { x / 0x1_0000 + (if Chunk(x) < 0 then 1 else 0) }

  lemma ChunkCarry(x: int)
    ensures x == 0x1_0000 * Carry(x) + Chunk(x)
  {
  }

  /** x is one signed chunk: li loads it. */
  predicate FitsChunk(x: Long) { -0x8000 <= x < 0x8000 }

  /** x is the sum of two signed chunks: lis and addi load it. */
  predicate FitsTwoChunks(x: Long) { -0x8000_8000 <= x < 0x7FFF_8000 }

  lemma CarryZero(x: Long)
    ensures Carry(x) == 0 <==> FitsChunk(x)
    ensures Carry(Carry(x)) == 0 <==> FitsTwoChunks(x)
  {
  }

  /** What is left to the next instruction: nothing unless asked for, nor when one instruction
      does it all; with the halves loaded apart only what does not carry into the upper half. */
  function Rest(x: Long, tmp: Option<Reg>, returnRest: bool): Simm16 {
    if !returnRest || FitsChunk(x) then 0
    else if FitsTwoChunks(x) || tmp.None? then Chunk(x)
    else if Chunk(Carry(x)) != 0 && Chunk(x) >= 0 then Chunk(x)
    else 0
  }

  function OneIf(b: bool): nat { if b then 1 else 0 }

  /** How many instructions it takes to load x when none is spent on a chunk that is zero: those for
      the upper half with the one that moves it up, then those for the lower half. */
  function OptimizedSize(x: Long, tmp: Option<Reg>, returnRest: bool): (n: nat)
    ensures 1 <= n <= 5
  {
    var xc, xd := Chunk(Carry(x)), Chunk(x);
    if FitsChunk(x) then 1
    else if FitsTwoChunks(x) then 1 + OneIf(xd != 0 && !returnRest)
    else if tmp.None? then
      var high := Carry(Carry(x));
      2 + OneIf(Chunk(Carry(high)) != 0 && Chunk(high) != 0) + OneIf(xc != 0) + OneIf(xd != 0 && !returnRest)
    else
      2 + UpperSize(x) + OneIf(xc != 0 && xd != 0 && !(returnRest && xd > 0))
  }

  /** The upper half is loaded on its own; its lower chunk alone takes one instruction unless it
      would be read as negative. */
  function UpperSize(x: Long): nat {
    var xa, xb := Chunk(x / 0x1_0000_0000_0000), Chunk(x / 0x1_0000_0000);
    if (xa != 0 && xb != 0) || xb < 0 then 2 else 1
  }

  lemma WrapAdd(a: int, b: int)
    ensures Wrap64(Wrap64(a) + b) == Wrap64(a + b)
  {
  }

  lemma WrapShift(a: int)
    ensures Wrap64(a) % 0x1_0000_0000 * 0x1_0000_0000 == Wrap64(0x1_0000_0000 * a)
  {
    assert Wrap64(a) % 0x1_0000_0000 == a % 0x1_0000_0000;
    QuotientUnique(0x1_0000_0000 * a, 0x1_0000_0000_0000_0000,
                   a / 0x1_0000_0000, a % 0x1_0000_0000 * 0x1_0000_0000);
  }

  /** Running ws leaves a value in d that is rest short of x, and touches only d and tmp. */
  ghost predicate LoadsConstant(ws: seq<Word>, d: Reg, tmp: Option<Reg>, x: int, rest: int) {
    forall s: Machine :: s.Running? ==>
      var t := Run(ws, s);
      && t.Running?
      && t.mem == s.mem
      && Wrap64(t.regs(d) + rest) == Wrap64(x)
      && forall r: Reg :: r != d && Some(r) != tmp ==> t.regs(r) == s.regs(r)
  }

  function RegSet(r: Option<Reg>): set<Reg> {
    if r.Some? then {r.value} else {}
  }

  lemma KnownLoads(ws: seq<Word>, k: Known, d: Reg, tmp: Option<Reg>, x: int, rest: int)
    requires Knows(ws, k) && d in k && k.Keys <= {d} + RegSet(tmp) && Wrap64(k[d] + rest) == Wrap64(x)
    ensures LoadsConstant(ws, d, tmp, x, rest)
  {
    hide Run;
    forall s: Machine | s.Running?
      ensures var t := Run(ws, s);
              && t.Running? && t.mem == s.mem && Wrap64(t.regs(d) + rest) == Wrap64(x)
              && forall r: Reg :: r != d && Some(r) != tmp ==> t.regs(r) == s.regs(r)
    {
      assert Agrees(k, s, Run(ws, s));
    }
  }

  /** The two top chunks loaded and shifted up stand for everything above bit 31, modulo 2^64. */
  lemma HighChunks(rem: int, xc: int)
    ensures var h := 0x1_0000 * Chunk(Carry(rem)) + Chunk(rem);
            Wrap64(Wrap64(h) % 0x1_0000_0000 * 0x1_0000_0000 + 0x1_0000 * xc)
            == Wrap64(0x1_0000 * (0x1_0000 * rem + xc))
  {
    var h := 0x1_0000 * Chunk(Carry(rem)) + Chunk(rem);
    ChunkCarry(rem);
    ChunkCarry(Carry(rem));
    WrapShift(h);
    WrapAdd(0x1_0000_0000 * h, 0x1_0000 * xc);
    WrapMultiple(0x1_0000_0000 * h + 0x1_0000 * xc, Carry(Carry(rem)));
  }

  lemma WrapMultiple(a: int, m: int)
    ensures Wrap64(a + 0x1_0000_0000_0000_0000 * m) == Wrap64(a)
  {
  }

  /** A doubleword is put together from 32-bit halves taken from anything congruent to them. */
  lemma Halves(x: Long, t: U64, y: U64, rest: nat)
    requires t % 0x1_0000_0000 == x / 0x1_0000_0000 % 0x1_0000_0000
    requires y % 0x1_0000_0000 + rest == x % 0x1_0000_0000
    ensures t % 0x1_0000_0000 * 0x1_0000_0000 + y % 0x1_0000_0000 + rest == Wrap64(x)
  {
    var q := x / 0x1_0000_0000;
    assert x == 0x1_0000_0000_0000_0000 * (q / 0x1_0000_0000) + 0x1_0000_0000 * (q % 0x1_0000_0000)
                + x % 0x1_0000_0000;
    WrapMultiple(0x1_0000_0000 * (q % 0x1_0000_0000) + x % 0x1_0000_0000, q / 0x1_0000_0000);
  }

  lemma TopHalf(x: Long)
    ensures Wrap64(0x1_0000 * Chunk(x / 0x1_0000_0000_0000)) % 0x1_0000 == 0
    ensures Wrap64(Wrap64(0x1_0000 * Chunk(x / 0x1_0000_0000_0000)) + Imm16(x / 0x1_0000_0000)) % 0x1_0000_0000
         == x / 0x1_0000_0000 % 0x1_0000_0000
  {
    var q := x / 0x1_0000_0000;
    var c: int := Chunk(q / 0x1_0000);
    DivTwice(x);
    ChunkCarry(q / 0x1_0000);
    hide Chunk;
    hide Carry;
    hide Wrap64;
    LowSum(q, Carry(q / 0x1_0000), c, Imm16(q));
    WrapClear(c);
    WrapAdd(0x1_0000 * c, Imm16(q));
    WrapLow(0x1_0000 * c + Imm16(q));
  }

  lemma DivTwice(x: int)
    ensures x / 0x1_0000_0000_0000 == x / 0x1_0000_0000 / 0x1_0000
  {
  }

  lemma WrapClear(c: int)
    ensures Wrap64(0x1_0000 * c) % 0x1_0000 == 0
  {
  }

  /** The value that lis and ori leave for the upper half of x. */
  function UpperHalf(x: Long): U64 {
    Wrap64(Wrap64(0x1_0000 * Chunk(x / 0x1_0000_0000_0000)) + Imm16(x / 0x1_0000_0000))
  }

  lemma OrChunks(u: nat, c: Uimm16, e: Uimm16)
    requires u < 0x1_0000_0000
    ensures var up := u * 0x1_0000_0000;
            var mid := Wrap64(up + 0x1_0000 * c);
            && up % 0x1_0000_0000 == 0 && mid % 0x1_0000 == 0
            && Wrap64(mid + e) == Wrap64(u * 0x1_0000_0000 + 0x1_0000 * c + e)
  {
    assert (0x1_0000 * (0x1_0000 * u + c)) % 0x1_0000 == 0;
  }

  lemma UpperHalfValue(x: Long)
    ensures UpperHalf(x) % 0x1_0000_0000 == x / 0x1_0000_0000 % 0x1_0000_0000
  {
    TopHalf(x);
  }

  lemma LowWord(x: int)
    ensures x % 0x1_0000_0000 == 0x1_0000 * Imm16(x / 0x1_0000) + Imm16(x)
  {
  }

  lemma PlainChunks(x: Long)
    ensures var up := UpperHalf(x) % 0x1_0000_0000 * 0x1_0000_0000;
            var mid := Wrap64(up + 0x1_0000 * Imm16(x / 0x1_0000));
            up % 0x1_0000_0000 == 0 && mid % 0x1_0000 == 0 && Wrap64(mid + Imm16(x)) == Wrap64(x)
  {
    UpperHalfValue(x);
    LowWord(x);
    hide UpperHalf;
    hide Imm16;
    hide Wrap64;
    WrapAdd(x, 0);
    OrChunks(UpperHalf(x) % 0x1_0000_0000, Imm16(x / 0x1_0000), Imm16(x));
    Halves(x, UpperHalf(x), x % 0x1_0000_0000, 0);
  }

  lemma LowerHalf(x: Long)
    ensures var y := Wrap64(0x1_0000 * Signed16(Imm16(x / 0x1_0000)));
            y % 0x1_0000 == 0 && Wrap64(y + Imm16(x)) % 0x1_0000_0000 == x % 0x1_0000_0000
  {
    var c: int := Chunk(x / 0x1_0000);
    ChunkCarry(x / 0x1_0000);
    assert Signed16(Imm16(x / 0x1_0000)) == c;
    hide Chunk;
    hide Carry;
    hide Signed16;
    hide Wrap64;
    LowSum(x, Carry(x / 0x1_0000), c, Imm16(x));
    WrapClear(c);
    WrapAdd(0x1_0000 * c, Imm16(x));
    WrapLow(0x1_0000 * c + Imm16(x));
  }

  lemma WrapLow(a: int)
    ensures Wrap64(a) % 0x1_0000_0000 == a % 0x1_0000_0000
  {
  }

  lemma LowSum(x: int, k: int, xc: int, xd: int)
    requires x == 0x1_0000_0000 * k + 0x1_0000 * xc + xd
    ensures (0x1_0000 * xc + xd) % 0x1_0000_0000 == x % 0x1_0000_0000
    ensures 0 <= xd < 0x1_0000 ==> 0x1_0000 * xc % 0x1_0000_0000 + xd == x % 0x1_0000_0000
  {
    QuotientUnique(0x1_0000 * xc, 0x1_0000_0000, xc / 0x1_0000, 0x1_0000 * (xc % 0x1_0000));
    if 0 <= xd < 0x1_0000 {
      QuotientUnique(x, 0x1_0000_0000, k + xc / 0x1_0000, 0x1_0000 * (xc % 0x1_0000) + xd);
    }
  }

  /** The low half of x from its two sign-compensated chunks. */
  lemma LowChunks(x: Long)
    ensures var xd: int, xc: int := Chunk(x), Chunk(Carry(x));
            && Wrap64(Wrap64(0x1_0000 * xc) + xd) % 0x1_0000_0000 == x % 0x1_0000_0000
            && (xd >= 0 ==> Wrap64(0x1_0000 * xc) % 0x1_0000_0000 + xd == x % 0x1_0000_0000)
  {
    var xd: int, xc: int := Chunk(x), Chunk(Carry(x));
    ChunkCarry(x);
    ChunkCarry(Carry(x));
    hide Wrap64;
    hide Chunk;
    hide Carry;
    LowSum(x, Carry(Carry(x)), xc, xd);
    WrapAdd(0x1_0000 * xc, xd);
    WrapLow(0x1_0000 * xc);
    WrapLow(0x1_0000 * xc + xd);
  }

  /** A half without its top chunk is loaded by li when its own top bit is clear. */
  lemma HighWithoutTop(x: Long)
    requires Chunk(x / 0x1_0000_0000_0000) == 0 && Chunk(x / 0x1_0000_0000) >= 0
    ensures Wrap64(Chunk(x / 0x1_0000_0000)) % 0x1_0000_0000 == x / 0x1_0000_0000 % 0x1_0000_0000
  {
    TopHalf(x);
  }

  /** The fixed instruction pattern of load_const. */
  function LoadConstCode(d: Reg, x: Long, tmp: Option<Reg>): seq<Instr> {
    var xa, xb := Chunk(x / 0x1_0000_0000_0000), Imm16(x / 0x1_0000_0000);
    var xc, xd := Imm16(x / 0x1_0000), Imm16(x);
    match tmp
    case None =>
      [Addis(d, R0, xa), Ori(d, d, xb), Rldicr(d, d, 32, 31), Oris(d, d, xc), Ori(d, d, xd)]
    case Some(t) =>
      [Addis(t, R0, xa), Addis(d, R0, Signed16(xc)), Ori(t, t, xb), Ori(d, d, xd), Rldimi(d, t, 32, 0)]
  }

  function EncodeAll(prog: seq<Instr>): (ws: seq<Word>)
    ensures |ws| == |prog| && forall k | 0 <= k < |prog| :: ws[k] == Encode(prog[k])
  {
    seq(|prog|, k requires 0 <= k < |prog| => Encode(prog[k]))
  }

  // ----- running the sequence of load_const -----

  lemma LisStep(ws: seq<Word>, k: Known, d: Reg, si: Simm16)
    requires Knows(ws, k)
    ensures Knows(ws + [Encode(Addis(d, R0, si))], k[d := Wrap64(0x1_0000 * si)])
  {
    hide Knows;
    hide Encode;
    KnowsStep(ws, k, Addis(d, R0, si));
  }

  lemma OriStep(ws: seq<Word>, k: Known, a: Reg, ui: Uimm16)
    requires Knows(ws, k) && a in k && k[a] % 0x1_0000 == 0
    ensures Knows(ws + [Encode(Ori(a, a, ui))], k[a := Wrap64(k[a] + ui)])
  {
    hide Knows;
    hide Encode;
    hide Or;
    OriValue(k[a], ui);
    KnowsStep(ws, k, Ori(a, a, ui));
  }

  lemma OrisStep(ws: seq<Word>, k: Known, a: Reg, ui: Uimm16)
    requires Knows(ws, k) && a in k && k[a] % 0x1_0000_0000 == 0
    ensures Knows(ws + [Encode(Oris(a, a, ui))], k[a := Wrap64(k[a] + 0x1_0000 * ui)])
  {
    hide Knows;
    hide Encode;
    hide Or;
    OrisValue(k[a], ui);
    KnowsStep(ws, k, Oris(a, a, ui));
  }

  lemma SldiStep(ws: seq<Word>, k: Known, a: Reg)
    requires Knows(ws, k) && a in k
    ensures Knows(ws + [Encode(Rldicr(a, a, 32, 31))], k[a := k[a] % 0x1_0000_0000 * 0x1_0000_0000])
  {
    hide Knows;
    hide Encode;
    hide KeepHigh;
    hide Rotl64;
    SldiValue(k[a]);
    KnowsStep(ws, k, Rldicr(a, a, 32, 31));
  }

  lemma InsrdiStep(ws: seq<Word>, k: Known, a: Reg, s: Reg)
    requires Knows(ws, k) && a in k && s in k
    ensures Knows(ws + [Encode(Rldimi(a, s, 32, 0))],
                  k[a := k[s] % 0x1_0000_0000 * 0x1_0000_0000 + k[a] % 0x1_0000_0000])
  {
    hide Knows;
    hide Encode;
    hide InsertMasked;
    hide Rotl64;
    InsrdiValue(k[s], k[a]);
    KnowsStep(ws, k, Rldimi(a, s, 32, 0));
  }

  lemma NothingKnown()
    ensures Knows([], map[])
  {
  }

  lemma PlainLoads(d: Reg, x: Long)
    ensures LoadsConstant(EncodeAll(LoadConstCode(d, x, None)), d, None, x, 0)
  {
    hide Knows;
    hide Encode;
    hide Wrap64;
    hide Imm16;
    hide Chunk;
    hide LoadsConstant;
    TopHalf(x);
    PlainChunks(x);
    NothingKnown();
    var prog, ws := LoadConstCode(d, x, None), EncodeAll(LoadConstCode(d, x, None));
    LisStep([], map[], d, Chunk(x / 0x1_0000_0000_0000));
    assert [] + [Encode(prog[0])] == ws[..1];
    var k1 := map[d := Wrap64(0x1_0000 * Chunk(x / 0x1_0000_0000_0000))];
    OriStep(ws[..1], k1, d, Imm16(x / 0x1_0000_0000));
    assert ws[..1] + [Encode(prog[1])] == ws[..2] && k1[d := UpperHalf(x)] == map[d := UpperHalf(x)];
    hide UpperHalf;
    var k2 := map[d := UpperHalf(x)];
    SldiStep(ws[..2], k2, d);
    var up := UpperHalf(x) % 0x1_0000_0000 * 0x1_0000_0000;
    assert ws[..2] + [Encode(prog[2])] == ws[..3] && k2[d := up] == map[d := up];
    OrisStep(ws[..3], map[d := up], d, Imm16(x / 0x1_0000));
    var mid := Wrap64(up + 0x1_0000 * Imm16(x / 0x1_0000));
    assert ws[..3] + [Encode(prog[3])] == ws[..4] && map[d := up][d := mid] == map[d := mid];
    OriStep(ws[..4], map[d := mid], d, Imm16(x));
    assert ws[..4] + [Encode(prog[4])] == ws && map[d := mid][d := Wrap64(x)] == map[d := Wrap64(x)];
    WrapAdd(x, 0);
    KnownLoads(ws, map[d := Wrap64(x)], d, None, x, 0);
  }

  lemma ParallelLoads(d: Reg, x: Long, t: Reg)
    requires d != t
    ensures LoadsConstant(EncodeAll(LoadConstCode(d, x, Some(t))), d, Some(t), x, 0)
  {
    hide Knows;
    hide Encode;
    hide Wrap64;
    hide Imm16;
    hide Chunk;
    hide Signed16;
    hide LoadsConstant;
    TopHalf(x);
    LowerHalf(x);
    NothingKnown();
    var prog, ws := LoadConstCode(d, x, Some(t)), EncodeAll(LoadConstCode(d, x, Some(t)));
    var a, b := Wrap64(0x1_0000 * Chunk(x / 0x1_0000_0000_0000)), Wrap64(0x1_0000 * Signed16(Imm16(x / 0x1_0000)));
    LisStep([], map[], t, Chunk(x / 0x1_0000_0000_0000));
    assert [] + [Encode(prog[0])] == ws[..1];
    LisStep(ws[..1], map[t := a], d, Signed16(Imm16(x / 0x1_0000)));
    assert ws[..1] + [Encode(prog[1])] == ws[..2];
    OriStep(ws[..2], map[t := a, d := b], t, Imm16(x / 0x1_0000_0000));
    assert ws[..2] + [Encode(prog[2])] == ws[..3];
    var a', b' := Wrap64(a + Imm16(x / 0x1_0000_0000)), Wrap64(b + Imm16(x));
    assert map[t := a, d := b][t := a'] == map[t := a', d := b];
    OriStep(ws[..3], map[t := a', d := b], d, Imm16(x));
    assert ws[..3] + [Encode(prog[3])] == ws[..4] && map[t := a', d := b][d := b'] == map[t := a', d := b'];
    InsrdiStep(ws[..4], map[t := a', d := b'], d, t);
    Halves(x, a', b', 0);
    assert ws[..4] + [Encode(prog[4])] == ws;
    var k := map[t := a', d := b'][d := Wrap64(x)];
    WrapAdd(x, 0);
    KnownLoads(ws, k, d, Some(t), x, 0);
  }

  class Assembler {
    var code: seq<Word>

    /** What running the code emitted since mark leaves in the registers. */
    ghost var mark: nat
    ghost var known: Known

    ghost predicate Valid()
      reads this
    {
      mark <= |code| && Knows(code[mark..], known)
    }

    constructor ()
      ensures Valid() && code == []
    {
      code, mark, known := [], 0, map[];
    }

    ghost method Mark()
      modifies this`mark, this`known
      ensures Valid() && mark == |code| && known == map[]
    {
      mark, known := |code|, map[];
      assert code[mark..] == [];
    }

    /** An arithmetic instruction.  Reading a register that is not tracked ends what is known. */
    method Emit(i: Instr)
      requires Valid() && IsArith(i)
      modifies this
      ensures Valid() && code == old(code) + [Encode(i)]
      ensures Sources(i) <= old(known).Keys ==>
                mark == old(mark) && known == old(known)[Target(i) := ArithValue(i, View(old(known)))]
      ensures !(Sources(i) <= old(known).Keys) ==> mark == |code| && known == map[]
    {
      hide Encode;
      hide ArithValue;
      hide Knows;
      ghost var words := code[mark..];
      code := code + [Encode(i)];
      if Sources(i) <= known.Keys {
        KnowsStep(words, known, i);
        assert code[mark..] == words + [Encode(i)];
        known := known[Target(i) := ArithValue(i, View(known))];
      } else {
        Mark();
      }
    }

    /** A load or store, which ends what is known about the registers. */
    method EmitAccess(i: Instr)
      requires Encodable(i)
      modifies this
      ensures code == old(code) + [Encode(i)]
    {
      code := code + [Encode(i)];
      Mark();
    }

    method Li(d: Reg, si: Simm16)
      requires Valid()
      modifies this
      ensures Valid() && mark == old(mark) && code == old(code) + [Encode(Instr.Addi(d, R0, si))]
      ensures known == old(known)[d := Wrap64(si)]
    {
      hide Knows;
      hide Encode;
      Emit(Instr.Addi(d, R0, si));
    }

    method Lis(d: Reg, si: Simm16)
      requires Valid()
      modifies this
      ensures Valid() && mark == old(mark) && code == old(code) + [Encode(Instr.Addis(d, R0, si))]
      ensures known == old(known)[d := Wrap64(0x1_0000 * si)]
    {
      hide Knows;
      hide Encode;
      Emit(Instr.Addis(d, R0, si));
    }

    method Addi(d: Reg, a: Reg, si: Simm16)
      requires Valid() && a != R0
      modifies this
      ensures Valid() && code == old(code) + [Encode(Instr.Addi(d, a, si))]
      ensures a in old(known) ==> mark == old(mark) && known == old(known)[d := Wrap64(old(known)[a] + si)]
    {
      hide Knows;
      hide Encode;
      Emit(Instr.Addi(d, a, si));
    }

    method Addis(d: Reg, a: Reg, si: Simm16)
      requires Valid() && a != R0
      modifies this
      ensures Valid() && code == old(code) + [Encode(Instr.Addis(d, a, si))]
      ensures a in old(known) ==> mark == old(mark) && known == old(known)[d := Wrap64(old(known)[a] + 0x1_0000 * si)]
    {
      hide Knows;
      hide Encode;
      Emit(Instr.Addis(d, a, si));
    }

    method Ori(a: Reg, s: Reg, ui: Uimm16)
      requires Valid()
      modifies this
      ensures Valid() && code == old(code) + [Encode(Instr.Ori(a, s, ui))]
      ensures s in old(known) ==> mark == old(mark) && known == old(known)[a := Wrap64(Or(old(known)[s], ui))]
      ensures s in old(known) && old(known)[s] % 0x1_0000 == 0 ==>
                known == old(known)[a := Wrap64(old(known)[s] + ui)]
    {
      hide Knows;
      hide Encode;
      hide Or;
      if s in known && known[s] % 0x1_0000 == 0 { OriValue(known[s], ui); }
      Emit(Instr.Ori(a, s, ui));
    }

    method Oris(a: Reg, s: Reg, ui: Uimm16)
      requires Valid()
      modifies this
      ensures Valid() && code == old(code) + [Encode(Instr.Oris(a, s, ui))]
      ensures s in old(known) ==>
                mark == old(mark) && known == old(known)[a := Wrap64(Or(old(known)[s], 0x1_0000 * ui))]
      ensures s in old(known) && old(known)[s] % 0x1_0000_0000 == 0 ==>
                known == old(known)[a := Wrap64(old(known)[s] + 0x1_0000 * ui)]
    {
      hide Knows;
      hide Encode;
      hide Or;
      if s in known && known[s] % 0x1_0000_0000 == 0 { OrisValue(known[s], ui); }
      Emit(Instr.Oris(a, s, ui));
    }

    /** sldi(a, s, 32) */
    method Sldi32(a: Reg, s: Reg)
      requires Valid()
      modifies this
      ensures Valid() && code == old(code) + [Encode(Rldicr(a, s, 32, 31))]
      ensures s in old(known) ==>
                mark == old(mark) && known == old(known)[a := old(known)[s] % 0x1_0000_0000 * 0x1_0000_0000]
    {
      hide Knows;
      hide Encode;
      hide KeepHigh;
      hide Rotl64;
      if s in known { SldiValue(known[s]); }
      Emit(Rldicr(a, s, 32, 31));
    }

    /** insrdi(a, s, 32, 0) */
    method Insrdi32(a: Reg, s: Reg)
      requires Valid()
      modifies this
      ensures Valid() && code == old(code) + [Encode(Rldimi(a, s, 32, 0))]
      ensures s in old(known) && a in old(known) ==>
                mark == old(mark) && known == old(known)[a := old(known)[s] % 0x1_0000_0000 * 0x1_0000_0000
                                                              + old(known)[a] % 0x1_0000_0000]
    {
      hide Knows;
      hide Encode;
      hide InsertMasked;
      hide Rotl64;
      if s in known && a in known { InsrdiValue(known[s], known[a]); }
      Emit(Rldimi(a, s, 32, 0));
    }

    /** Fixed five-instruction form, so that the constant can be patched later; with a temporary the
        two halves are built independently. */
    method LoadConst(d: Reg, x: Long, tmp: Option<Reg>)
      requires tmp != Some(d)
      modifies this
      ensures code == old(code) + EncodeAll(LoadConstCode(d, x, tmp))
      ensures LoadsConstant(code[|old(code)|..], d, tmp, x, 0)
    {
      hide Encode;
      hide LoadsConstant;
      hide LoadConstCode;
      if tmp.None? {
        EmitPlain(d, x);
        PlainLoads(d, x);
      } else {
        EmitParallel(d, x, tmp.value);
        ParallelLoads(d, x, tmp.value);
      }
      assert code[|old(code)|..] == EncodeAll(LoadConstCode(d, x, tmp));
    }

    method EmitPlain(d: Reg, x: Long)
      modifies this
      ensures code == old(code) + EncodeAll(LoadConstCode(d, x, None))
    {
      hide Encode;
      hide Knows;
      hide Wrap64;
      hide Imm16;
      hide Chunk;
      hide Or;
      Mark();
      Lis(d, Chunk(x / 0x1_0000_0000_0000));
      Ori(d, d, Imm16(x / 0x1_0000_0000));
      Sldi32(d, d);
      Oris(d, d, Imm16(x / 0x1_0000));
      Ori(d, d, Imm16(x));
    }

    method EmitParallel(d: Reg, x: Long, t: Reg)
      modifies this
      ensures code == old(code) + EncodeAll(LoadConstCode(d, x, Some(t)))
    {
      hide Encode;
      hide Knows;
      hide Wrap64;
      hide Imm16;
      hide Chunk;
      hide Signed16;
      hide Or;
      Mark();
      Lis(t, Chunk(x / 0x1_0000_0000_0000));
      Lis(d, Signed16(Imm16(x / 0x1_0000)));
      Ori(t, t, Imm16(x / 0x1_0000_0000));
      Ori(d, d, Imm16(x));
      Insrdi32(d, t);
    }

    /** High 32 bits without a temporary: carried chunks, shifted up, zero chunks skipped. */
    method LoadCarried(d: Reg, rem: int, xc: Simm16)
      requires Valid() && d != R0
      modifies this
      ensures Valid() && mark == old(mark) && old(code) <= code
      ensures |code| == |old(code)| + 2 + OneIf(Chunk(Carry(rem)) != 0 && Chunk(rem) != 0) + OneIf(xc != 0)
      ensures known == old(known)[d := Wrap64(0x1_0000 * (0x1_0000 * rem + xc))]
    {
      hide Encode;
      hide Knows;
      hide Wrap64;
      hide Chunk;
      hide Carry;
      var xb: int := Chunk(rem);
      var xa: int := Chunk(Carry(rem));
      WrapAdd(0x1_0000 * xa, xb);
      HighChunks(rem, xc);
      if xa != 0 {
        Lis(d, xa);
        if xb != 0 { Addi(d, d, xb); }
      } else {
        Li(d, xb);
      }
      assert known == old(known)[d := Wrap64(0x1_0000 * xa + xb)];
      WrapShift(0x1_0000 * xa + xb);
      WrapAdd(0x1_0000_0000 * (0x1_0000 * xa + xb), 0);
      Sldi32(d, d);
      if xc != 0 { Addis(d, d, xc); }
    }

    /** Second step for the temporary: completes the upper half of x in it. */
    method LoadUpper(tmp: Reg, x: Long, xa: Simm16, xb: Simm16, loadXa: bool)
      requires Valid() && xa == Chunk(x / 0x1_0000_0000_0000) && xb == Chunk(x / 0x1_0000_0000)
      requires loadXa == (xa != 0 || xb < 0)
      requires loadXa ==> tmp in known && known[tmp] == Wrap64(0x1_0000 * (xa as int))
      modifies this
      ensures Valid() && mark == old(mark) && old(code) <= code
      ensures |code| == |old(code)| + OneIf(!loadXa || xb != 0)
      ensures tmp in known && known == old(known)[tmp := known[tmp]]
      ensures known[tmp] % 0x1_0000_0000 == x / 0x1_0000_0000 % 0x1_0000_0000
    {
      hide Encode;
      hide Knows;
      hide Wrap64;
      hide Chunk;
      hide Imm16;
      TopHalf(x);
      if loadXa {
        UnsignedChunk(x / 0x1_0000_0000);
        WrapAdd(0x1_0000 * (xa as int), 0);
        if xb != 0 { Ori(tmp, tmp, Imm16(x / 0x1_0000_0000)); }
      } else {
        HighWithoutTop(x);
        Li(tmp, xb);
      }
    }

    /** Second step for d: completes the lower half of x in it, or leaves its low chunk over. */
    method LoadLower(d: Reg, x: Long, xc: Simm16, xd: Simm16, returnRest: bool) returns (rest: Simm16)
      requires Valid() && d != R0 && xd == Chunk(x) && xc == Chunk(Carry(x))
      requires xc != 0 ==> d in known && known[d] == Wrap64(0x1_0000 * (xc as int))
      modifies this
      ensures Valid() && mark == old(mark) && old(code) <= code
      ensures |code| == |old(code)| + OneIf(xc == 0 || (xd != 0 && !(returnRest && xd >= 0)))
      ensures d in known && known == old(known)[d := known[d]]
      ensures 0 <= rest && known[d] % 0x1_0000_0000 + rest == x % 0x1_0000_0000
      ensures rest == if returnRest && xc != 0 && xd >= 0 then xd else 0
    {
      hide Encode;
      hide Knows;
      hide Wrap64;
      hide Chunk;
      hide Carry;
      LowChunks(x);
      rest := 0;
      if xc != 0 {
        WrapAdd(0x1_0000 * (xc as int), 0);
        if returnRest && xd >= 0 { rest := xd; }
        else if xd != 0 { Addi(d, d, xd); }
      } else {
        WrapZero();
        Li(d, xd);
      }
    }

    /** High 32 bits through a temporary, inserted above a separately loaded low half. */
    method LoadHalves(d: Reg, x: Long, tmp: Reg, xc: Simm16, xd: Simm16, returnRest: bool) returns (rest: Simm16)
      requires Valid() && d != R0 && d != tmp && xd == Chunk(x) && xc == Chunk(Carry(x))
      modifies this
      ensures Valid() && mark == old(mark) && old(code) <= code
      ensures |code| == |old(code)| + 2 + UpperSize(x) + OneIf(xc != 0 && xd != 0 && !(returnRest && xd > 0))
      ensures known.Keys == old(known).Keys + {d, tmp} && Wrap64(known[d] + rest) == Wrap64(x)
      ensures rest == if returnRest && xc != 0 && xd >= 0 then xd else 0
    {
      hide Encode;
      hide Knows;
      hide Wrap64;
      hide Carry;
      hide Chunk;
      var xa, xb := Chunk(x / 0x1_0000_0000_0000), Chunk(x / 0x1_0000_0000);
      var loadXa := xa != 0 || xb < 0;
      if loadXa { Lis(tmp, xa); }
      if xc != 0 { Lis(d, xc); }
      LoadUpper(tmp, x, xa, xb, loadXa);
      rest := LoadLower(d, x, xc, xd, returnRest);
      Halves(x, known[tmp], known[d], rest);
      Insrdi32(d, tmp);
      WrapAdd(x, 0);
    }

    /** Loads x with only the instructions its chunks need, leaving a signed 16-bit remainder for
        the next instruction when the caller asks for one. */
    method LoadConstOptimized(d: Reg, x: Long, tmp: Option<Reg>, returnRest: bool) returns (rest: Simm16)
      requires d != R0 && tmp != Some(d)
      modifies this
      ensures old(code) <= code && |code| == |old(code)| + OptimizedSize(x, tmp, returnRest) <= |old(code)| + 5
      ensures LoadsConstant(code[|old(code)|..], d, tmp, x, rest)
      ensures FitsChunk(x) ==> |code| == |old(code)| + 1
      ensures FitsTwoChunks(x) ==> |code| <= |old(code)| + 2
      ensures rest == Rest(x, tmp, returnRest)
    {
      hide Encode;
      hide Knows;
      hide LoadsConstant;
      hide Wrap64;
      hide Chunk;
      hide Carry;
      CarryZero(x);
      Mark();
      var rem: int := x;
      var xd := Chunk(rem);
      rem := Carry(rem);
      ChunkCarry(x);
      WrapAdd(xd, 0);
      if rem == 0 {
        Li(d, xd);
        KnownLoads(code[mark..], known, d, tmp, x, 0);
        return 0;
      }
      var xc := Chunk(rem);
      rem := Carry(rem);
      ChunkCarry(Carry(x));
      if rem == 0 {
        Lis(d, xc);
      } else {
        if tmp.Some? {
          rest := LoadHalves(d, x, tmp.value, xc, xd, returnRest);
          KnownLoads(code[mark..], known, d, tmp, x, rest);
          return;
        }
        LoadCarried(d, rem, xc);
      }
      WrapAdd(0x1_0000 * Carry(x), xd);
      assert known == map[d := Wrap64(0x1_0000 * Carry(x))];
      if returnRest {
        KnownLoads(code[mark..], known, d, tmp, x, xd);
        return xd;
      }
      if xd != 0 { Addi(d, d, xd); }
      rest := 0;
      WrapAdd(x, 0);
      KnownLoads(code[mark..], known, d, tmp, x, 0);
    }
  }

  lemma UnsignedChunk(x: int)
    ensures Chunk(x) == 0 <==> Imm16(x) == 0
  {
  }

  lemma WrapZero()
    ensures Wrap64(0) == 0
  {
  }
}
