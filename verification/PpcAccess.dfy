/**
 The RegisterOrConstant forms of the PPC64 loads and stores.  The six loads share one shape
 and so do the four stores; the operation is a parameter here.
 */
module PpcAccess {
  import opened Bits
  import opened Options
  import opened PpcFields
  import opened PpcIsa
  import opened PpcAssembler

  datatype RegisterOrConstant = Constant(c: Long) | Register(r: Reg)

  predicate IsSimm16(c: int) { -0x8000 <= c < 0x8000 }

  /** An operand whose constant does not fit an immediate beside the base register. */
  predicate LargeWithBase(roc: RegisterOrConstant, s1: Option<Reg>) {
    roc.Constant? && s1.Some? && !IsSimm16(roc.c)
  }

  /** The address the caller asks for: the operand plus the base register, if there is one. */
  function Requested(roc: RegisterOrConstant, s1: Option<Reg>, f: Regs): U64 {
    Wrap64((if roc.Constant? then roc.c else f(roc.r)) + (if s1.Some? then f(s1.value) else 0))
  }

  /** How many instructions an access takes: one, and the loading of a constant that it cannot
      take as a displacement or, beside no base register, takes only the rest of. */
  function AccessSize(roc: RegisterOrConstant, s1: Option<Reg>): nat {
    if roc.Constant? && (s1.None? || !IsSimm16(roc.c)) then 1 + OptimizedSize(roc.c, None, s1.None?) else 1
  }

  // ----- a constant in a register -----

  /** The state m after a constant short of c by rest was loaded into t. */
  ghost predicate Holds(t: Reg, c: Long, rest: int, s: Machine, m: Machine)
    requires s.Running?
  {
    && m.Running?
    && m.mem == s.mem
    && Wrap64(m.regs(t) + rest) == Wrap64(c)
    && forall r: Reg :: r != t ==> m.regs(r) == s.regs(r)
  }

  lemma ConstantHolds(ws: seq<Word>, t: Reg, c: Long, rest: int, s: Machine)
    requires LoadsConstant(ws, t, None, c, rest) && s.Running?
    ensures Holds(t, c, rest, s, Run(ws, s))
  {
    hide Run;
  }

  lemma WrapCancel(v: U64, c: int, rest: int)
    requires Wrap64(v + rest) == Wrap64(c)
    ensures v == Wrap64(c - rest)
  {
  }

  lemma AlignedRest(c: Long, rest: Simm16)
    requires rest == 0 || (rest == Chunk(c) && c % 4 == 0)
    ensures rest % 4 == 0
  {
  }

  // ----- loads -----

  /** What the assertions on the way demand of a load: no R0 as base, and a displacement that is
      a multiple of four where the DS form encodes one. */
  predicate LoadAsserts(op: LoadOp, d: Reg, roc: RegisterOrConstant, s1: Option<Reg>) {
    match roc
    case Register(r) => r != R0
    case Constant(c) =>
      if s1.None? then d != R0 && (LoadIsDs(op) ==> c % 4 == 0 || IsSimm16(c))
      else if IsSimm16(c) then s1.value != R0 && (LoadIsDs(op) ==> c % 4 == 0)
      else d != R0
  }

  /** A large constant is loaded into d while d is still needed as the base. */
  predicate BaseLost(d: Reg, roc: RegisterOrConstant, s1: Option<Reg>) {
    LargeWithBase(roc, s1) && s1.value == d
  }

  /** The address actually read: a large constant is first loaded into d, over a base in d. */
  function LoadAddress(d: Reg, roc: RegisterOrConstant, s1: Option<Reg>, f: Regs): U64 {
    if BaseLost(d, roc, s1) then Wrap64(roc.c + roc.c) else Requested(roc, s1, f)
  }

  /** d was loaded from addr and nothing else changed. */
  ghost predicate Loaded(op: LoadOp, d: Reg, addr: U64, s: Machine, t: Machine)
    requires s.Running?
  {
    && t.Running?
    && t.mem == s.mem
    && t.regs(d) == LoadValue(op, s.mem, addr)
    && forall r: Reg :: r != d ==> t.regs(r) == s.regs(r)
  }

  /** Running ws loads d from the address of the operand, in every state. */
  ghost predicate Loads(ws: seq<Word>, op: LoadOp, d: Reg, roc: RegisterOrConstant, s1: Option<Reg>) {
    forall s: Machine :: s.Running? ==> Loaded(op, d, LoadAddress(d, roc, s1, s.regs), s, Run(ws, s))
  }

  lemma LoadThrough(op: LoadOp, d: Reg, c: Long, rest: Simm16, s1: Option<Reg>, i: Instr, s: Machine, m: Machine)
    requires s.Running? && d != R0 && Holds(d, c, rest, s, m)
    requires if s1.None? then i == Load(op, d, d, rest)
             else rest == 0 && !IsSimm16(c) && i == LoadX(op, d, d, s1.value)
    ensures Loaded(op, d, LoadAddress(d, Constant(c), s1, s.regs), s, Step(i, m))
  {
    hide LoadValue;
    hide Wrap64;
    WrapCancel(m.regs(d), c, rest);
    if s1.Some? {
      WrapAdd(c, m.regs(s1.value));
      WrapAdd(c, c);
    }
  }

  lemma LoadThroughRuns(ws: seq<Word>, op: LoadOp, d: Reg, c: Long, rest: Simm16, s1: Option<Reg>, i: Instr)
    requires d != R0 && LoadsConstant(ws, d, None, c, rest) && Encodable(i)
    requires if s1.None? then i == Load(op, d, d, rest)
             else rest == 0 && !IsSimm16(c) && i == LoadX(op, d, d, s1.value)
    ensures Loads(ws + [Encode(i)], op, d, Constant(c), s1)
  {
    hide Encode;
    hide LoadsConstant;
    hide Run;
    hide Step;
    hide LoadAddress;
    hide LoadValue;
    forall s: Machine | s.Running?
      ensures Loaded(op, d, LoadAddress(d, Constant(c), s1, s.regs), s, Run(ws + [Encode(i)], s))
    {
      ConstantHolds(ws, d, c, rest, s);
      RunAppend(ws, i, s);
      LoadThrough(op, d, c, rest, s1, i, s, Run(ws, s));
    }
  }

  lemma LoadDirect(op: LoadOp, d: Reg, roc: RegisterOrConstant, s1: Option<Reg>, i: Instr, s: Machine)
    requires s.Running? && LoadAsserts(op, d, roc, s1)
    requires match roc
             case Constant(c) => s1.Some? && IsSimm16(c) && i == Load(op, d, s1.value, c)
             case Register(r) => i == if s1.None? then Load(op, d, r, 0) else LoadX(op, d, r, s1.value)
    ensures Loaded(op, d, LoadAddress(d, roc, s1, s.regs), s, Step(i, s))
  {
    hide LoadValue;
  }

  method LoadOne(a: Assembler, op: LoadOp, d: Reg, roc: RegisterOrConstant, s1: Option<Reg>, i: Instr)
    requires LoadAsserts(op, d, roc, s1) && Encodable(i)
    requires match roc
             case Constant(c) => s1.Some? && IsSimm16(c) && i == Load(op, d, s1.value, c)
             case Register(r) => i == if s1.None? then Load(op, d, r, 0) else LoadX(op, d, r, s1.value)
    modifies a
    ensures a.code == old(a.code) + [Encode(i)]
    ensures Loads(a.code[|old(a.code)|..], op, d, roc, s1)
  {
    hide Encode;
    hide LoadAddress;
    hide Step;
    hide LoadValue;
    ghost var n := |a.code|;
    a.EmitAccess(i);
    assert a.code[n..] == [] + [Encode(i)];
    forall s: Machine | s.Running?
      ensures Loaded(op, d, LoadAddress(d, roc, s1, s.regs), s, Run(a.code[n..], s))
    {
      RunAppend([], i, s);
      LoadDirect(op, d, roc, s1, i, s);
    }
  }

  /** Running ws loads d from the requested address, in every state of that byte order. */
  ghost predicate LoadsRequested(ws: seq<Word>, op: LoadOp, d: Reg, roc: RegisterOrConstant, s1: Option<Reg>,
                                 little: bool) {
    forall s: Machine :: s.Running? && s.mem.little == little ==>
      Loaded(op, d, Requested(roc, s1, s.regs), s, Run(ws, s))
  }

  lemma {:induction false} ReadZeros(m: Mem, ea: int, n: nat)
    requires forall k | 0 <= k < n :: m.at(ByteAddress(ea, k)) == 0
    ensures ReadBytes(m, ea, n) == 0
    decreases n
  {
    hide ByteAddress;
    if n > 0 {
      forall k | 0 <= k < n - 1
        ensures m.at(ByteAddress(HighBytes(m, ea), k)) == 0
      {
        ShiftAddress(ea, k);
      }
      ReadZeros(m, HighBytes(m, ea), n - 1);
    }
  }

  lemma ReadOdd(m: Mem, ea: int, n: nat)
    requires n > 0 && m.at(LowByteAddress(m, ea, n)) == 1
    ensures ReadBytes(m, ea, n) % 2 == 1
  {
    hide LowByteAddress;
    QuotientUnique(ReadBytes(m, ea, n), 2, 128 * ReadBytes(m, HighBytes(m, ea), n - 1), 1);
  }

  lemma ZeroLoaded(op: LoadOp, m: Mem, ea: U64)
    requires forall k | 0 <= k < LoadWidth(op) :: m.at(ByteAddress(ea, k)) == 0
    ensures LoadValue(op, m, ea) == 0
  {
    ReadZeros(m, ea, LoadWidth(op));
  }

  /** A number whose lowest byte is 1 is odd, and stays so under sign extension and wrap-around. */
  lemma OddLoaded(op: LoadOp, m: Mem, ea: U64)
    requires m.at(LowByteAddress(m, ea, LoadWidth(op))) == 1
    ensures LoadValue(op, m, ea) % 2 == 1
  {
    hide ReadBytes;
    hide SignExtend;
    hide Wrap64;
    hide LowByteAddress;
    var n := LoadWidth(op);
    ReadOdd(m, ea, n);
    OddExtended(ReadBytes(m, ea, n), 8 * n);
  }

  lemma OddExtended(v: nat, n: nat)
    requires n > 0 && v % 2 == 1
    ensures Wrap64(SignExtend(v, n)) % 2 == 1 && Wrap64(v) % 2 == 1
  {
    hide Wrap64;
    OddWrapped(v);
    OddWrapped(v - 2 * Pow2(n - 1));
  }

  lemma OddWrapped(x: int)
    requires x % 2 == 1
    ensures Wrap64(x) % 2 == 1
  {
  }

  lemma FarApart(c: int, k: int, j: int)
    requires 0 <= k < 8 && 0 <= j < 8
    ensures Wrap64(c + Wrap64(c + 0x100)) == Wrap64(c + c + 0x100)
    ensures ByteAddress(Wrap64(c + c + 0x100), k) != ByteAddress(Wrap64(c + c), j)
  {
    WrapAdd(c + 0x100, c);
    WrapAdd(c + c + 0x100, k);
    WrapAdd(c + c, j);
    WrapDistinct(c + c + j, 0x100 + k - j);
  }

  lemma WrapDistinct(a: int, d: int)
    requires 0 < d < 0x1_0000
    ensures Wrap64(a + d) != Wrap64(a)
  {
  }

  /** A state that tells the two addresses apart: registers 256 above the constant, and memory
      with a single non-zero byte, the lowest one of the number at the wrong address. */
  lemma WrongBase(ws: seq<Word>, op: LoadOp, d: Reg, roc: RegisterOrConstant, s1: Option<Reg>, little: bool)
    requires Loads(ws, op, d, roc, s1) && BaseLost(d, roc, s1)
    ensures !LoadsRequested(ws, op, d, roc, s1, little)
  {
    hide Run;
    hide LoadValue;
    hide Wrap64;
    hide ByteAddress;
    var c: int, w := roc.c, LoadWidth(op);
    var j := if little then 0 else w - 1;
    var low := ByteAddress(Wrap64(c + c), j);
    var f: Regs := (r: Reg) => Wrap64(c + 0x100);
    var m := Mem((a: U64) => if a == low then 1 else 0, little);
    var s := Running(f, m);
    var right := Requested(roc, s1, f);
    forall k | 0 <= k < w
      ensures m.at(ByteAddress(right, k)) == 0
    {
      FarApart(c, k, j);
    }
    FarApart(c, 0, j);
    ZeroLoaded(op, m, right);
    OddLoaded(op, m, Wrap64(c + c));
    assert Loaded(op, d, LoadAddress(d, roc, s1, s.regs), s, Run(ws, s));
    assert !Loaded(op, d, Requested(roc, s1, s.regs), s, Run(ws, s));
  }

  /** In either byte order, code that behaves as the loads do reads the requested address in every
      state exactly when the base register is not overwritten on the way. */
  lemma LoadExact(ws: seq<Word>, op: LoadOp, d: Reg, roc: RegisterOrConstant, s1: Option<Reg>, little: bool)
    requires Loads(ws, op, d, roc, s1)
    ensures LoadsRequested(ws, op, d, roc, s1, little) <==> !BaseLost(d, roc, s1)
  {
    hide Run;
    hide Requested;
    hide LoadValue;
    if BaseLost(d, roc, s1) {
      WrongBase(ws, op, d, roc, s1, little);
    } else {
      forall s: Machine | s.Running? && s.mem.little == little
        ensures Loaded(op, d, Requested(roc, s1, s.regs), s, Run(ws, s))
      {
        assert Loaded(op, d, LoadAddress(d, roc, s1, s.regs), s, Run(ws, s));
      }
    }
  }

  /** ld, lwa, lwz, lha, lhz and lbz with a RegisterOrConstant operand. */
  method LoadRoc(a: Assembler, op: LoadOp, d: Reg, roc: RegisterOrConstant, s1: Option<Reg>)
    requires LoadAsserts(op, d, roc, s1)
    modifies a
    ensures old(a.code) <= a.code && |a.code| == |old(a.code)| + AccessSize(roc, s1)
    ensures Loads(a.code[|old(a.code)|..], op, d, roc, s1)
    ensures forall little ::
              LoadsRequested(a.code[|old(a.code)|..], op, d, roc, s1, little) <==> !BaseLost(d, roc, s1)
  {
    hide Encode;
    hide Loads;
    hide LoadsRequested;
    hide LoadsConstant;
    hide Chunk;
    ghost var n := |a.code|;
    if roc.Constant? {
      if s1.None? {
        var rest := a.LoadConstOptimized(d, roc.c, None, true);
        if LoadIsDs(op) { AlignedRest(roc.c, rest); }
        ghost var ws := a.code[n..];
        var i := Load(op, d, d, rest);
        LoadThroughRuns(ws, op, d, roc.c, rest, s1, i);
        a.EmitAccess(i);
        assert a.code[n..] == ws + [Encode(i)];
      } else if IsSimm16(roc.c) {
        LoadOne(a, op, d, roc, s1, Load(op, d, s1.value, roc.c));
      } else {
        var rest := a.LoadConstOptimized(d, roc.c, None, false);
        ghost var ws := a.code[n..];
        var i := LoadX(op, d, d, s1.value);
        LoadThroughRuns(ws, op, d, roc.c, rest, s1, i);
        a.EmitAccess(i);
        assert a.code[n..] == ws + [Encode(i)];
      }
    } else if s1.None? {
      LoadOne(a, op, d, roc, s1, Load(op, d, roc.r, 0));
    } else {
      LoadOne(a, op, d, roc, s1, LoadX(op, d, roc.r, s1.value));
    }
    LoadExact(a.code[n..], op, d, roc, s1, true);
    LoadExact(a.code[n..], op, d, roc, s1, false);
  }

  // ----- stores -----

  /** What the assertions and guarantees on the way demand of a store. */
  predicate StoreAsserts(op: StoreOp, roc: RegisterOrConstant, s1: Option<Reg>, tmp: Option<Reg>) {
    match roc
    case Register(r) => r != R0
    case Constant(c) =>
      if s1.None? then tmp.Some? && tmp.value != R0 && (StoreIsDs(op) ==> c % 4 == 0 || IsSimm16(c))
      else if IsSimm16(c) then s1.value != R0 && (StoreIsDs(op) ==> c % 4 == 0)
      else tmp.Some? && tmp.value != R0
  }

  /** The constant goes through the temporary register. */
  predicate UsesTmp(roc: RegisterOrConstant, s1: Option<Reg>) {
    roc.Constant? && (s1.None? || !IsSimm16(roc.c))
  }

  /** The part of the constant that is left to the displacement of the store itself. */
  function LeftOver(roc: RegisterOrConstant, s1: Option<Reg>): Simm16 {
    if roc.Constant? && s1.None? && !IsSimm16(roc.c) then Chunk(roc.c) else 0
  }

  function StoreAddress(roc: RegisterOrConstant, s1: Option<Reg>, tmp: Option<Reg>, f: Regs): U64 {
    if LargeWithBase(roc, s1) && s1 == tmp then Wrap64(roc.c + roc.c) else Requested(roc, s1, f)
  }

  /** The value actually stored: loading the constant overwrites a d that is the temporary. */
  function StoredValue(d: Reg, roc: RegisterOrConstant, s1: Option<Reg>, tmp: Option<Reg>, f: Regs): U64 {
    if UsesTmp(roc, s1) && tmp == Some(d) then Wrap64(roc.c - LeftOver(roc, s1)) else f(d)
  }

  /** v was stored at addr and at most the temporary register changed. */
  ghost predicate Stored(op: StoreOp, tmp: Option<Reg>, addr: U64, v: U64, s: Machine, t: Machine)
    requires s.Running?
  {
    && t.Running?
    && t.mem == StoreValue(op, s.mem, addr, v)
    && forall r: Reg :: Some(r) != tmp ==> t.regs(r) == s.regs(r)
  }

  /** Running ws stores at the address of the operand, in every state. */
  ghost predicate Stores(ws: seq<Word>, op: StoreOp, d: Reg, roc: RegisterOrConstant, s1: Option<Reg>,
                         tmp: Option<Reg>) {
    forall s: Machine :: s.Running? ==>
      Stored(op, tmp, StoreAddress(roc, s1, tmp, s.regs), StoredValue(d, roc, s1, tmp, s.regs), s, Run(ws, s))
  }

  lemma StoreThrough(op: StoreOp, d: Reg, c: Long, rest: Simm16, s1: Option<Reg>, t: Reg, i: Instr,
                     s: Machine, m: Machine)
    requires s.Running? && t != R0 && Holds(t, c, rest, s, m) && rest == LeftOver(Constant(c), s1)
    requires if s1.None? then i == Store(op, d, t, rest) else !IsSimm16(c) && i == StoreX(op, d, t, s1.value)
    ensures Stored(op, Some(t), StoreAddress(Constant(c), s1, Some(t), s.regs),
                   StoredValue(d, Constant(c), s1, Some(t), s.regs), s, Step(i, m))
  {
    hide StoreValue;
    hide Chunk;
    hide Wrap64;
    WrapCancel(m.regs(t), c, rest);
    if s1.Some? {
      WrapAdd(c, m.regs(s1.value));
      WrapAdd(c, c);
    }
  }

  lemma StoreThroughRuns(ws: seq<Word>, op: StoreOp, d: Reg, c: Long, rest: Simm16, s1: Option<Reg>, t: Reg, i: Instr)
    requires t != R0 && LoadsConstant(ws, t, None, c, rest) && Encodable(i) && rest == LeftOver(Constant(c), s1)
    requires if s1.None? then i == Store(op, d, t, rest) else !IsSimm16(c) && i == StoreX(op, d, t, s1.value)
    ensures Stores(ws + [Encode(i)], op, d, Constant(c), s1, Some(t))
  {
    hide Encode;
    hide LoadsConstant;
    hide Run;
    hide Step;
    hide StoreAddress;
    hide StoredValue;
    hide StoreValue;
    hide LeftOver;
    forall s: Machine | s.Running?
      ensures Stored(op, Some(t), StoreAddress(Constant(c), s1, Some(t), s.regs),
                     StoredValue(d, Constant(c), s1, Some(t), s.regs), s, Run(ws + [Encode(i)], s))
    {
      ConstantHolds(ws, t, c, rest, s);
      RunAppend(ws, i, s);
      StoreThrough(op, d, c, rest, s1, t, i, s, Run(ws, s));
    }
  }

  lemma StoreDirect(op: StoreOp, d: Reg, roc: RegisterOrConstant, s1: Option<Reg>, tmp: Option<Reg>, i: Instr,
                    s: Machine)
    requires s.Running? && StoreAsserts(op, roc, s1, tmp)
    requires match roc
             case Constant(c) => s1.Some? && IsSimm16(c) && i == Store(op, d, s1.value, c)
             case Register(r) => i == if s1.None? then Store(op, d, r, 0) else StoreX(op, d, r, s1.value)
    ensures Stored(op, tmp, StoreAddress(roc, s1, tmp, s.regs), StoredValue(d, roc, s1, tmp, s.regs), s, Step(i, s))
  {
    hide StoreValue;
  }

  method StoreOne(a: Assembler, op: StoreOp, d: Reg, roc: RegisterOrConstant, s1: Option<Reg>, tmp: Option<Reg>,
                  i: Instr)
    requires StoreAsserts(op, roc, s1, tmp) && Encodable(i)
    requires match roc
             case Constant(c) => s1.Some? && IsSimm16(c) && i == Store(op, d, s1.value, c)
             case Register(r) => i == if s1.None? then Store(op, d, r, 0) else StoreX(op, d, r, s1.value)
    modifies a
    ensures a.code == old(a.code) + [Encode(i)]
    ensures Stores(a.code[|old(a.code)|..], op, d, roc, s1, tmp)
  {
    hide Encode;
    hide StoreAddress;
    hide StoredValue;
    hide Step;
    hide StoreValue;
    ghost var n := |a.code|;
    a.EmitAccess(i);
    assert a.code[n..] == [] + [Encode(i)];
    forall s: Machine | s.Running?
      ensures Stored(op, tmp, StoreAddress(roc, s1, tmp, s.regs), StoredValue(d, roc, s1, tmp, s.regs),
                     s, Run(a.code[n..], s))
    {
      RunAppend([], i, s);
      StoreDirect(op, d, roc, s1, tmp, i, s);
    }
  }

  /** Running ws stores d at the requested address, in every state of that byte order. */
  ghost predicate StoresRequested(ws: seq<Word>, op: StoreOp, d: Reg, roc: RegisterOrConstant, s1: Option<Reg>,
                                  tmp: Option<Reg>, little: bool) {
    forall s: Machine :: s.Running? && s.mem.little == little ==>
      Stored(op, tmp, Requested(roc, s1, s.regs), s.regs(d), s, Run(ws, s))
  }

  /** The constant goes through a temporary that is still needed as the value or as the base. */
  predicate TmpClash(d: Reg, roc: RegisterOrConstant, s1: Option<Reg>, tmp: Option<Reg>) {
    UsesTmp(roc, s1) && (tmp == Some(d) || (s1.Some? && s1 == tmp))
  }

  lemma {:induction false} Untouched(m: Mem, ea: int, n: nat, v: nat, a: U64)
    requires forall k | 0 <= k < n :: a != ByteAddress(ea, k)
    ensures WriteBytes(m, ea, n, v).at(a) == m.at(a)
    decreases n
  {
    hide ByteAddress;
    if n > 0 {
      forall k | 0 <= k < n - 1
        ensures a != ByteAddress(HighBytes(m, ea), k)
      {
        ShiftAddress(ea, k);
      }
      Untouched(m, HighBytes(m, ea), n - 1, v / 256, a);
    }
  }

  lemma UntouchedByStore(op: StoreOp, m: Mem, ea: U64, v: U64, a: U64)
    requires forall k | 0 <= k < StoreWidth(op) :: a != ByteAddress(ea, k)
    ensures StoreValue(op, m, ea, v).at(a) == m.at(a)
  {
    Untouched(m, ea, StoreWidth(op), v, a);
  }

  lemma LowByteStored(op: StoreOp, m: Mem, ea: U64, v: U64)
    ensures StoreValue(op, m, ea, v).at(LowByteAddress(m, ea, StoreWidth(op))) == v % 256
  {
  }

  /** Memory whose every byte differs from the lowest byte of v. */
  function Unlike(v: U64, little: bool): Mem {
    Mem((a: U64) => (v as int + 1) % 256, little)
  }

  lemma UnlikeOrder(v: U64, little: bool)
    ensures Unlike(v, little).little == little
  {
  }

  /** The base is overwritten: the store leaves the wrong byte at the wrong place. */
  lemma WrongPlace(op: StoreOp, c: int, v: U64, u: U64, little: bool)
    ensures StoreValue(op, Unlike(v, little), Wrap64(c + c), v)
         != StoreValue(op, Unlike(v, little), Wrap64(c + Wrap64(c + 0x100)), u)
  {
    hide Wrap64;
    hide ByteAddress;
    hide StoreValue;
    var m, w := Unlike(v, little), StoreWidth(op);
    var j := if little then 0 else w - 1;
    var low, right := ByteAddress(Wrap64(c + c), j), Wrap64(c + Wrap64(c + 0x100));
    LowByteStored(op, m, Wrap64(c + c), v);
    forall k | 0 <= k < w
      ensures low != ByteAddress(right, k)
    {
      FarApart(c, k, j);
    }
    UntouchedByStore(op, m, right, u, low);
    var p, q := StoreValue(op, m, Wrap64(c + c), v), StoreValue(op, m, right, u);
    assert p.at(low) != q.at(low);
  }

  lemma WrongBaseStored(ws: seq<Word>, op: StoreOp, d: Reg, roc: RegisterOrConstant, s1: Option<Reg>,
                        tmp: Option<Reg>, little: bool)
    requires Stores(ws, op, d, roc, s1, tmp) && UsesTmp(roc, s1) && s1.Some? && s1 == tmp
    ensures !StoresRequested(ws, op, d, roc, s1, tmp, little)
  {
    hide StoredValue;
    hide Unlike;
    hide Run;
    hide StoreValue;
    hide Wrap64;
    var f: Regs := (r: Reg) => Wrap64(roc.c + 0x100);
    var v := StoredValue(d, roc, s1, tmp, f);
    var s := Running(f, Unlike(v, little));
    UnlikeOrder(v, little);
    WrongPlace(op, roc.c, v, f(d), little);
    assert Stored(op, tmp, StoreAddress(roc, s1, tmp, s.regs), v, s, Run(ws, s));
    assert !Stored(op, tmp, Requested(roc, s1, s.regs), s.regs(d), s, Run(ws, s));
  }

  lemma OtherByte(v: U64)
    ensures (v as int + 1) % 256 % 256 != v % 256
  {
  }

  lemma WrongValueStored(ws: seq<Word>, op: StoreOp, d: Reg, roc: RegisterOrConstant, s1: Option<Reg>,
                         tmp: Option<Reg>, little: bool)
    requires Stores(ws, op, d, roc, s1, tmp) && UsesTmp(roc, s1) && tmp == Some(d) && s1 != tmp
    ensures !StoresRequested(ws, op, d, roc, s1, tmp, little)
  {
    hide Run;
    hide StoreValue;
    hide Wrap64;
    hide LowByteAddress;
    hide LeftOver;
    hide Requested;
    var v := Wrap64(roc.c - LeftOver(roc, s1));
    var f: Regs := (r: Reg) => (v as int + 1) % 256;
    var s := Running(f, Mem((a: U64) => 0, little));
    var ea := Requested(roc, s1, f);
    LowByteStored(op, s.mem, ea, v);
    LowByteStored(op, s.mem, ea, f(d));
    OtherByte(v);
    assert Stored(op, tmp, StoreAddress(roc, s1, tmp, s.regs), v, s, Run(ws, s));
    assert !Stored(op, tmp, Requested(roc, s1, s.regs), s.regs(d), s, Run(ws, s));
  }

  /** In either byte order, code that behaves as the stores do writes d to the requested address in
      every state exactly when a temporary that is used is neither d nor the base register. */
  lemma StoreExact(ws: seq<Word>, op: StoreOp, d: Reg, roc: RegisterOrConstant, s1: Option<Reg>, tmp: Option<Reg>,
                   little: bool)
    requires Stores(ws, op, d, roc, s1, tmp)
    ensures StoresRequested(ws, op, d, roc, s1, tmp, little) <==> !TmpClash(d, roc, s1, tmp)
  {
    hide Run;
    hide Requested;
    hide StoreValue;
    if TmpClash(d, roc, s1, tmp) {
      if s1 == tmp {
        WrongBaseStored(ws, op, d, roc, s1, tmp, little);
      } else {
        WrongValueStored(ws, op, d, roc, s1, tmp, little);
      }
    } else {
      forall s: Machine | s.Running? && s.mem.little == little
        ensures Stored(op, tmp, Requested(roc, s1, s.regs), s.regs(d), s, Run(ws, s))
      {
        assert Stored(op, tmp, StoreAddress(roc, s1, tmp, s.regs), StoredValue(d, roc, s1, tmp, s.regs),
                      s, Run(ws, s));
      }
    }
  }

  /** std, stw, sth and stb with a RegisterOrConstant operand. */
  method StoreRoc(a: Assembler, op: StoreOp, d: Reg, roc: RegisterOrConstant, s1: Option<Reg>, tmp: Option<Reg>)
    requires StoreAsserts(op, roc, s1, tmp)
    modifies a
    ensures old(a.code) <= a.code && |a.code| == |old(a.code)| + AccessSize(roc, s1)
    ensures Stores(a.code[|old(a.code)|..], op, d, roc, s1, tmp)
    ensures forall little ::
              StoresRequested(a.code[|old(a.code)|..], op, d, roc, s1, tmp, little) <==> !TmpClash(d, roc, s1, tmp)
  {
    hide Encode;
    hide Stores;
    hide StoresRequested;
    hide LoadsConstant;
    hide Chunk;
    ghost var n := |a.code|;
    if roc.Constant? {
      if s1.None? {
        var rest := a.LoadConstOptimized(tmp.value, roc.c, None, true);
        if StoreIsDs(op) { AlignedRest(roc.c, rest); }
        ghost var ws := a.code[n..];
        var i := Store(op, d, tmp.value, rest);
        StoreThroughRuns(ws, op, d, roc.c, rest, s1, tmp.value, i);
        a.EmitAccess(i);
        assert a.code[n..] == ws + [Encode(i)];
      } else if IsSimm16(roc.c) {
        StoreOne(a, op, d, roc, s1, tmp, Store(op, d, s1.value, roc.c));
      } else {
        var rest := a.LoadConstOptimized(tmp.value, roc.c, None, false);
        ghost var ws := a.code[n..];
        var i := StoreX(op, d, tmp.value, s1.value);
        StoreThroughRuns(ws, op, d, roc.c, rest, s1, tmp.value, i);
        a.EmitAccess(i);
        assert a.code[n..] == ws + [Encode(i)];
      }
    } else if s1.None? {
      StoreOne(a, op, d, roc, s1, tmp, Store(op, d, roc.r, 0));
    } else {
      StoreOne(a, op, d, roc, s1, tmp, StoreX(op, d, roc.r, s1.value));
    }
    StoreExact(a.code[n..], op, d, roc, s1, tmp, true);
    StoreExact(a.code[n..], op, d, roc, s1, tmp, false);
  }
}
