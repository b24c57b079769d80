/**
 The logical instructions of the processor model bit by bit, as the Power ISA describes them: bits
 are numbered from 0, the most significant, to 63 there, and from the other end here.
 */
module PpcRotates {
  import opened Bits
  import opened PpcIsa

  /** Bit k of x, 0 being the least significant. */
  predicate Bit(x: int, k: nat) { Shr(x, k) % 2 == 1 }

  /** MASK(b, e) of the Power ISA: the bits from b to e, around the end when e comes before b. */
  predicate InMask(b: Index6, e: Index6, p: Index6) {
    if b <= e then b <= p <= e else p >= b || p <= e
  }

  lemma OrBit(a: nat, b: nat, k: nat)
    ensures Bit(Or(a, b), k) <==> Bit(a, k) || Bit(b, k)
  {
    OrFields(a, b, k);
  }

  lemma AndNotBit(a: nat, b: nat, k: nat)
    ensures Bit(AndNot(a, b), k) <==> Bit(a, k) && !Bit(b, k)
  {
    AndNotFields(a, b, k);
  }

  lemma {:induction false} LowBit(x: int, n: nat, k: nat)
    ensures Bit(Low(x, n), k) <==> k < n && Bit(x, k)
    decreases n
  {
    if n == 0 {
      ShrNonNegative(0, k);
    } else if k > 0 {
      LowStep(x, n);
      LowBit(x / 2, n - 1, k - 1);
    }
  }

  /** Bits of a number put together from a high and a low part. */
  lemma PartBit(q: int, r: nat, n: nat, k: nat)
    requires r < Pow2(n)
    ensures Bit(Shl(q, n) + r, k) <==> if k < n then Bit(r, k) else Bit(q, k - n)
  {
    SplitUnique(q, r, n);
    if k < n {
      LowBit(Shl(q, n) + r, n, k);
    } else {
      ShrAdd(Shl(q, n) + r, n, k - n);
    }
  }

  lemma ShrBit(x: int, n: nat, k: nat)
    ensures Bit(Shr(x, n), k) <==> Bit(x, n + k)
  {
    ShrAdd(x, n, k);
  }

  lemma WrapBit(x: int, k: nat)
    ensures Bit(Wrap64(x), k) <==> k < 64 && Bit(x, k)
  {
    Pow2Values();
    At(x, 64, 0x1_0000_0000_0000_0000);
    LowBit(x, 64, k);
  }

  lemma RotlBit(x: U64, n: Index6, k: Index6)
    ensures Bit(Rotl64(x, n), k) <==> Bit(x, (k - n) % 64)
  {
    hide Bit;
    hide Wrap64;
    Pow2Values();
    var r := Shr(x, 64 - n);
    WrapBit(Shl(x, n) + r, k);
    ShrBound(x, 64, 64 - n);
    PartBit(x, r, n, k);
    if k < n { ShrBit(x, 64 - n, k); }
  }

  /** From bit lo up to bit hi the bits of v, elsewhere those of u. */
  lemma MergeBit(u: U64, v: U64, hi: nat, lo: nat, k: nat)
    requires lo <= hi
    ensures Bit(Shl(Shr(u, hi), hi) + Shl(Shr(Low(v, hi), lo), lo) + Low(u, lo), k)
            <==> if lo <= k < hi then Bit(v, k) else Bit(u, k)
  {
    hide Bit;
    hide Shl;
    hide Shr;
    hide Low;
    hide Pow2;
    var mid := Shr(Low(v, hi), lo);
    var r := Shl(mid, lo) + Low(u, lo);
    ShrBound(Low(v, hi), hi, lo);
    PartsBound(mid, Low(u, lo), hi - lo, lo);
    PartBit(Shr(u, hi), r, hi, k);
    if k >= hi {
      ShrBit(u, hi, k - hi);
    } else {
      PartBit(mid, Low(u, lo), lo, k);
      if k >= lo { ShrBit(Low(v, hi), lo, k - lo); }
      LowBit(v, hi, k);
      LowBit(u, lo, k);
    }
  }

  lemma PartsBound(q: nat, r: nat, n: nat, k: nat)
    requires q < Pow2(n) && r < Pow2(k)
    ensures 0 <= Shl(q, k) + r < Pow2(n + k)
  {
    ShlNonNegative(q, k);
    ShlPlus(q, 1, k);
    ShlPow2(0, k);
    ShlPow2(n, k);
    if q + 1 < Pow2(n) { ShlMonotone(q + 1, Pow2(n), k); }
  }

  /** ori and oris: the bits of either operand. */
  lemma OriBits(v: U64, ui: Uimm16, k: Index6)
    ensures Bit(ArithValue(Ori(R0, R0, ui), (r: Reg) => v), k) <==> Bit(v, k) || Bit(ui, k)
    ensures Bit(ArithValue(Oris(R0, R0, ui), (r: Reg) => v), k) <==> Bit(v, k) || (k >= 16 && Bit(ui, k - 16))
  {
    hide Bit;
    hide Wrap64;
    hide Or;
    Pow2Values();
    WrapBit(Or(v, ui), k);
    WrapBit(Or(v, 0x1_0000 * ui), k);
    OrBit(v, ui, k);
    OrBit(v, 0x1_0000 * ui, k);
    At(ui, 16, 0x1_0000);
    PartBit(ui, 0, 16, k);
    if k < 16 { LowBit(1, 0, k); }
  }

  /** rldicr: rotated left by sh, and bits 0 to me, counted from the top, kept. */
  lemma RldicrBits(v: U64, sh: Index6, me: Index6, k: Index6)
    ensures Bit(Wrap64(KeepHigh(Rotl64(v, sh), me)), k) <==> InMask(0, me, 63 - k) && Bit(v, (k - sh) % 64)
  {
    hide Bit;
    hide Wrap64;
    hide Rotl64;
    var x := Rotl64(v, sh);
    WrapBit(KeepHigh(x, me), k);
    RotlBit(v, sh, k);
    PartBit(Shr(x, 63 - me), 0, 63 - me, k);
    if k < 63 - me { LowBit(1, 0, k); } else { ShrBit(x, 63 - me, k - (63 - me)); }
  }

  /** rldimi: bits mb to 63 - sh, counted from the top, come from the rotated source and all others
      stay. */
  lemma RldimiBits(v: U64, y: U64, sh: Index6, mb: Index6, k: Index6)
    ensures Bit(Wrap64(InsertMasked(Rotl64(v, sh), y, sh, mb)), k)
            <==> if InMask(mb, 63 - sh, 63 - k) then Bit(v, (k - sh) % 64) else Bit(y, k)
  {
    hide Bit;
    hide Wrap64;
    hide Rotl64;
    var x := Rotl64(v, sh);
    WrapBit(InsertMasked(x, y, sh, mb), k);
    RotlBit(v, sh, k);
    if mb <= 63 - sh { MergeBit(y, x, 64 - mb, sh, k); } else { MergeBit(x, y, sh, 64 - mb, k); }
  }
}
