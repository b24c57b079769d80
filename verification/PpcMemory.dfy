/**
 What the processor's stores leave in memory, byte by byte in either byte order, and what its loads
 make of it: widths, sign extension and the round trip between the two.
 */
module PpcMemory {
  import opened Bits
  import opened PpcFields
  import opened PpcIsa

  lemma ApartAddresses(ea: int, j: int, k: int)
    requires 0 <= j <= 8 && 0 <= k <= 8 && j != k
    ensures ByteAddress(ea, j) != ByteAddress(ea, k)
  {
  }

  /** Byte j of v, the lowest being byte 0. */
  function ByteOf(v: nat, j: nat): int { Shr(v, 8 * j) % 256 }

  lemma ByteOfRest(v: nat, j: nat)
    ensures ByteOf(v / 256, j) == ByteOf(v, j + 1) && ByteOf(v, 0) == v % 256
  {
    Pow2Values();
    At(v, 8, 256);
    ShrAdd(v, 8, 8 * j);
  }

  lemma WriteStep(m: Mem, ea: int, n: nat, v: nat, a: U64)
    requires n > 0
    ensures WriteBytes(m, ea, n, v).at(a)
         == if a == LowByteAddress(m, ea, n) then v % 256 else WriteBytes(m, HighBytes(m, ea), n - 1, v / 256).at(a)
  {
  }

  /** Memory at the k-th address of a store holds byte k of the number when the byte order is little,
      and byte n - 1 - k when it is big. */
  lemma {:induction false} StoredByte(m: Mem, ea: int, n: nat, v: nat, k: nat)
    requires k < n <= 8
    ensures WriteBytes(m, ea, n, v).at(ByteAddress(ea, k)) == ByteOf(v, if m.little then k else n - 1 - k)
    decreases n
  {
    hide ByteAddress;
    hide ByteOf;
    hide WriteBytes;
    WriteStep(m, ea, n, v, ByteAddress(ea, k));
    var low := if m.little then 0 else n - 1;
    ByteOfRest(v, 0);
    if k != low {
      ApartAddresses(ea, k, low);
      if m.little {
        ShiftAddress(ea, k - 1);
        StoredByte(m, ea + 1, n - 1, v / 256, k - 1);
        ByteOfRest(v, k - 1);
      } else {
        StoredByte(m, ea, n - 1, v / 256, k);
        ByteOfRest(v, n - 2 - k);
      }
    }
  }

  /** A store of n bytes changes no byte but those at its n addresses. */
  lemma {:induction false} StoreElsewhere(m: Mem, ea: int, n: nat, v: nat, a: U64)
    requires forall k | 0 <= k < n :: a != ByteAddress(ea, k)
    ensures WriteBytes(m, ea, n, v).at(a) == m.at(a)
    decreases n
  {
    hide ByteAddress;
    if n > 0 {
      assert a != LowByteAddress(m, ea, n);
      forall k | 0 <= k < n - 1
        ensures a != ByteAddress(HighBytes(m, ea), k)
      {
        ShiftAddress(ea, k);
      }
      StoreElsewhere(m, HighBytes(m, ea), n - 1, v / 256, a);
    }
  }

  lemma {:induction false} OrderKept(m: Mem, ea: int, n: nat, v: nat)
    ensures WriteBytes(m, ea, n, v).little == m.little
    decreases n
  {
  }

  lemma {:induction false} SameBytes(m: Mem, m': Mem, ea: int, n: nat)
    requires m.little == m'.little && forall k | 0 <= k < n :: m.at(ByteAddress(ea, k)) == m'.at(ByteAddress(ea, k))
    ensures ReadBytes(m, ea, n) == ReadBytes(m', ea, n)
    decreases n
  {
    hide ByteAddress;
    if n > 0 {
      forall k | 0 <= k < n - 1
        ensures m.at(ByteAddress(HighBytes(m, ea), k)) == m'.at(ByteAddress(HighBytes(m, ea), k))
      {
        ShiftAddress(ea, k);
      }
      SameBytes(m, m', HighBytes(m, ea), n - 1);
    }
  }

  lemma Reassembled(v: nat, p: nat)
    requires p > 0
    ensures 256 * (v / 256 % p) + v % 256 == v % (256 * p)
  {
    var q, r := v / 256 / p, v / 256 % p;
    assert v / 256 == q * p + r;
    assert v == q * (256 * p) + (256 * r + v % 256);
    QuotientUnique(v, 256 * p, q, 256 * r + v % 256);
  }

  lemma ReadStep(m: Mem, ea: int, n: nat)
    requires n > 0
    ensures ReadBytes(m, ea, n) == 256 * ReadBytes(m, HighBytes(m, ea), n - 1) + m.at(LowByteAddress(m, ea, n))
  {
  }

  lemma ReadNothing(m: Mem, ea: int)
    ensures ReadBytes(m, ea, 0) == 0 && Pow2(8 * 0) == 1
  {
  }

  lemma BytePower(n: nat)
    requires n > 0
    ensures Pow2(8 * n) == 256 * Pow2(8 * (n - 1))
  {
    Pow2Values();
    Pow2Sum(8, 8 * (n - 1));
  }

  /** Reading n bytes back where v was written gives v modulo 2^(8n), in either byte order. */
  lemma {:induction false} ReadWritten(m: Mem, ea: int, n: nat, v: nat)
    requires n <= 8
    ensures ReadBytes(WriteBytes(m, ea, n, v), ea, n) == v % Pow2(8 * n)
    decreases n
  {
    hide ByteAddress;
    hide Pow2;
    hide ReadBytes;
    hide WriteBytes;
    if n == 0 {
      ReadNothing(WriteBytes(m, ea, n, v), ea);
    } else {
      var w, e := WriteBytes(m, ea, n, v), HighBytes(m, ea);
      var high := WriteBytes(m, e, n - 1, v / 256);
      OrderKept(m, ea, n, v);
      OrderKept(m, e, n - 1, v / 256);
      forall k | 0 <= k < n - 1
        ensures w.at(ByteAddress(e, k)) == high.at(ByteAddress(e, k))
      {
        ShiftAddress(ea, k);
        ApartAddresses(ea, if m.little then k + 1 else k, if m.little then 0 else n - 1);
        WriteStep(m, ea, n, v, ByteAddress(e, k));
      }
      SameBytes(w, high, e, n - 1);
      ReadWritten(m, e, n - 1, v / 256);
      WriteStep(m, ea, n, v, LowByteAddress(m, ea, n));
      ReadStep(w, ea, n);
      BytePower(n);
      Reassembled(v, Pow2(8 * (n - 1)));
    }
  }

  /** A load of the width of the store before it, at the same address. */
  lemma LoadAfterStore(load: LoadOp, store: StoreOp, m: Mem, ea: U64, v: U64)
    requires LoadWidth(load) == StoreWidth(store)
    ensures var x := LoadValue(load, StoreValue(store, m, ea, v), ea);
            match load
            case LD => store.STD? && x == v
            case LWZ => store.STW? && x == v % 0x1_0000_0000
            case LWA => store.STW? && x == v % 0x1_0000_0000
                          + (if v % 0x1_0000_0000 >= 0x8000_0000 then 0xFFFF_FFFF_0000_0000 else 0)
            case LHZ => store.STH? && x == v % 0x1_0000
            case LHA => store.STH? && x == v % 0x1_0000
                          + (if v % 0x1_0000 >= 0x8000 then 0xFFFF_FFFF_FFFF_0000 else 0)
            case LBZ => store.STB? && x == v % 0x100
  {
    hide WriteBytes;
    hide ReadBytes;
    hide Pow2;
    Pow2Values();
    ReadWritten(m, ea, StoreWidth(store), v);
  }
}
