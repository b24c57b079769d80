/**
 The CRC of .gnu_debuglink: the table-driven computation, and the bit-serial CRC-32 of section 8
 of RFC 1952 that it has to agree with.
 */
module Crc {
  type Byte = bv8

  const POLY: bv32 := 0xEDB8_8320

  function Xor(a: bv32, b: bv32): bv32 { a ^ b }

  // ----- bit-serial definition -----

  function Half(c: bv32): bv32 { c >> 1 }

  /** The polynomial, when the bit about to leave the register is set. */
  function Tap(c: bv32): bv32 { if c & 1 == 1 then POLY else 0 }

  /** One step of the reflected shift register. */
  function Shift(c: bv32): bv32 { Xor(Half(c), Tap(c)) }

  function ShiftN(c: bv32, n: nat): bv32 {
    if n == 0 then c else Shift(ShiftN(c, n - 1))
  }

  function Halve(b: Byte, n: nat): Byte {
    if n == 0 then b else Halve(b, n - 1) >> 1
  }

  /** Bit n of a byte, 0 being the least significant and the first to be fed. */
  function Bit(b: Byte, n: nat): bv32 {
    if Halve(b, n) & 1 == 1 then 1 else 0
  }

  /** Feeds the first n bits of b: each meets the low end of the register before it moves. */
  function FeedBits(c: bv32, b: Byte, n: nat): bv32 {
    if n == 0 then c else Shift(Xor(FeedBits(c, b, n - 1), Bit(b, n - 1)))
  }

  function Feed(c: bv32, bytes: seq<Byte>): bv32 {
    if bytes == [] then c else FeedBits(Feed(c, bytes[..|bytes| - 1]), bytes[|bytes| - 1], 8)
  }

  function Invert(c: bv32): bv32 { !c }

  /** CRC-32 of a message: the register starts and ends inverted. */
  function Crc32(bytes: seq<Byte>): bv32 {
    Invert(Feed(Invert(0), bytes))
  }

  // ----- the shift register is linear -----

  lemma HalfLinear(a: bv32, b: bv32)
    ensures Half(Xor(a, b)) == Xor(Half(a), Half(b))
  {
  }

  lemma TapLinear(a: bv32, b: bv32)
    ensures Tap(Xor(a, b)) == Xor(Tap(a), Tap(b))
  {
  }

  lemma XorSwap(p: bv32, q: bv32, x: bv32, y: bv32)
    ensures Xor(Xor(p, q), Xor(x, y)) == Xor(Xor(p, x), Xor(q, y))
  {
    hide Xor;
    XorAssociates(p, q, Xor(x, y));
    XorAssociates(q, x, y);
    XorCommutes(q, x);
    XorAssociates(x, q, y);
    XorAssociates(p, x, Xor(q, y));
  }

  lemma XorCommutes(a: bv32, b: bv32)
    ensures Xor(a, b) == Xor(b, a)
  {
  }

  lemma ShiftLinear(a: bv32, b: bv32)
    ensures Shift(Xor(a, b)) == Xor(Shift(a), Shift(b))
  {
    hide Xor;
    hide Half;
    hide Tap;
    HalfLinear(a, b);
    TapLinear(a, b);
    XorSwap(Half(a), Half(b), Tap(a), Tap(b));
  }

  lemma {:induction false} ShiftNLinear(a: bv32, b: bv32, n: nat)
    ensures ShiftN(Xor(a, b), n) == Xor(ShiftN(a, n), ShiftN(b, n))
  {
    hide Shift;
    hide Xor;
    if n > 0 {
      ShiftNLinear(a, b, n - 1);
      ShiftLinear(ShiftN(a, n - 1), ShiftN(b, n - 1));
    }
  }

  lemma {:induction false} ShiftNFirst(c: bv32, n: nat)
    ensures ShiftN(Shift(c), n) == Shift(ShiftN(c, n))
  {
    hide Shift;
    if n > 0 { ShiftNFirst(c, n - 1); }
  }

  // ----- feeding eight bits is XOR-ing in a byte and shifting eight times -----

  function Double(v: bv32): bv32 { v << 1 }

  /** v << n, by single doublings */
  function Place(v: bv32, n: nat): bv32 {
    if n == 0 then v else Double(Place(v, n - 1))
  }

  /** The bits of b below n. */
  function LowBits(b: Byte, n: nat): bv32 {
    if n == 0 then 0 else Xor(LowBits(b, n - 1), Place(Bit(b, n - 1), n - 1))
  }

  lemma {:induction false} PlacePowers(n: nat)
    requires n <= 7
    ensures Place(0, n) == 0
    ensures n == 0 ==> Place(1, n) == 1
    ensures n == 1 ==> Place(1, n) == 2
    ensures n == 2 ==> Place(1, n) == 4
    ensures n == 3 ==> Place(1, n) == 8
    ensures n == 4 ==> Place(1, n) == 16
    ensures n == 5 ==> Place(1, n) == 32
    ensures n == 6 ==> Place(1, n) == 64
    ensures n == 7 ==> Place(1, n) == 128
  {
    if n > 0 { PlacePowers(n - 1); }
  }

  lemma DoubleShift(x: bv32)
    requires x & 0x8000_0000 == 0
    ensures Shift(Double(x)) == x
  {
  }

  lemma PlaceSmall(v: bv32, n: nat)
    requires n <= 7 && (v == 0 || v == 1)
    ensures Place(v, n) & 0x8000_0000 == 0
  {
    hide Place;
    PlacePowers(n);
  }

  /** A bit placed n positions up comes down to the low end in n steps. */
  lemma {:induction false} PlaceShift(v: bv32, n: nat)
    requires n <= 7 && (v == 0 || v == 1)
    ensures ShiftN(Place(v, n), n) == v
  {
    hide Shift;
    hide Double;
    if n > 0 {
      PlaceShift(v, n - 1);
      PlaceSmall(v, n - 1);
      DoubleShift(Place(v, n - 1));
      ShiftNFirst(Place(v, n), n - 1);
    }
  }

  lemma XorAssociates(a: bv32, b: bv32, c: bv32)
    ensures Xor(Xor(a, b), c) == Xor(a, Xor(b, c))
  {
  }

  lemma XorZero(a: bv32)
    ensures Xor(a, 0) == a && Xor(0, a) == a
  {
  }

  lemma {:induction false} FeedBitsAtOnce(c: bv32, b: Byte, n: nat)
    requires n <= 8
    ensures FeedBits(c, b, n) == ShiftN(Xor(c, LowBits(b, n)), n)
  {
    hide Shift;
    hide Xor;
    hide Place;
    if n == 0 {
      XorZero(c);
    } else {
      var x, y := Xor(c, LowBits(b, n - 1)), Place(Bit(b, n - 1), n - 1);
      FeedBitsAtOnce(c, b, n - 1);
      PlaceShift(Bit(b, n - 1), n - 1);
      ShiftNLinear(x, y, n - 1);
      XorAssociates(c, LowBits(b, n - 1), y);
    }
  }

  lemma HalveValues(b: Byte)
    ensures Halve(b, 0) == b && Halve(b, 1) == b >> 1 && Halve(b, 2) == b >> 2 && Halve(b, 3) == b >> 3
    ensures Halve(b, 4) == b >> 4 && Halve(b, 5) == b >> 5 && Halve(b, 6) == b >> 6 && Halve(b, 7) == b >> 7
  {
    assert Halve(b, 1) == b >> 1;
    assert Halve(b, 2) == Halve(b, 1) >> 1 == b >> 2;
    assert Halve(b, 3) == Halve(b, 2) >> 1 == b >> 3;
    assert Halve(b, 4) == Halve(b, 3) >> 1 == b >> 4;
    assert Halve(b, 5) == Halve(b, 4) >> 1 == b >> 5;
    assert Halve(b, 6) == Halve(b, 5) >> 1 == b >> 6;
  }

  lemma AddBit(b: Byte, n: nat)
    requires n < 8
    ensures LowBits(b, n + 1) == LowBits(b, n) ^ (if Halve(b, n) & 1 == 1 then Place(1, n) else 0)
  {
    PlacePowers(n);
  }

  lemma NoBits(b: Byte)
    ensures LowBits(b, 0) == 0
  {
  }

  lemma AllBits(b: Byte)
    ensures LowBits(b, 8) == b as bv32
  {
    hide LowBits;
    hide Place;
    hide Halve;
    HalveValues(b);
    PlacePowers(0); PlacePowers(1); PlacePowers(2); PlacePowers(3);
    PlacePowers(4); PlacePowers(5); PlacePowers(6); PlacePowers(7);
    AddBit(b, 0); AddBit(b, 1); AddBit(b, 2); AddBit(b, 3);
    AddBit(b, 4); AddBit(b, 5); AddBit(b, 6); AddBit(b, 7);
    NoBits(b);
  }

  lemma FeedByte(c: bv32, b: Byte)
    ensures FeedBits(c, b, 8) == ShiftN(Xor(c, b as bv32), 8)
  {
    hide FeedBits;
    hide ShiftN;
    hide LowBits;
    hide Xor;
    FeedBitsAtOnce(c, b, 8);
    AllBits(b);
  }

  // ----- the low byte decides what is XOR-ed in -----

  lemma EvenShift(c: bv32)
    requires c & 1 == 0
    ensures Shift(c) == c >> 1
  {
  }

  lemma MoveTwo(c: bv32)
    requires c & 3 == 0
    ensures ShiftN(c, 2) == c >> 2
  {
    hide Shift;
    EvenShift(c);
    EvenShift(c >> 1);
    assert ShiftN(c, 1) == Shift(ShiftN(c, 0));
  }

  lemma {:induction false} ShiftNAdd(c: bv32, m: nat, n: nat)
    ensures ShiftN(c, m + n) == ShiftN(ShiftN(c, m), n)
  {
    hide Shift;
    if n > 0 { ShiftNAdd(c, m, n - 1); }
  }

  lemma MoveFour(c: bv32)
    requires c & 15 == 0
    ensures ShiftN(c, 4) == c >> 4
  {
    hide ShiftN;
    ShiftNAdd(c, 2, 2);
    MoveTwo(c);
    MoveTwo(c >> 2);
  }

  /** A register whose low byte is clear just moves down by a byte. */
  lemma ClearByteMoves(c: bv32)
    requires c & 0xFF == 0
    ensures ShiftN(c, 8) == c >> 8
  {
    hide ShiftN;
    ShiftNAdd(c, 4, 4);
    MoveFour(c);
    MoveFour(c >> 4);
  }

  function LowByte(c: bv32): bv32 { c & 0xFF }
  function HighBytes(c: bv32): bv32 { c & 0xFFFF_FF00 }
  function Down8(c: bv32): bv32 { c >> 8 }

  lemma SplitByte(c: bv32)
    ensures Xor(LowByte(c), HighBytes(c)) == c
    ensures HighBytes(c) & 0xFF == 0 && Down8(HighBytes(c)) == Down8(c)
  {
  }

  lemma HighBytesMove(c: bv32)
    ensures ShiftN(HighBytes(c), 8) == Down8(c)
  {
    hide ShiftN;
    SplitByte(c);
    ClearByteMoves(HighBytes(c));
  }

  lemma LowByteDecides(c: bv32)
    ensures ShiftN(c, 8) == Xor(ShiftN(LowByte(c), 8), Down8(c))
  {
    hide ShiftN;
    hide Xor;
    hide LowByte;
    hide HighBytes;
    hide Down8;
    SplitByte(c);
    ShiftNLinear(LowByte(c), HighBytes(c), 8);
    HighBytesMove(c);
  }

  // ----- eight steps spelled out -----

  function Shift4(c: bv32): bv32 { Shift(Shift(Shift(Shift(c)))) }

  function Shift8(c: bv32): bv32 { Shift4(Shift4(c)) }

  lemma Shift8IsShiftN(c: bv32)
    ensures Shift8(c) == ShiftN(c, 8)
  {
    hide Shift;
    ShiftNAdd(c, 4, 4);
    FourSteps(c);
    FourSteps(Shift4(c));
  }

  lemma FourSteps(c: bv32)
    ensures Shift4(c) == ShiftN(c, 4)
  {
    hide Shift;
    assert ShiftN(c, 2) == Shift(ShiftN(c, 1)) == Shift(Shift(c));
    assert ShiftN(c, 4) == Shift(ShiftN(c, 3)) == Shift(Shift(ShiftN(c, 2)));
  }

  // ----- messages -----

  /** The checksum of more bytes, continuing from the checksum of what came before. */
  function Update(crc: bv32, bytes: seq<Byte>): bv32 {
    Invert(Feed(Invert(crc), bytes))
  }

  lemma {:induction false} FeedAppend(c: bv32, a: seq<Byte>, b: seq<Byte>)
    ensures Feed(c, a + b) == Feed(Feed(c, a), b)
    decreases |b|
  {
    hide FeedBits;
    if b == [] {
      assert a + b == a;
    } else {
      var b' := b[..|b| - 1];
      assert (a + b)[..|a + b| - 1] == a + b';
      FeedAppend(c, a, b');
    }
  }

  lemma InvertTwice(c: bv32)
    ensures Invert(Invert(c)) == c
  {
  }

  /** Checksumming in two pieces is checksumming the whole. */
  lemma UpdateAppend(crc: bv32, a: seq<Byte>, b: seq<Byte>)
    ensures Update(Update(crc, a), b) == Update(crc, a + b)
  {
    hide Feed;
    hide Invert;
    InvertTwice(Feed(Invert(crc), a));
    FeedAppend(Invert(crc), a, b);
  }

  // ----- no two different short bursts have the same checksum -----

  lemma ShiftInjective(c: bv32, d: bv32)
    requires Shift(c) == Shift(d)
    ensures c == d
  {
  }

  lemma {:induction false} ShiftNInjective(c: bv32, d: bv32, n: nat)
    requires ShiftN(c, n) == ShiftN(d, n)
    ensures c == d
  {
    hide Shift;
    if n > 0 {
      ShiftInjective(ShiftN(c, n - 1), ShiftN(d, n - 1));
      ShiftNInjective(c, d, n - 1);
    }
  }

  lemma XorCancel(c: bv32, a: bv32, b: bv32)
    requires Xor(c, a) == Xor(c, b)
    ensures a == b
  {
  }

  /** For a fixed byte the register after it determines the register before it. */
  lemma StepInjective(c: bv32, d: bv32, b: Byte)
    requires FeedBits(c, b, 8) == FeedBits(d, b, 8)
    ensures c == d
  {
    hide FeedBits;
    hide ShiftN;
    hide Xor;
    FeedByte(c, b);
    FeedByte(d, b);
    ShiftNInjective(Xor(c, b as bv32), Xor(d, b as bv32), 8);
    XorCommutes(c, b as bv32);
    XorCommutes(d, b as bv32);
    XorCancel(b as bv32, c, d);
  }

  lemma {:induction false} FeedInjective(c: bv32, d: bv32, bytes: seq<Byte>)
    requires Feed(c, bytes) == Feed(d, bytes)
    ensures c == d
  {
    hide FeedBits;
    if bytes != [] {
      var front := bytes[..|bytes| - 1];
      StepInjective(Feed(c, front), Feed(d, front), bytes[|bytes| - 1]);
      FeedInjective(c, d, front);
    }
  }

  // ----- messages as strings of bits -----

  function BitOf(b: bool): bv32 { if b then 1 else 0 }

  /** The first n bits of b in the order they are fed. */
  function BitsOf(b: Byte, n: nat): (bits: seq<bool>)
    ensures |bits| == n
  {
    if n == 0 then [] else BitsOf(b, n - 1) + [Bit(b, n - 1) == 1]
  }

  function Stream(bytes: seq<Byte>): (bits: seq<bool>)
    ensures |bits| == 8 * |bytes|
  {
    if bytes == [] then [] else Stream(bytes[..|bytes| - 1]) + BitsOf(bytes[|bytes| - 1], 8)
  }

  function FeedString(c: bv32, bits: seq<bool>): bv32
    decreases |bits|
  {
    if bits == [] then c else FeedString(Shift(Xor(c, BitOf(bits[0]))), bits[1..])
  }

  lemma {:induction false} StringAppend(c: bv32, a: seq<bool>, b: seq<bool>)
    ensures FeedString(c, a + b) == FeedString(FeedString(c, a), b)
    decreases |a|
  {
    hide Shift;
    hide Xor;
    if a == [] {
      assert a + b == b;
    } else {
      assert (a + b)[1..] == a[1..] + b;
      StringAppend(Shift(Xor(c, BitOf(a[0]))), a[1..], b);
    }
  }

  lemma {:induction false} FeedBitsString(c: bv32, b: Byte, n: nat)
    ensures FeedBits(c, b, n) == FeedString(c, BitsOf(b, n))
  {
    hide Shift;
    hide Xor;
    hide Halve;
    if n > 0 {
      FeedBitsString(c, b, n - 1);
      StringAppend(c, BitsOf(b, n - 1), [Bit(b, n - 1) == 1]);
    }
  }

  lemma {:induction false} FeedStream(c: bv32, bytes: seq<Byte>)
    ensures Feed(c, bytes) == FeedString(c, Stream(bytes))
  {
    hide FeedBits;
    hide BitsOf;
    if bytes != [] {
      var n := |bytes| - 1;
      FeedStream(c, bytes[..n]);
      FeedBitsString(Feed(c, bytes[..n]), bytes[n], 8);
      StringAppend(c, Stream(bytes[..n]), BitsOf(bytes[n], 8));
    }
  }

  lemma {:induction false} StringInjective(c: bv32, d: bv32, bits: seq<bool>)
    requires FeedString(c, bits) == FeedString(d, bits)
    ensures c == d
    decreases |bits|
  {
    hide Shift;
    hide Xor;
    if bits != [] {
      var b := BitOf(bits[0]);
      StringInjective(Shift(Xor(c, b)), Shift(Xor(d, b)), bits[1..]);
      ShiftInjective(Xor(c, b), Xor(d, b));
      XorCommutes(c, b);
      XorCommutes(d, b);
      XorCancel(b, c, d);
    }
  }

  // ----- up to 32 bits at once -----

  /** The bits as a number, the first one lowest. */
  function PackBits(bits: seq<bool>): bv32 {
    if bits == [] then 0 else Xor(BitOf(bits[0]), Double(PackBits(bits[1..])))
  }

  function AddOne(v: bv32): bv32 { Double(v) | 1 }

  /** The largest number of m bits. */
  function Mask(m: nat): bv32 {
    if m == 0 then 0 else AddOne(Mask(m - 1))
  }

  predicate AtMost(a: bv32, b: bv32) { a <= b }

  lemma {:induction false} MaskLow(m: nat)
    requires m <= 10
    ensures m == 0 ==> Mask(m) == 0x0
    ensures m == 1 ==> Mask(m) == 0x1
    ensures m == 2 ==> Mask(m) == 0x3
    ensures m == 3 ==> Mask(m) == 0x7
    ensures m == 4 ==> Mask(m) == 0xF
    ensures m == 5 ==> Mask(m) == 0x1F
    ensures m == 6 ==> Mask(m) == 0x3F
    ensures m == 7 ==> Mask(m) == 0x7F
    ensures m == 8 ==> Mask(m) == 0xFF
    ensures m == 9 ==> Mask(m) == 0x1FF
    ensures m == 10 ==> Mask(m) == 0x3FF
  {
    if m > 0 { MaskLow(m - 1); }
  }

  lemma {:induction false} MaskMiddle(m: nat)
    requires 10 <= m <= 21
    ensures m == 10 ==> Mask(m) == 0x3FF
    ensures m == 11 ==> Mask(m) == 0x7FF
    ensures m == 12 ==> Mask(m) == 0xFFF
    ensures m == 13 ==> Mask(m) == 0x1FFF
    ensures m == 14 ==> Mask(m) == 0x3FFF
    ensures m == 15 ==> Mask(m) == 0x7FFF
    ensures m == 16 ==> Mask(m) == 0xFFFF
    ensures m == 17 ==> Mask(m) == 0x1FFFF
    ensures m == 18 ==> Mask(m) == 0x3FFFF
    ensures m == 19 ==> Mask(m) == 0x7FFFF
    ensures m == 20 ==> Mask(m) == 0xFFFFF
    ensures m == 21 ==> Mask(m) == 0x1FFFFF
  {
    if m > 10 { MaskMiddle(m - 1); } else { MaskLow(m); }
  }

  lemma {:induction false} MaskHigh(m: nat)
    requires 21 <= m <= 31
    ensures m == 21 ==> Mask(m) == 0x1FFFFF
    ensures m == 22 ==> Mask(m) == 0x3FFFFF
    ensures m == 23 ==> Mask(m) == 0x7FFFFF
    ensures m == 24 ==> Mask(m) == 0xFFFFFF
    ensures m == 25 ==> Mask(m) == 0x1FFFFFF
    ensures m == 26 ==> Mask(m) == 0x3FFFFFF
    ensures m == 27 ==> Mask(m) == 0x7FFFFFF
    ensures m == 28 ==> Mask(m) == 0xFFFFFFF
    ensures m == 29 ==> Mask(m) == 0x1FFFFFFF
    ensures m == 30 ==> Mask(m) == 0x3FFFFFFF
    ensures m == 31 ==> Mask(m) == 0x7FFFFFFF
  {
    if m > 21 { MaskHigh(m - 1); } else { MaskMiddle(m); }
  }

  lemma MaskSmall(m: nat)
    requires m <= 31
    ensures AtMost(Mask(m), 0x7FFF_FFFF)
  {
    hide Mask;
    if m <= 10 { MaskLow(m); } else if m <= 21 { MaskMiddle(m); } else { MaskHigh(m); }
  }

  lemma AppendBound(y: bv32, max: bv32, b: bool)
    requires AtMost(y, max) && AtMost(max, 0x7FFF_FFFF)
    ensures AtMost(Xor(BitOf(b), Double(y)), AddOne(max)) && AtMost(y, 0x7FFF_FFFF)
  {
  }

  lemma NoBitsBound()
    ensures AtMost(PackBits([]), Mask(0))
  {
  }

  lemma {:induction false} PackBound(bits: seq<bool>)
    requires |bits| <= 32
    ensures AtMost(PackBits(bits), Mask(|bits|))
  {
    hide Xor;
    hide Double;
    hide AddOne;
    hide BitOf;
    hide AtMost;
    if bits == [] {
      NoBitsBound();
    } else {
      PackBound(bits[1..]);
      MaskSmall(|bits| - 1);
      AppendBound(PackBits(bits[1..]), Mask(|bits| - 1), bits[0]);
    }
  }

  /** The top bit stays clear as long as there are at most 31. */
  lemma PackTopClear(bits: seq<bool>)
    requires |bits| <= 31
    ensures AtMost(PackBits(bits), 0x7FFF_FFFF)
  {
    hide PackBits;
    hide Mask;
    hide AtMost;
    PackBound(bits);
    MaskSmall(|bits|);
    AppendBound(PackBits(bits), Mask(|bits|), false);
  }

  lemma ShiftDoubled(y: bv32)
    requires AtMost(y, 0x7FFF_FFFF)
    ensures Shift(Double(y)) == y
  {
  }

  /** Feeding up to 32 bits is adding them in as one number and shifting that often. */
  lemma {:induction false} FeedPacked(c: bv32, bits: seq<bool>)
    requires |bits| <= 32
    ensures FeedString(c, bits) == ShiftN(Xor(c, PackBits(bits)), |bits|)
    decreases |bits|
  {
    hide Shift;
    hide Xor;
    hide Double;
    hide AtMost;
    if bits == [] {
      XorZero(c);
    } else {
      var b, rest := BitOf(bits[0]), bits[1..];
      var x, y := Xor(c, b), PackBits(rest);
      FeedPacked(Shift(x), rest);
      PackTopClear(rest);
      ShiftDoubled(y);
      ShiftLinear(x, Double(y));
      XorAssociates(c, b, Double(y));
      ShiftNFirst(Xor(x, Double(y)), |rest|);
    }
  }

  lemma SplitLowest(y: bv32, z: bv32, a: bool, b: bool)
    requires AtMost(y, 0x7FFF_FFFF) && AtMost(z, 0x7FFF_FFFF)
    requires Xor(BitOf(a), Double(y)) == Xor(BitOf(b), Double(z))
    ensures a == b && y == z
  {
  }

  lemma {:induction false} PackInjective(u: seq<bool>, v: seq<bool>)
    requires |u| == |v| <= 32 && PackBits(u) == PackBits(v)
    ensures u == v
    decreases |u|
  {
    hide Xor;
    hide Double;
    hide AtMost;
    hide BitOf;
    if u != [] {
      PackTopClear(u[1..]);
      PackTopClear(v[1..]);
      SplitLowest(PackBits(u[1..]), PackBits(v[1..]), u[0], v[0]);
      PackInjective(u[1..], v[1..]);
      assert u == [u[0]] + u[1..] && v == [v[0]] + v[1..];
    }
  }

  /** Two messages that differ only inside 32 consecutive bits, wherever these lie and whatever
      follows, never have the same checksum. */
  lemma BurstDetected(crc: bv32, a: seq<Byte>, b: seq<Byte>, p: seq<bool>, u: seq<bool>, v: seq<bool>, s: seq<bool>)
    requires Stream(a) == p + u + s && Stream(b) == p + v + s && |u| == |v| <= 32 && u != v
    ensures Update(crc, a) != Update(crc, b)
  {
    hide Feed;
    hide FeedString;
    hide Xor;
    hide ShiftN;
    hide PackBits;
    hide Stream;
    hide Invert;
    var c := Invert(crc);
    FeedStream(c, a);
    FeedStream(c, b);
    StringAppend(c, p + u, s);
    StringAppend(c, p + v, s);
    StringAppend(c, p, u);
    StringAppend(c, p, v);
    if Update(crc, a) == Update(crc, b) {
      var d := FeedString(c, p);
      InvertTwice(Feed(c, a));
      InvertTwice(Feed(c, b));
      StringInjective(FeedString(d, u), FeedString(d, v), s);
      FeedPacked(d, u);
      FeedPacked(d, v);
      ShiftNInjective(Xor(d, PackBits(u)), Xor(d, PackBits(v)), |u|);
      XorCancel(d, PackBits(u), PackBits(v));
      PackInjective(u, v);
    }
  }

  // ----- bursts of whole bytes -----

  lemma {:induction false} SameLowBits(a: Byte, b: Byte, n: nat)
    requires BitsOf(a, n) == BitsOf(b, n)
    ensures LowBits(a, n) == LowBits(b, n)
  {
    hide Xor;
    hide Place;
    hide Halve;
    if n > 0 {
      assert BitsOf(a, n)[..n - 1] == BitsOf(a, n - 1) && BitsOf(b, n)[..n - 1] == BitsOf(b, n - 1);
      SameLowBits(a, b, n - 1);
      assert BitsOf(a, n)[n - 1] == BitsOf(b, n)[n - 1];
    }
  }

  lemma SameByte(a: Byte, b: Byte)
    requires BitsOf(a, 8) == BitsOf(b, 8)
    ensures a == b
  {
    hide BitsOf;
    hide LowBits;
    SameLowBits(a, b, 8);
    AllBits(a);
    AllBits(b);
  }

  lemma {:induction false} StreamInjective(a: seq<Byte>, b: seq<Byte>)
    requires |a| == |b| && Stream(a) == Stream(b)
    ensures a == b
  {
    hide BitsOf;
    if a != [] {
      var n := |a| - 1;
      assert Stream(a)[..8 * n] == Stream(a[..n]) && Stream(b)[..8 * n] == Stream(b[..n]);
      assert Stream(a)[8 * n..] == BitsOf(a[n], 8) && Stream(b)[8 * n..] == BitsOf(b[n], 8);
      StreamInjective(a[..n], b[..n]);
      SameByte(a[n], b[n]);
      assert a == a[..n] + [a[n]] && b == b[..n] + [b[n]];
    }
  }

  lemma {:induction false} StreamAppend(a: seq<Byte>, b: seq<Byte>)
    ensures Stream(a + b) == Stream(a) + Stream(b)
    decreases |b|
  {
    hide BitsOf;
    if b == [] {
      assert a + b == a;
    } else {
      var n := |b| - 1;
      assert (a + b)[..|a| + n] == a + b[..n];
      StreamAppend(a, b[..n]);
    }
  }

  /** In particular when they differ only inside four consecutive bytes. */
  lemma BytesDetected(crc: bv32, p: seq<Byte>, u: seq<Byte>, v: seq<Byte>, s: seq<Byte>)
    requires |u| == |v| <= 4 && u != v
    ensures Update(crc, p + u + s) != Update(crc, p + v + s)
  {
    hide Stream;
    hide Update;
    StreamAppend(p + u, s);
    StreamAppend(p, u);
    StreamAppend(p + v, s);
    StreamAppend(p, v);
    if Stream(u) == Stream(v) { StreamInjective(u, v); }
    BurstDetected(crc, p + u + s, p + v + s, Stream(p), Stream(u), Stream(v), Stream(s));
  }
}
