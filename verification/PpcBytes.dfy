/**
 Reading and writing unaligned 2-, 4- and 8-byte numbers (bytes_ppc.hpp), in the little-endian
 and in the big-endian build.  The machine only loads and stores at addresses that are a
 multiple of the access size, so each accessor dispatches on the alignment of its address and
 assembles the number from the widest aligned pieces.  The meaning of a number in memory is
 byte-wise: Value for reading, Digit for writing.
 */
module PpcBytes {
  import opened Bits

  datatype Order = Little | Big

  function LowByte(x: int): Byte {
    Pow2Values();
    Low(x, 8)
  }

  /** The number that bytes at ascending addresses stand for. */
  function Value(o: Order, b: seq<Byte>): (v: nat)
    ensures v < Pow2(8 * |b|)
    decreases |b|
  {
    if b == [] then 0
    else
      var n := |b| - 1;
      var hi := if o.Little? then Value(o, b[1..]) else Value(o, b[..n]);
      Pow2Values();
      ShiftInBound(hi, n, if o.Little? then b[0] else b[n]);
      Shl(hi, 8) + if o.Little? then b[0] else b[n]
  }

  lemma ShiftInBound(hi: nat, n: nat, b: nat)
    requires hi < Pow2(8 * n) && b < Pow2(8)
    ensures 0 <= Shl(hi, 8) && Shl(hi, 8) + b < Pow2(8 * (n + 1))
  {
    hide Pow2;
    Pow2Values();
    At(hi, 8, 256);
    Pow2Sum(8 * n, 8);
    assert 8 * (n + 1) == 8 * n + 8;
  }

  /** Byte i of the n bytes that hold x. */
  function Digit(o: Order, x: nat, n: nat, i: nat): Byte
    requires i < n
  {
    LowByte(Shr(x, 8 * (if o.Little? then i else n - 1 - i)))
  }

  function Digits(o: Order, x: nat, n: nat): (b: seq<Byte>)
    ensures |b| == n
  {
    seq(n, i requires 0 <= i < n => Digit(o, x, n, i))
  }

  /** Exactly the n bytes at p changed, and they hold x. */
  predicate Stored(o: Order, before: seq<Byte>, after: seq<Byte>, p: nat, n: nat, x: nat)
    requires p + n <= |before|
  {
    && |after| == |before|
    && (forall i | 0 <= i < n :: after[p + i] == Digit(o, x, n, i))
    && forall i | 0 <= i < |before| && !(p <= i < p + n) :: after[i] == before[i]
  }

  /** The k bytes from byte i on of an n-byte number, as a number. */
  function Part(o: Order, x: nat, n: nat, k: nat, i: nat): (r: nat)
    requires i + k <= n
    ensures r < Pow2(8 * k)
  {
    Low(Shr(x, 8 * (if o.Little? then i else n - k - i)), 8 * k)
  }

  // Round trips between numbers and bytes

  /** Byte i of x is byte i, or i - 1 in the little-endian order, of x >> 8. */
  lemma DigitBelow(o: Order, x: nat, n: nat, i: nat)
    requires i < n
    ensures 0 <= Shr(x, 8)
    ensures Digit(o, Shr(x, 8), n, i) == Digit(o, x, n + 1, if o.Little? then i + 1 else i)
  {
    hide LowByte;
    ShrNonNegative(x, 8);
    ShrAdd(x, 8, 8 * (if o.Little? then i else n - 1 - i));
  }

  lemma DigitsStep(o: Order, x: nat, n: nat)
    ensures 0 <= Shr(x, 8)
    ensures o.Little? ==> Digits(o, x, n + 1) == [LowByte(x)] + Digits(o, Shr(x, 8), n)
    ensures o.Big? ==> Digits(o, x, n + 1) == Digits(o, Shr(x, 8), n) + [LowByte(x)]
  {
    ShrNonNegative(x, 8);
    forall i: nat | i < n {
      DigitBelow(o, x, n, i);
    }
    var b := Digits(o, x, n + 1);
    assert Digits(o, Shr(x, 8), n) == if o.Little? then b[1..] else b[..n] by {
      hide Digit;
    }
  }

  lemma {:induction false} ValueOfDigits(o: Order, x: nat, n: nat)
    requires x < Pow2(8 * n)
    ensures Value(o, Digits(o, x, n)) == x
    decreases n
  {
    hide Digits;
    if n > 0 {
      hide Shr;
      hide Low;
      hide Shl;
      var b, y := Digits(o, x, n), Shr(x, 8);
      ShrBound(x, 8 * n, 8);
      ValueOfDigits(o, y, n - 1);
      DigitsStep(o, x, n - 1);
      assert Digits(o, y, n - 1) == if o.Little? then b[1..] else b[..n - 1];
      Split(x, 8);
    }
  }

  lemma {:induction false} DigitsOfValue(o: Order, b: seq<Byte>)
    ensures Digits(o, Value(o, b), |b|) == b
    decreases |b|
  {
    hide Digits;
    hide Pow2;
    if b != [] {
      hide Shr;
      hide Low;
      hide Shl;
      var n := |b| - 1;
      var rest := if o.Little? then b[1..] else b[..n];
      DigitsOfValue(o, rest);
      Pow2Values();
      SplitUnique(Value(o, rest), if o.Little? then b[0] else b[n], 8);
      DigitsStep(o, Value(o, b), n);
    }
  }

  /** The bytes of a part are bytes of the whole. */
  lemma DigitOfPart(o: Order, x: nat, n: nat, k: nat, i: nat, j: nat)
    requires i + k <= n && j < k
    ensures Digit(o, Part(o, x, n, k, i), k, j) == Digit(o, x, n, i + j)
  {
    var s := 8 * (if o.Little? then i else n - k - i);
    var t := 8 * (if o.Little? then j else k - 1 - j);
    LowShr(Shr(x, s), t, 8);
    LowShr(Low(Shr(x, s), 8 * k), t, 8);
    LowOfLow(Shr(x, s), t + 8, 8 * k);
    ShrAdd(x, s, t);
  }

  // What a store means to later loads

  /** A number read where it was written. */
  lemma GetAfterPut(o: Order, before: seq<Byte>, after: seq<Byte>, p: nat, n: nat, x: nat)
    requires p + n <= |before| && x < Pow2(8 * n)
    requires Stored(o, before, after, p, n, x)
    ensures Value(o, after[p..p + n]) == x
  {
    hide Digit;
    hide Value;
    assert after[p..p + n] == Digits(o, x, n);
    ValueOfDigits(o, x, n);
  }

  /** Any shorter load inside a number that was written sees that part of the number. */
  lemma NarrowGet(o: Order, before: seq<Byte>, after: seq<Byte>, p: nat, n: nat, x: nat, k: nat, i: nat)
    requires p + n <= |before| && i + k <= n
    requires Stored(o, before, after, p, n, x)
    ensures Value(o, after[p + i..p + i + k]) == Part(o, x, n, k, i)
  {
    hide Digit;
    hide Value;
    hide Part;
    var part := Part(o, x, n, k, i);
    forall j: nat | j < k
      ensures after[p + i..p + i + k][j] == Digit(o, part, k, j)
    {
      DigitOfPart(o, x, n, k, i, j);
      assert after[p + (i + j)] == Digit(o, x, n, i + j);
    }
    assert after[p + i..p + i + k] == Digits(o, part, k);
    ValueOfDigits(o, part, k);
  }

  /** Writing back what is there changes nothing. */
  lemma PutBack(o: Order, before: seq<Byte>, after: seq<Byte>, p: nat, n: nat)
    requires p + n <= |before|
    requires Stored(o, before, after, p, n, Value(o, before[p..p + n]))
    ensures after == before
  {
    hide Digit;
    hide Value;
    var b := before[p..p + n];
    DigitsOfValue(o, b);
    forall i | p <= i < p + n
      ensures after[i] == before[i]
    {
      assert after[p + (i - p)] == Digit(o, Value(o, b), n, i - p) == Digits(o, Value(o, b), n)[i - p];
      assert b[i - p] == before[i];
    }
  }

  // Byte reversal

  /** swap_u2, swap_u4 and swap_u8 of the little-endian build: the bytes of x in reverse. */
  function Reverse(x: nat, n: nat): (r: nat)
    ensures r < Pow2(8 * n)
  {
    Value(Big, Digits(Little, x, n))
  }

  lemma {:induction false} ReadBackwards(b: seq<Byte>, c: seq<Byte>)
    requires |b| == |c| && forall i | 0 <= i < |b| :: c[i] == b[|b| - 1 - i]
    ensures Value(Big, c) == Value(Little, b)
  {
    if b != [] { ReadBackwards(b[1..], c[..|b| - 1]); }
  }

  lemma ReverseValue(b: seq<Byte>)
    ensures Reverse(Value(Little, b), |b|) == Value(Big, b)
  {
    DigitsOfValue(Little, b);
  }

  lemma DigitsOfReverse(x: nat, n: nat)
    requires x < Pow2(8 * n)
    ensures Digits(Little, Reverse(x, n), n) == Digits(Big, x, n)
  {
    hide Value;
    hide Digit;
    forall i | 0 <= i < n
      ensures Digits(Little, x, n)[i] == Digits(Big, x, n)[n - 1 - i]
    {
      Mirrored(x, n, i);
    }
    ReadBackwards(Digits(Big, x, n), Digits(Little, x, n));
    DigitsOfValue(Little, Digits(Big, x, n));
  }

  lemma Mirrored(x: nat, n: nat, i: nat)
    requires i < n
    ensures Digit(Little, x, n, i) == Digit(Big, x, n, n - 1 - i)
  {
  }

  /** Storing the reversed number in one order is storing the number in the other. */
  lemma StoredReversed(before: seq<Byte>, after: seq<Byte>, p: nat, n: nat, x: nat)
    requires p + n <= |before| && x < Pow2(8 * n)
    ensures Stored(Little, before, after, p, n, Reverse(x, n)) <==> Stored(Big, before, after, p, n, x)
  {
    hide Digit;
    hide Reverse;
    DigitsOfReverse(x, n);
    forall i | 0 <= i < n
      ensures Digit(Little, Reverse(x, n), n, i) == Digit(Big, x, n, i)
    {
      assert Digits(Little, Reverse(x, n), n)[i] == Digits(Big, x, n)[i];
    }
  }

  /** Reversing twice is the identity on n-byte numbers. */
  lemma ReverseTwice(x: nat, n: nat)
    requires x < Pow2(8 * n)
    ensures Reverse(Reverse(x, n), n) == x
  {
    hide Value;
    DigitsOfReverse(x, n);
    ValueOfDigits(Big, x, n);
  }

  // Loads

  type U2 = x: nat | x < 0x1_0000
  type U4 = x: nat | x < 0x1_0000_0000
  type U8 = x: nat | x < 0x1_0000_0000_0000_0000

  predicate Aligned(p: nat, n: nat) {
    n > 0 && p % n == 0
  }

  lemma AlignedPieces(p: nat)
    ensures p % 8 == 4 ==> Aligned(p, 4) && Aligned(p + 4, 4)
    ensures p % 2 == 0 ==> Aligned(p, 2) && Aligned(p + 2, 2) && Aligned(p + 4, 2) && Aligned(p + 6, 2)
    ensures p % 8 == 2 || p % 4 == 2 ==> p % 2 == 0
  {
  }

  /** The machine's own load: only at a multiple of its size. */
  function Load(o: Order, m: array<Byte>, p: nat, n: nat): (r: nat)
    requires Aligned(p, n) && p + n <= m.Length
    reads m
  {
    Value(o, m[p..p + n])
  }

  /** Two pieces of w bits at ascending addresses, shifted into place and OR-ed. */
  function Join2(o: Order, a: nat, b: nat, w: nat): nat {
    ShlNonNegative(a, w);
    ShlNonNegative(b, w);
    if o.Big? then Or(Shl(a, w), b) else Or(Shl(b, w), a)
  }

  /** Four pieces of w bits, most significant first, above the k lowest bits. */
  function Chain4(a: nat, b: nat, c: nat, d: nat, w: nat, k: nat): nat {
    ShlNonNegative(a, 3 * w + k);
    ShlNonNegative(b, 2 * w + k);
    ShlNonNegative(c, w + k);
    ShlNonNegative(d, k);
    Or(Or(Or(Shl(a, 3 * w + k), Shl(b, 2 * w + k)), Shl(c, w + k)), Shl(d, k))
  }

  function Chain8(a: nat, b: nat, c: nat, d: nat, e: nat, f: nat, g: nat, h: nat): nat {
    ShlNonNegative(e, 24);
    ShlNonNegative(f, 16);
    ShlNonNegative(g, 8);
    Or(Or(Or(Or(Chain4(a, b, c, d, 8, 32), Shl(e, 24)), Shl(f, 16)), Shl(g, 8)), h)
  }

  function Join4(o: Order, a: nat, b: nat, c: nat, d: nat, w: nat): nat {
    if o.Big? then Chain4(a, b, c, d, w, 0) else Chain4(d, c, b, a, w, 0)
  }

  function Join8(o: Order, a: nat, b: nat, c: nat, d: nat, e: nat, f: nat, g: nat, h: nat): nat {
    if o.Big? then Chain8(a, b, c, d, e, f, g, h) else Chain8(h, g, f, e, d, c, b, a)
  }

  /** A number with one more piece of w bits below it. */
  function Append(a: nat, b: nat, w: nat): nat {
    ShlNonNegative(a, w);
    Shl(a, w) + b
  }

  lemma OrNext(a: nat, b: nat, w: nat, k: nat)
    requires b < Pow2(w)
    ensures Shl(a, w + k) >= 0 && Shl(b, k) >= 0
    ensures Or(Shl(a, w + k), Shl(b, k)) == Shl(Append(a, b, w), k)
  {
    hide Or;
    hide Shl;
    ShlNonNegative(a, w + k);
    ShlNonNegative(b, k);
    ShlAdd(a, w, k);
    ShlNonNegative(a, w);
    OrSplit(Shl(a, w), 0, b, 0, k);
    OrZero(0);
    OrDisjoint(a, b, w);
  }

  /** The OR of shifted pieces is the number they make up when appended one by one. */
  lemma ChainValue(a: nat, b: nat, c: nat, d: nat, w: nat, k: nat)
    requires b < Pow2(w) && c < Pow2(w) && d < Pow2(w)
    ensures Chain4(a, b, c, d, w, k) == Shl(Append(Append(Append(a, b, w), c, w), d, w), k)
  {
    hide Or;
    hide Shl;
    hide Append;
    OrNext(a, b, w, 2 * w + k);
    OrNext(Append(a, b, w), c, w, w + k);
    OrNext(Append(Append(a, b, w), c, w), d, w, k);
  }

  lemma Chain8Value(a: Byte, b: Byte, c: Byte, d: Byte, e: Byte, f: Byte, g: Byte, h: Byte)
    ensures Chain8(a, b, c, d, e, f, g, h)
         == Append(Append(Append(Append(Append(Append(Append(a, b, 8), c, 8), d, 8), e, 8), f, 8), g, 8), h, 8)
  {
    hide Or;
    hide Shl;
    hide Append;
    hide Pow2;
    Pow2Values();
    ChainValue(a, b, c, d, 8, 32);
    var abcd := Append(Append(Append(a, b, 8), c, 8), d, 8);
    OrNext(abcd, e, 8, 24);
    OrNext(Append(abcd, e, 8), f, 8, 16);
    OrNext(Append(Append(abcd, e, 8), f, 8), g, 8, 8);
    OrNext(Append(Append(Append(abcd, e, 8), f, 8), g, 8), h, 8, 0);
    ShlZero(h);
    ShlZero(Append(Append(Append(Append(abcd, e, 8), f, 8), g, 8), h, 8));
  }

  lemma ShlZero(h: int)
    ensures Shl(h, 0) == h
  {
  }

  lemma AppendAppend(a: nat, b: nat, c: nat, w: nat)
    ensures Append(Append(a, b, w), c, 8) == Append(a, Append(b, c, 8), w + 8)
  {
    hide Shl;
    ShlNonNegative(a, w);
    ShlPlus(Shl(a, w), b, 8);
    ShlAdd(a, w, 8);
  }

  /** Adjacent byte ranges make up a number whose pieces are their numbers. */
  lemma {:induction false} Concatenated(o: Order, a: seq<Byte>, b: seq<Byte>)
    ensures o.Big? ==> Value(o, a + b) == Append(Value(o, a), Value(o, b), 8 * |b|)
    ensures o.Little? ==> Value(o, a + b) == Append(Value(o, b), Value(o, a), 8 * |a|)
    decreases if o.Big? then |b| else |a|
  {
    if o.Big? {
      if b == [] {
        assert a + b == a;
      } else {
        var n := |b| - 1;
        assert (a + b)[..|a| + n] == a + b[..n];
        Concatenated(o, a, b[..n]);
        AppendAppend(Value(o, a), Value(o, b[..n]), b[n], 8 * n);
      }
    } else {
      if a == [] {
        assert a + b == b;
      } else {
        assert (a + b)[1..] == a[1..] + b;
        Concatenated(o, a[1..], b);
        AppendAppend(Value(o, b), Value(o, a[1..]), a[0], 8 * (|a| - 1));
      }
    }
  }

  lemma Pieces2(o: Order, a: seq<Byte>, b: seq<Byte>)
    requires |a| == |b|
    ensures Join2(o, Value(o, a), Value(o, b), 8 * |a|) == Value(o, a + b)
  {
    hide Or;
    hide Shl;
    hide Value;
    Concatenated(o, a, b);
    OrDisjoint(Value(o, a), Value(o, b), 8 * |a|);
    OrDisjoint(Value(o, b), Value(o, a), 8 * |a|);
  }

  lemma Pieces4(o: Order, a: seq<Byte>, b: seq<Byte>, c: seq<Byte>, d: seq<Byte>)
    requires |a| == |b| == |c| == |d|
    ensures Join4(o, Value(o, a), Value(o, b), Value(o, c), Value(o, d), 8 * |a|) == Value(o, a + b + c + d)
  {
    hide Or;
    hide Shl;
    hide Value;
    hide Append;
    hide Chain4;
    var w, p, q, r, s := 8 * |a|, Value(o, a), Value(o, b), Value(o, c), Value(o, d);
    if o.Big? {
      ChainValue(p, q, r, s, w, 0);
      ShlZero(Append(Append(Append(p, q, w), r, w), s, w));
      Concatenated(o, a, b);
      Concatenated(o, a + b, c);
      Concatenated(o, a + b + c, d);
    } else {
      ChainValue(s, r, q, p, w, 0);
      ShlZero(Append(Append(Append(s, r, w), q, w), p, w));
      Concatenated(o, c, d);
      Concatenated(o, b, c + d);
      Concatenated(o, a, b + (c + d));
      assert a + (b + (c + d)) == a + b + c + d;
    }
  }

  lemma OneByte(o: Order, b: Byte)
    ensures Value(o, [b]) == b
  {
    ShlNonNegative(0, 8);
  }

  /** One more byte below a number: after it in the big-endian order, before it otherwise. */
  lemma NextByte(o: Order, s: seq<Byte>, b: Byte, t: seq<Byte>)
    requires t == if o.Big? then s + [b] else [b] + s
    ensures Value(o, t) == Append(Value(o, s), b, 8)
  {
    OneByte(o, b);
    if o.Big? { Concatenated(o, s, [b]); } else { Concatenated(o, [b], s); }
  }

  lemma Pieces8(o: Order, a: Byte, b: Byte, c: Byte, d: Byte, e: Byte, f: Byte, g: Byte, h: Byte)
    ensures Join8(o, a, b, c, d, e, f, g, h) == Value(o, [a, b, c, d, e, f, g, h])
  {
    hide Value;
    hide Append;
    hide Chain8;
    if o.Big? {
      Chain8Value(a, b, c, d, e, f, g, h);
      OneByte(o, a);
      NextByte(o, [a], b, [a, b]);
      NextByte(o, [a, b], c, [a, b, c]);
      NextByte(o, [a, b, c], d, [a, b, c, d]);
      NextByte(o, [a, b, c, d], e, [a, b, c, d, e]);
      NextByte(o, [a, b, c, d, e], f, [a, b, c, d, e, f]);
      NextByte(o, [a, b, c, d, e, f], g, [a, b, c, d, e, f, g]);
      NextByte(o, [a, b, c, d, e, f, g], h, [a, b, c, d, e, f, g, h]);
    } else {
      Chain8Value(h, g, f, e, d, c, b, a);
      OneByte(o, h);
      NextByte(o, [h], g, [g, h]);
      NextByte(o, [g, h], f, [f, g, h]);
      NextByte(o, [f, g, h], e, [e, f, g, h]);
      NextByte(o, [e, f, g, h], d, [d, e, f, g, h]);
      NextByte(o, [d, e, f, g, h], c, [c, d, e, f, g, h]);
      NextByte(o, [c, d, e, f, g, h], b, [b, c, d, e, f, g, h]);
      NextByte(o, [b, c, d, e, f, g, h], a, [a, b, c, d, e, f, g, h]);
    }
  }

  lemma Bytes2(o: Order, s: seq<Byte>, p: nat)
    requires p + 2 <= |s|
    ensures Join2(o, s[p], s[p + 1], 8) == Value(o, s[p..p + 2])
  {
    hide Value;
    hide Join2;
    OneByte(o, s[p]);
    OneByte(o, s[p + 1]);
    Pieces2(o, [s[p]], [s[p + 1]]);
    assert s[p..p + 2] == [s[p]] + [s[p + 1]];
  }

  lemma Bytes4(o: Order, s: seq<Byte>, p: nat)
    requires p + 4 <= |s|
    ensures Join4(o, s[p], s[p + 1], s[p + 2], s[p + 3], 8) == Value(o, s[p..p + 4])
  {
    hide Value;
    hide Join4;
    OneByte(o, s[p]);
    OneByte(o, s[p + 1]);
    OneByte(o, s[p + 2]);
    OneByte(o, s[p + 3]);
    Pieces4(o, [s[p]], [s[p + 1]], [s[p + 2]], [s[p + 3]]);
    assert s[p..p + 4] == [s[p]] + [s[p + 1]] + [s[p + 2]] + [s[p + 3]];
  }

  lemma Halves(o: Order, s: seq<Byte>, p: nat, n: nat)
    requires p + 2 * n <= |s|
    ensures Join2(o, Value(o, s[p..p + n]), Value(o, s[p + n..p + 2 * n]), 8 * n) == Value(o, s[p..p + 2 * n])
  {
    hide Value;
    hide Join2;
    Pieces2(o, s[p..p + n], s[p + n..p + 2 * n]);
    assert s[p..p + 2 * n] == s[p..p + n] + s[p + n..p + 2 * n];
  }

  lemma Quarters(o: Order, s: seq<Byte>, p: nat)
    requires p + 8 <= |s|
    ensures Join4(o, Value(o, s[p..p + 2]), Value(o, s[p + 2..p + 4]),
                  Value(o, s[p + 4..p + 6]), Value(o, s[p + 6..p + 8]), 16) == Value(o, s[p..p + 8])
  {
    hide Value;
    hide Join4;
    Pieces4(o, s[p..p + 2], s[p + 2..p + 4], s[p + 4..p + 6], s[p + 6..p + 8]);
    assert s[p..p + 8] == s[p..p + 2] + s[p + 2..p + 4] + s[p + 4..p + 6] + s[p + 6..p + 8];
  }

  lemma Bytes8(o: Order, s: seq<Byte>, p: nat)
    requires p + 8 <= |s|
    ensures Join8(o, s[p], s[p + 1], s[p + 2], s[p + 3], s[p + 4], s[p + 5], s[p + 6], s[p + 7])
         == Value(o, s[p..p + 8])
  {
    hide Value;
    hide Join8;
    Pieces8(o, s[p], s[p + 1], s[p + 2], s[p + 3], s[p + 4], s[p + 5], s[p + 6], s[p + 7]);
    assert s[p..p + 8] == [s[p], s[p + 1], s[p + 2], s[p + 3], s[p + 4], s[p + 5], s[p + 6], s[p + 7]];
  }

  // The accessors: any address, but every machine access is aligned

  function GetNativeU2(o: Order, m: array<Byte>, p: nat): nat
    requires p + 2 <= m.Length
    reads m
  {
    if p % 2 == 0 then Load(o, m, p, 2) else Join2(o, m[p], m[p + 1], 8)
  }

  function GetNativeU4(o: Order, m: array<Byte>, p: nat): nat
    requires p + 4 <= m.Length
    reads m
  {
    AlignedPieces(p);
    if p % 4 == 0 then Load(o, m, p, 4)
    else if p % 4 == 2 then Join2(o, Load(o, m, p, 2), Load(o, m, p + 2, 2), 16)
    else Join4(o, m[p], m[p + 1], m[p + 2], m[p + 3], 8)
  }

  function GetNativeU8(o: Order, m: array<Byte>, p: nat): nat
    requires p + 8 <= m.Length
    reads m
  {
    AlignedPieces(p);
    if p % 8 == 0 then Load(o, m, p, 8)
    else if p % 8 == 4 then Join2(o, Load(o, m, p, 4), Load(o, m, p + 4, 4), 32)
    else if p % 8 == 2 then
      Join4(o, Load(o, m, p, 2), Load(o, m, p + 2, 2), Load(o, m, p + 4, 2), Load(o, m, p + 6, 2), 16)
    else Join8(o, m[p], m[p + 1], m[p + 2], m[p + 3], m[p + 4], m[p + 5], m[p + 6], m[p + 7])
  }

  /** At every alignment the result is the byte-wise value. */
  lemma GetU2Value(o: Order, m: array<Byte>, p: nat)
    requires p + 2 <= m.Length
    ensures GetNativeU2(o, m, p) == Value(o, m[p..p + 2]) < 0x1_0000
  {
    hide Value;
    hide Join2;
    hide Pow2;
    Pow2Values();
    Bytes2(o, m[..], p);
    assert m[..][p..p + 2] == m[p..p + 2];
  }

  lemma GetU4Value(o: Order, m: array<Byte>, p: nat)
    requires p + 4 <= m.Length
    ensures GetNativeU4(o, m, p) == Value(o, m[p..p + 4]) < 0x1_0000_0000
  {
    hide Value;
    hide Join2;
    hide Join4;
    hide Pow2;
    Pow2Values();
    Halves(o, m[..], p, 2);
    Bytes4(o, m[..], p);
    assert m[..][p..p + 2] == m[p..p + 2] && m[..][p + 2..p + 4] == m[p + 2..p + 4];
    assert m[..][p..p + 4] == m[p..p + 4];
  }

  lemma GetU8Value(o: Order, m: array<Byte>, p: nat)
    requires p + 8 <= m.Length
    ensures GetNativeU8(o, m, p) == Value(o, m[p..p + 8]) < 0x1_0000_0000_0000_0000
  {
    hide Value;
    hide Join2;
    hide Join4;
    hide Join8;
    hide Pow2;
    Pow2Values();
    assert m[..][p..p + 8] == m[p..p + 8];
    if p % 8 == 4 {
      Halves(o, m[..], p, 4);
      assert m[..][p..p + 4] == m[p..p + 4] && m[..][p + 4..p + 8] == m[p + 4..p + 8];
    } else if p % 8 == 2 {
      Quarters(o, m[..], p);
      assert m[..][p..p + 2] == m[p..p + 2] && m[..][p + 2..p + 4] == m[p + 2..p + 4];
      assert m[..][p + 4..p + 6] == m[p + 4..p + 6] && m[..][p + 6..p + 8] == m[p + 6..p + 8];
    } else if p % 8 != 0 {
      Bytes8(o, m[..], p);
    }
  }

  /** The machine's own store: only at a multiple of its size. */
  method Store(o: Order, m: array<Byte>, p: nat, n: nat, x: nat)
    requires Aligned(p, n) && p + n <= m.Length
    modifies m
    ensures Stored(o, old(m[..]), m[..], p, n, x)
  {
    for i := 0 to n
      invariant forall j | 0 <= j < i :: m[p + j] == Digit(o, x, n, j)
      invariant forall j | 0 <= j < m.Length && !(p <= j < p + i) :: m[j] == old(m[j])
    {
      hide Digit;
      m[p + i] := Digit(o, x, n, i);
    }
  }

  /** Bytes i to i + k of the n bytes at p became those of x, and nothing else changed. */
  predicate PartStored(o: Order, before: seq<Byte>, after: seq<Byte>, p: nat, n: nat, x: nat, k: nat, i: nat)
    requires p + n <= |before| && i + k <= n
  {
    && |after| == |before|
    && (forall j | 0 <= j < n :: after[p + j] == if i <= j < i + k then Digit(o, x, n, j) else before[p + j])
    && forall j | 0 <= j < |before| && !(p <= j < p + n) :: after[j] == before[j]
  }

  lemma StoredPart(o: Order, before: seq<Byte>, after: seq<Byte>, p: nat, n: nat, x: nat, k: nat, i: nat)
    requires p + n <= |before| && i + k <= n
    requires Stored(o, before, after, p + i, k, Part(o, x, n, k, i))
    ensures PartStored(o, before, after, p, n, x, k, i)
  {
    hide Digit;
    hide Part;
    var y := Part(o, x, n, k, i);
    forall j | 0 <= j < n
      ensures after[p + j] == if i <= j < i + k then Digit(o, x, n, j) else before[p + j]
    {
      if i <= j < i + k {
        DigitOfPart(o, x, n, k, i, j - i);
        assert after[p + i + (j - i)] == Digit(o, y, k, j - i);
      }
    }
  }

  /** The piece of k bytes that C's conversion of x >> s keeps. */
  function Piece(x: nat, s: nat, k: nat): (r: nat) {
    Low(Shr(x, s), 8 * k)
  }

  /** Stores piece i of x, which the source writes as a shift by s. */
  method StorePiece(o: Order, m: array<Byte>, p: nat, n: nat, x: nat, k: nat, i: nat, s: nat)
    requires i + k <= n && p + n <= m.Length && Aligned(p + i, k)
    requires s == 8 * if o.Little? then i else n - k - i
    modifies m
    ensures PartStored(o, old(m[..]), m[..], p, n, x, k, i)
  {
    hide PartStored;
    hide Stored;
    Store(o, m, p + i, k, Piece(x, s, k));
    StoredPart(o, old(m[..]), m[..], p, n, x, k, i);
  }

  method PutNativeU2(o: Order, m: array<Byte>, p: nat, x: U2)
    requires p + 2 <= m.Length
    modifies m
    ensures Stored(o, old(m[..]), m[..], p, 2, x)
  {
    hide Digit;
    if p % 2 == 0 {
      Store(o, m, p, 2, x);
    } else if o.Little? {
      StorePiece(o, m, p, 2, x, 1, 1, 8);
      StorePiece(o, m, p, 2, x, 1, 0, 0);
    } else {
      StorePiece(o, m, p, 2, x, 1, 0, 8);
      StorePiece(o, m, p, 2, x, 1, 1, 0);
    }
  }

  method PutNativeU4(o: Order, m: array<Byte>, p: nat, x: U4)
    requires p + 4 <= m.Length
    modifies m
    ensures Stored(o, old(m[..]), m[..], p, 4, x)
  {
    hide Digit;
    AlignedPieces(p);
    if p % 4 == 0 {
      Store(o, m, p, 4, x);
    } else if p % 4 == 2 {
      if o.Little? {
        StorePiece(o, m, p, 4, x, 2, 2, 16);
        StorePiece(o, m, p, 4, x, 2, 0, 0);
      } else {
        StorePiece(o, m, p, 4, x, 2, 0, 16);
        StorePiece(o, m, p, 4, x, 2, 2, 0);
      }
    } else {
      if o.Little? {
        StorePiece(o, m, p, 4, x, 1, 3, 24);
        StorePiece(o, m, p, 4, x, 1, 2, 16);
        StorePiece(o, m, p, 4, x, 1, 1, 8);
        StorePiece(o, m, p, 4, x, 1, 0, 0);
      } else {
        StorePiece(o, m, p, 4, x, 1, 0, 24);
        StorePiece(o, m, p, 4, x, 1, 1, 16);
        StorePiece(o, m, p, 4, x, 1, 2, 8);
        StorePiece(o, m, p, 4, x, 1, 3, 0);
      }
    }
  }

  method PutNativeU8(o: Order, m: array<Byte>, p: nat, x: U8)
    requires p + 8 <= m.Length
    modifies m
    ensures Stored(o, old(m[..]), m[..], p, 8, x)
  {
    hide Digit;
    AlignedPieces(p);
    if p % 8 == 0 {
      Store(o, m, p, 8, x);
    } else if p % 8 == 4 {
      if o.Little? {
        StorePiece(o, m, p, 8, x, 4, 4, 32);
        StorePiece(o, m, p, 8, x, 4, 0, 0);
      } else {
        StorePiece(o, m, p, 8, x, 4, 0, 32);
        StorePiece(o, m, p, 8, x, 4, 4, 0);
      }
    } else if p % 8 == 2 {
      if o.Little? {
        StorePiece(o, m, p, 8, x, 2, 6, 48);
        StorePiece(o, m, p, 8, x, 2, 4, 32);
        StorePiece(o, m, p, 8, x, 2, 2, 16);
        StorePiece(o, m, p, 8, x, 2, 0, 0);
      } else {
        StorePiece(o, m, p, 8, x, 2, 0, 48);
        StorePiece(o, m, p, 8, x, 2, 2, 32);
        StorePiece(o, m, p, 8, x, 2, 4, 16);
        StorePiece(o, m, p, 8, x, 2, 6, 0);
      }
    } else {
      if o.Little? {
        StorePiece(o, m, p, 8, x, 1, 7, 56);
        StorePiece(o, m, p, 8, x, 1, 6, 48);
        StorePiece(o, m, p, 8, x, 1, 5, 40);
        StorePiece(o, m, p, 8, x, 1, 4, 32);
        StorePiece(o, m, p, 8, x, 1, 3, 24);
        StorePiece(o, m, p, 8, x, 1, 2, 16);
        StorePiece(o, m, p, 8, x, 1, 1, 8);
        StorePiece(o, m, p, 8, x, 1, 0, 0);
      } else {
        StorePiece(o, m, p, 8, x, 1, 0, 56);
        StorePiece(o, m, p, 8, x, 1, 1, 48);
        StorePiece(o, m, p, 8, x, 1, 2, 40);
        StorePiece(o, m, p, 8, x, 1, 3, 32);
        StorePiece(o, m, p, 8, x, 1, 4, 24);
        StorePiece(o, m, p, 8, x, 1, 5, 16);
        StorePiece(o, m, p, 8, x, 1, 6, 8);
        StorePiece(o, m, p, 8, x, 1, 7, 0);
      }
    }
  }

  // Java's byte order: big-endian in both builds

  function Swap(o: Order, x: nat, n: nat): nat {
    if o.Little? then Reverse(x, n) else x
  }

  function GetJavaU2(o: Order, m: array<Byte>, p: nat): nat
    requires p + 2 <= m.Length
    reads m
  {
    Swap(o, GetNativeU2(o, m, p), 2)
  }

  lemma JavaU2Value(o: Order, m: array<Byte>, p: nat)
    requires p + 2 <= m.Length
    ensures GetJavaU2(o, m, p) == Value(Big, m[p..p + 2])
  {
    hide Value;
    hide Reverse;
    hide GetNativeU2;
    GetU2Value(o, m, p);
    ReverseValue(m[p..p + 2]);
  }

  function GetJavaU4(o: Order, m: array<Byte>, p: nat): nat
    requires p + 4 <= m.Length
    reads m
  {
    Swap(o, GetNativeU4(o, m, p), 4)
  }

  lemma JavaU4Value(o: Order, m: array<Byte>, p: nat)
    requires p + 4 <= m.Length
    ensures GetJavaU4(o, m, p) == Value(Big, m[p..p + 4])
  {
    hide Value;
    hide Reverse;
    hide GetNativeU4;
    GetU4Value(o, m, p);
    ReverseValue(m[p..p + 4]);
  }

  function GetJavaU8(o: Order, m: array<Byte>, p: nat): nat
    requires p + 8 <= m.Length
    reads m
  {
    Swap(o, GetNativeU8(o, m, p), 8)
  }

  lemma JavaU8Value(o: Order, m: array<Byte>, p: nat)
    requires p + 8 <= m.Length
    ensures GetJavaU8(o, m, p) == Value(Big, m[p..p + 8])
  {
    hide Value;
    hide Reverse;
    hide GetNativeU8;
    GetU8Value(o, m, p);
    ReverseValue(m[p..p + 8]);
  }

  method PutJavaU2(o: Order, m: array<Byte>, p: nat, x: U2)
    requires p + 2 <= m.Length
    modifies m
    ensures Stored(Big, old(m[..]), m[..], p, 2, x)
  {
    hide Reverse;
    hide Stored;
    hide Pow2;
    Pow2Values();
    PutNativeU2(o, m, p, Swap(o, x, 2));
    StoredReversed(old(m[..]), m[..], p, 2, x);
  }

  method PutJavaU4(o: Order, m: array<Byte>, p: nat, x: U4)
    requires p + 4 <= m.Length
    modifies m
    ensures Stored(Big, old(m[..]), m[..], p, 4, x)
  {
    hide Reverse;
    hide Stored;
    hide Pow2;
    Pow2Values();
    PutNativeU4(o, m, p, Swap(o, x, 4));
    StoredReversed(old(m[..]), m[..], p, 4, x);
  }

  method PutJavaU8(o: Order, m: array<Byte>, p: nat, x: U8)
    requires p + 8 <= m.Length
    modifies m
    ensures Stored(Big, old(m[..]), m[..], p, 8, x)
  {
    hide Reverse;
    hide Stored;
    hide Pow2;
    Pow2Values();
    PutNativeU8(o, m, p, Swap(o, x, 8));
    StoredReversed(old(m[..]), m[..], p, 8, x);
  }
}
