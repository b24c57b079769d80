/**
 Reading memory of a live process one machine word at a time, for ranges of any alignment.
 */
module PsProc {
  import opened Bits

  /** sizeof(long) */
  const WORD := 8

  /** The bytes of a long in memory order. */
  type Long = w: seq<Byte> | |w| == WORD witness [0, 0, 0, 0, 0, 0, 0, 0]

  /** What PTRACE_PEEKDATA can read: words by their address.  Other addresses give an error. */
  type Target = map<nat, Long>

  /** align: ptr & ~(size - 1) */
  function Align(ptr: U64): nat { AndNot(ptr, WORD - 1) }

  lemma AlignRoundsDown(ptr: U64)
    ensures Align(ptr) == ptr - ptr % WORD
  {
    Pow2Values();
    AndNotFields(ptr, 7, 3);
    At(ptr, 3, 8);
    At(7, 3, 8);
    At(-1, 3, 8);
    AndNotZero(ptr / 8);
    AndNotOnes(ptr % 8, 3);
    Split(AndNot(ptr, 7), 3);
    At(ptr / 8, 3, 8);
  }

  function WordOf(a: nat): nat { a - a % WORD }

  function MemByte(t: Target, a: nat): Byte
    requires WordOf(a) in t
  {
    t[WordOf(a)][a % WORD]
  }

  /** The bytes are those of the target from addr on. */
  ghost predicate Copies(t: Target, addr: nat, bytes: seq<Byte>) {
    forall x | addr <= x < addr + |bytes| :: WordOf(x) in t && bytes[x - addr] == MemByte(t, x)
  }

  /** The words to look at: all that overlap the range, and the one around an unaligned address
      even when the range is empty. */
  function PeekCount(addr: nat, size: nat): nat {
    if addr % WORD != 0 && size == 0 then 1
    else (addr + size + WORD - 1) / WORD - addr / WORD
  }

  function PeekAddress(addr: nat, i: nat): nat { WordOf(addr) + WORD * i }

  ghost predicate PeeksInOrder(addr: nat, peeks: seq<nat>) {
    forall i | 0 <= i < |peeks| :: peeks[i] == PeekAddress(addr, i)
  }

  /** For a non-empty range the peeks are exactly the aligned words that overlap it. */
  lemma PeeksOverlap(addr: nat, size: nat, w: nat)
    requires size > 0
    ensures (exists i | 0 <= i < PeekCount(addr, size) :: w == PeekAddress(addr, i))
       <==> w % WORD == 0 && w < addr + size && addr < w + WORD
  {
    if w % WORD == 0 && w < addr + size && addr < w + WORD {
      var i := (w - WordOf(addr)) / WORD;
      assert w == PeekAddress(addr, i);
    }
  }

  /** What holds between the phases: p bytes are copied, and the words up to there were peeked
      at, once each and in order. */
  ghost predicate Phase(t: Target, addr: nat, size: nat, bytes: seq<Byte>, peeks: seq<nat>) {
    && |bytes| <= size
    && Copies(t, addr, bytes)
    && PeeksInOrder(addr, peeks)
    && (forall k | 0 <= k < |peeks| :: peeks[k] in t)
    && (|bytes| < size ==> (addr + |bytes|) % WORD == 0 && addr + |bytes| == PeekAddress(addr, |peeks|))
    && (|bytes| == size ==> |peeks| == PeekCount(addr, size))
  }

  lemma CopyOne(t: Target, addr: nat, bytes: seq<Byte>, b: Byte)
    requires Copies(t, addr, bytes) && WordOf(addr + |bytes|) in t && b == MemByte(t, addr + |bytes|)
    ensures Copies(t, addr, bytes + [b])
  {
  }

  /** The rest of a word from at on, or up to end if that comes first. */
  method CopyBytes(t: Target, addr: nat, buf: array<Byte>, from: nat, end: nat) returns (at: nat)
    requires addr <= from <= end <= addr + buf.Length && WordOf(from) in t && Copies(t, addr, buf[..from - addr])
    modifies buf
    ensures at == if end < WordOf(from) + WORD then end else WordOf(from) + WORD
    ensures Copies(t, addr, buf[..at - addr])
    ensures forall j | at - addr <= j < buf.Length :: buf[j] == old(buf[j])
  {
    var rslt, ptr := t[WordOf(from)], from % WORD;
    at := from;
    while at < end && at < WordOf(from) + WORD
      invariant from <= at <= end && at <= WordOf(from) + WORD && ptr == at - WordOf(from)
      invariant Copies(t, addr, buf[..at - addr])
      invariant forall j | at - addr <= j < buf.Length :: buf[j] == old(buf[j])
      decreases end - at
    {
      SameWord(from, at);
      ghost var before := buf[..at - addr];
      buf[at - addr] := rslt[ptr];
      assert buf[..at - addr + 1] == before + [rslt[ptr]];
      CopyOne(t, addr, before, rslt[ptr]);
      at, ptr := at + 1, ptr + 1;
    }
  }

  lemma SameWord(a: nat, b: nat)
    requires WordOf(a) <= b < WordOf(a) + WORD
    ensures WordOf(b) == WordOf(a) && b % WORD == b - WordOf(a)
  {
  }

  lemma NothingCopied(t: Target, addr: nat)
    ensures Copies(t, addr, [])
  {
  }

  lemma HeadEmpty(t: Target, addr: nat, size: nat)
    requires addr % WORD == 0
    ensures Phase(t, addr, size, [], [])
  {
  }

  lemma FirstPeek(addr: nat, size: nat)
    requires addr % WORD != 0
    ensures PeekCount(addr, size) >= 1 && PeeksInOrder(addr, [WordOf(addr)])
  {
  }

  lemma HeadDone(t: Target, addr: nat, size: nat, bytes: seq<Byte>)
    requires addr % WORD != 0 && WordOf(addr) in t && Copies(t, addr, bytes)
    requires addr + |bytes| == if addr + size < WordOf(addr) + WORD then addr + size else WordOf(addr) + WORD
    ensures Phase(t, addr, size, bytes, [WordOf(addr)])
  {
    hide Copies;
  }

  lemma NextPeek(t: Target, addr: nat, size: nat, bytes: seq<Byte>, peeks: seq<nat>)
    requires Phase(t, addr, size, bytes, peeks) && |bytes| < size
    ensures var at := addr + |bytes|;
            WordOf(at) == at && PeeksInOrder(addr, peeks + [at]) && |peeks| < PeekCount(addr, size)
  {
    hide Copies;
  }

  lemma WordDone(t: Target, addr: nat, size: nat, bytes: seq<Byte>, peeks: seq<nat>)
    requires Copies(t, addr, bytes) && |bytes| <= size && size > 0
    requires |peeks| > 0 && PeeksInOrder(addr, peeks) && forall k | 0 <= k < |peeks| :: peeks[k] in t
    requires var w := peeks[|peeks| - 1];
             w < addr + size && addr + |bytes| == if addr + size < w + WORD then addr + size else w + WORD
    ensures Phase(t, addr, size, bytes, peeks)
  {
    hide Copies;
  }

  lemma PeekedAll(t: Target, addr: nat, size: nat, peeks: seq<nat>)
    requires PeeksInOrder(addr, peeks) && |peeks| == PeekCount(addr, size)
    requires forall k | 0 <= k < |peeks| :: peeks[k] in t
    ensures forall i | 0 <= i < PeekCount(addr, size) :: PeekAddress(addr, i) in t
  {
    forall i | 0 <= i < PeekCount(addr, size)
      ensures PeekAddress(addr, i) in t
    {
      assert peeks[i] == PeekAddress(addr, i);
    }
  }

  /** Peeks at the word at an aligned address and copies it up to end. */
  method ReadWord(t: Target, addr: nat, buf: array<Byte>, size: nat, at: nat, end: nat, peeks: seq<nat>)
    returns (ok: bool, peeked: seq<nat>)
    requires addr <= at < end <= addr + size && size <= buf.Length && end <= at + WORD
    requires end == at + WORD || end == addr + size
    requires Phase(t, addr, size, buf[..at - addr], peeks)
    modifies buf
    ensures peeked == peeks + [at] && PeeksInOrder(addr, peeked) && |peeked| <= PeekCount(addr, size)
    ensures ok <==> at in t
    ensures ok ==> Phase(t, addr, size, buf[..end - addr], peeked)
    ensures forall j | size <= j < buf.Length :: buf[j] == old(buf[j])
  {
    hide Copies;
    hide PeekCount;
    hide PeekAddress;
    NextPeek(t, addr, size, buf[..at - addr], peeks);
    peeked, ok := peeks + [at], at in t;
    if ok {
      var next := CopyBytes(t, addr, buf, at, end);
      WordDone(t, addr, size, buf[..next - addr], peeked);
    }
  }

  /** process_read_data: succeeds exactly when every word it has to look at can be read, and then
      the buffer holds the bytes of the range; each of those words is peeked at once, in order. */
  method ReadData(t: Target, addr: U64, buf: array<Byte>, size: nat) returns (ok: bool, peeks: seq<nat>)
    requires addr + size < 0x1_0000_0000_0000_0000 && size <= buf.Length
    modifies buf
    ensures ok <==> forall i | 0 <= i < PeekCount(addr, size) :: PeekAddress(addr, i) in t
    ensures ok ==> Copies(t, addr, buf[..size]) && |peeks| == PeekCount(addr, size)
    ensures !ok ==> 0 < |peeks| <= PeekCount(addr, size) && peeks[|peeks| - 1] !in t
    ensures PeeksInOrder(addr, peeks)
    ensures forall j | size <= j < buf.Length :: buf[j] == old(buf[j])
  {
    hide Copies;
    hide Align;
    hide PeekCount;
    hide PeekAddress;
    var end: nat, at: nat := addr + size, Align(addr);
    AlignRoundsDown(addr);
    NothingCopied(t, addr);
    assert buf[..0] == [];
    peeks := [];
    if at != addr {
      peeks := [at];
      FirstPeek(addr, size);
      assert peeks[0] == PeekAddress(addr, 0);
      if at !in t { return false, peeks; }
      at := CopyBytes(t, addr, buf, addr, end);
      HeadDone(t, addr, size, buf[..at - addr]);
    } else {
      HeadEmpty(t, addr, size);
    }
    var words := (end - at) / WORD;
    for i := 0 to words
      invariant addr <= at && end - at >= WORD * (words - i) && end - at < WORD * (words - i) + WORD
      invariant Phase(t, addr, size, buf[..at - addr], peeks)
      invariant forall j | size <= j < buf.Length :: buf[j] == old(buf[j])
    {
      ok, peeks := ReadWord(t, addr, buf, size, at, at + WORD, peeks);
      if !ok { Unreadable(addr, size, peeks, t); return false, peeks; }
      at := at + WORD;
    }
    if at != end {
      ok, peeks := ReadWord(t, addr, buf, size, at, end, peeks);
      if !ok { Unreadable(addr, size, peeks, t); return false, peeks; }
      at := end;
    }
    PeekedAll(t, addr, size, peeks);
    return true, peeks;
  }

  lemma Unreadable(addr: nat, size: nat, peeks: seq<nat>, t: Target)
    requires PeeksInOrder(addr, peeks) && 0 < |peeks| <= PeekCount(addr, size) && peeks[|peeks| - 1] !in t
    ensures exists i | 0 <= i < PeekCount(addr, size) :: PeekAddress(addr, i) !in t
  {
    assert PeekAddress(addr, |peeks| - 1) !in t;
  }
}
