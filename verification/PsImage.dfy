/**
 What a read of a crashed process gives: the bytes the read loop of the core file reader puts
 together, the memory image it should give, and exactly when the two agree.
 */
module PsImage {
  import opened Bits
  import opened Options
  import opened PsMaps

  // ----- the memory image -----

  /** The part of the last page that a map covers, or 0 when it covers it all. */
  function Fraction(m: MapInfo, page: nat): (rem: nat)
    requires page > 0
    ensures rem < page
  {
    m.memsz % page
  }

  /** Bytes between the end of a map and the end of its last page. */
  function TailSize(m: MapInfo, page: nat): nat
    requires page > 0
  {
    if Fraction(m, page) > 0 then page - Fraction(m, page) else 0
  }

  function PageEnd(m: MapInfo, page: nat): nat
    requires page > 0
  {
    End(m) + TailSize(m, page)
  }

  predicate InTail(m: MapInfo, page: nat, addr: U64)
    requires page > 0
  {
    End(m) <= addr < PageEnd(m, page)
  }

  /** Non-empty maps that start at page boundaries and share no page. */
  predicate PageLayout(all: seq<MapInfo>, page: nat) {
    && page > 0
    && (forall m | m in all :: m.memsz > 0 && m.vaddr % page == 0 && PageEnd(m, page) < TWO64)
    && forall i, j | 0 <= i < j < |all| ::
         PageEnd(all[i], page) <= all[j].vaddr || PageEnd(all[j], page) <= all[i].vaddr
  }

  type Files = map<int, seq<Byte>>

  /** m lies wholly inside its file. */
  predicate Backed(files: Files, m: MapInfo) {
    m.fd in files && m.offset + m.memsz <= |files[m.fd]|
  }

  predicate Covered(all: seq<MapInfo>, files: Files) {
    forall m | m in all :: Backed(files, m)
  }

  /** The byte of its file that m has at x, if the file goes that far. */
  function MapByte(files: Files, m: MapInfo, x: nat): Option<Byte>
    requires m.vaddr <= x
  {
    var off := m.offset + (x - m.vaddr);
    if m.fd in files && off < |files[m.fd]| then Some(files[m.fd][off]) else None
  }

  /** What the process had at addr: the file byte of the map there, normal maps first; zero in the
      rest of a map's last page; nothing elsewhere. */
  ghost function Image(all: seq<MapInfo>, files: Files, page: nat, addr: nat): Option<Byte>
    requires page > 0
  {
    if addr >= TWO64 then None else
    FirstContainingSound(all, addr);
    var m := FirstContaining(all, addr);
    if m.Some? then MapByte(files, m.value, addr)
    else if exists t :: t in all && InTail(t, page, addr) then Some(0)
    else None
  }

  ghost predicate HasImage(all: seq<MapInfo>, files: Files, page: nat, addr: U64, size: nat)
    requires page > 0
  {
    forall x | addr <= x < addr + size :: Image(all, files, page, x).Some?
  }

  /** The bytes are those of the image from addr on. */
  ghost predicate IsImage(all: seq<MapInfo>, files: Files, page: nat, addr: nat, bytes: seq<Byte>)
    requires page > 0
  {
    forall x | addr <= x < addr + |bytes| :: Image(all, files, page, x) == Some(bytes[x - addr])
  }

  lemma ImageAppend(all: seq<MapInfo>, files: Files, page: nat, addr: nat, bytes: seq<Byte>, more: seq<Byte>)
    requires page > 0 && IsImage(all, files, page, addr, bytes) && IsImage(all, files, page, addr + |bytes|, more)
    ensures IsImage(all, files, page, addr, bytes + more)
  {
    hide Image;
  }

  lemma LayoutSeparate(all: seq<MapInfo>, page: nat)
    requires PageLayout(all, page)
    ensures Separate(all)
  {
  }

  // ----- normal maps and class share maps together -----

  /** A read that looks a up in share map s goes on to the end of the last page of s; no normal map
      starts on the way. */
  predicate Uncut(maps: seq<MapInfo>, s: MapInfo, page: nat, a: U64)
    requires page > 0
  {
    Contains(s, a) && FirstContaining(maps, a).None? ==>
      forall n | n in maps :: n.vaddr <= a || PageEnd(s, page) <= n.vaddr
  }

  /** No share map has bytes where a read of normal map n fills in zeros. */
  predicate TailFree(share: seq<MapInfo>, n: MapInfo, page: nat, x: U64)
    requires page > 0
  {
    InTail(n, page, x) ==> forall s | s in share :: !Contains(s, x)
  }

  /** Normal maps share no page with each other, nor do share maps; a share map may lie under normal
      ones as long as no read runs from one into the other. */
  ghost predicate Layered(maps: seq<MapInfo>, share: seq<MapInfo>, page: nat) {
    && PageLayout(maps, page)
    && PageLayout(share, page)
    && (forall s, a: U64 | s in share :: Uncut(maps, s, page, a))
    && forall n, x: U64 | n in maps :: TailFree(share, n, page, x)
  }

  /** Of maps that share no page, one reaching to x, inside it or in the rest of its last page, is
      the only one that can contain x. */
  lemma OnlyOne(all: seq<MapInfo>, page: nat, m: MapInfo, x: U64)
    requires PageLayout(all, page) && m in all && m.vaddr <= x < PageEnd(m, page)
    ensures FirstContaining(all, x) == if x < End(m) then Some(m) else None
  {
    hide TailSize;
    hide Contains;
    hide FirstContaining;
    FirstContainingSound(all, x);
    forall m' | m' in all
      ensures Contains(m', x) <==> m' == m && x < End(m)
    {
      PageOnlyOne(all, page, m, m', x);
    }
  }

  lemma PageOnlyOne(all: seq<MapInfo>, page: nat, m: MapInfo, m': MapInfo, x: U64)
    requires PageLayout(all, page) && m in all && m' in all && m.vaddr <= x < PageEnd(m, page)
    ensures Contains(m', x) <==> m' == m && x < End(m)
  {
    hide TailSize;
    hide Contains;
    var i :| 0 <= i < |all| && all[i] == m;
    var j :| 0 <= j < |all| && all[j] == m';
    assert NoWrap(m');
    ContainsRange(m', x);
    assert i == j || PageEnd(m, page) <= m'.vaddr || PageEnd(m', page) <= m.vaddr;
  }

  /** The map found for a is the one for all addresses a read from a takes from it, and where the
      read fills in zeros there is no map. */
  lemma SameMap(maps: seq<MapInfo>, share: seq<MapInfo>, page: nat, m: MapInfo, a: U64, x: U64)
    requires page > 0 && Layered(maps, share, page) && FirstContaining(maps + share, a) == Some(m)
    requires a <= x < PageEnd(m, page)
    ensures m in maps + share && m.vaddr <= a < End(m)
    ensures FirstContaining(maps + share, x) == if x < End(m) then Some(m) else None
  {
    hide TailSize;
    hide FirstContaining;
    hide PageLayout;
    LinearIsFirst(maps, share, a);
    LinearIsFirst(maps, share, x);
    FirstContainingSound(maps, a);
    FirstContainingSound(share, a);
    FirstContainingSound(maps, x);
    FirstContainingSound(share, x);
    if FirstContaining(maps, a).Some? {
      InLayout(maps, page, m, a);
      OnlyOne(maps, page, m, x);
      assert TailFree(share, m, page, x);
    } else {
      InLayout(share, page, m, a);
      OnlyOne(share, page, m, x);
      assert Uncut(maps, m, page, a);
      forall n | n in maps
        ensures !Contains(n, x)
      {
        StillUncovered(maps, page, n, m, a, x);
      }
    }
  }

  lemma InLayout(all: seq<MapInfo>, page: nat, m: MapInfo, a: U64)
    requires PageLayout(all, page) && m in all && Contains(m, a)
    ensures NoWrap(m) && m.vaddr <= a < End(m)
  {
  }

  lemma StillUncovered(maps: seq<MapInfo>, page: nat, n: MapInfo, s: MapInfo, a: U64, x: U64)
    requires PageLayout(maps, page) && n in maps && !Contains(n, a) && a <= x < PageEnd(s, page)
    requires n.vaddr <= a || PageEnd(s, page) <= n.vaddr
    ensures !Contains(n, x)
  {
    hide TailSize;
    assert NoWrap(n);
  }

  lemma LayeredNoWrap(maps: seq<MapInfo>, share: seq<MapInfo>, page: nat, m: MapInfo)
    requires Layered(maps, share, page) && m in maps + share
    ensures NoWrap(m) && PageEnd(m, page) < TWO64
  {
    hide Fraction;
  }

  lemma LayeredAligned(maps: seq<MapInfo>, share: seq<MapInfo>, page: nat, m: MapInfo)
    requires Layered(maps, share, page) && m in maps + share
    ensures m.vaddr % page == 0
  {
  }

  lemma MultipleGap(x: int, y: int, p: int)
    requires p > 0 && x % p == 0 && y % p == 0 && x < y
    ensures x + p <= y
  {
    var d := y / p - x / p;
    assert y - x == d * p;
    if y - x < p { Bits.ZeroMultiple(d, p); }
  }

  lemma PageEndAligned(m: MapInfo, page: nat)
    requires page > 0 && m.vaddr % page == 0
    ensures PageEnd(m, page) % page == 0 && PageEnd(m, page) - End(m) < page
  {
    var v, q, rem := m.vaddr / page, m.memsz / page, m.memsz % page;
    var k := v + q + if rem > 0 then 1 else 0;
    assert PageEnd(m, page) == k * page;
    MultipleMod(k, page);
  }

  lemma MultipleMod(k: int, p: int)
    requires p > 0
    ensures (k * p) % p == 0
  {
    Bits.QuotientUnique(k * p, p, k, 0);
  }

  lemma LayoutEntry(all: seq<MapInfo>, page: nat, m: MapInfo)
    requires PageLayout(all, page) && m in all
    ensures NoWrap(m) && m.memsz > 0 && m.vaddr < PageEnd(m, page)
  {
  }

  /** At a page boundary there is an image only where there is a map. */
  lemma BoundaryImage(maps: seq<MapInfo>, share: seq<MapInfo>, files: Files, page: nat, addr: U64)
    requires Layered(maps, share, page) && addr % page == 0 && Image(maps + share, files, page, addr).Some?
    ensures FirstContaining(maps + share, addr).Some?
  {
    hide TailSize;
    hide FirstContaining;
    forall t | t in maps + share
      ensures !InTail(t, page, addr)
    {
      LayeredAligned(maps, share, page, t);
      BoundaryNoTail(t, page, addr);
    }
  }

  lemma BoundaryNoTail(t: MapInfo, page: nat, addr: U64)
    requires page > 0 && t.vaddr % page == 0 && addr % page == 0
    ensures !InTail(t, page, addr)
  {
    PageEndAligned(t, page);
    if addr < PageEnd(t, page) { MultipleGap(addr, PageEnd(t, page), page); }
  }

  // ----- the read loop -----

  /** pread: what the file has from off on, at most len bytes; nothing on an error or past the end. */
  function Pread(files: Files, fd: int, len: nat, off: nat): (data: seq<Byte>)
    ensures |data| <= len
    ensures fd in files && off + len <= |files[fd]| ==> data == files[fd][off..off + len]
  {
    if fd !in files || off >= |files[fd]| then []
    else if off + len <= |files[fd]| then files[fd][off..off + len]
    else files[fd][off..]
  }

  function Min(x: nat, y: nat): nat { if x < y then x else y }

  function Zeros(n: nat): seq<Byte> { seq(n, _ => 0) }

  /** What one pread of at most size bytes at addr, inside m, gives. */
  function Fetched(files: Files, m: MapInfo, addr: U64, size: nat): (data: seq<Byte>)
    requires Contains(m, addr)
    ensures |data| <= size
  {
    Pread(files, m.fd, Min(size, m.memsz - (addr - m.vaddr)), m.offset + (addr - m.vaddr))
  }

  /** One round of the loop: what the file gives, and zeros for the fraction of a page at the end
      of m, wherever the file stopped. */
  function Round(files: Files, page: nat, m: MapInfo, addr: U64, size: nat): (bytes: seq<Byte>)
    requires page > 0 && Contains(m, addr)
    ensures |bytes| <= size
  {
    var data := Fetched(files, m, addr, size);
    if data == [] then [] else data + Zeros(Min(size - |data|, TailSize(m, page)))
  }

  /** All that core_read_data puts in the buffer, on any maps and any files. */
  function Reading(a: seq<MapInfo>, share: seq<MapInfo>, files: Files, page: nat, addr: U64, size: nat)
      : (bytes: seq<Byte>)
    requires page > 0
    ensures |bytes| <= size
    decreases size
  {
    LookupContains(a, share, addr);
    var m := IndexLookup(a, share, addr);
    if size == 0 || m.None? then []
    else
      var r := Round(files, page, m.value, addr, size);
      if r == [] then [] else r + Reading(a, share, files, page, (addr + |r|) % TWO64, size - |r|)
  }

  /** A file byte of m, as far as m goes, and zero in the rest of its last page. */
  function RoundByte(files: Files, m: MapInfo, x: nat): Byte
    requires Backed(files, m) && m.vaddr <= x
  {
    if x < End(m) then files[m.fd][m.offset + (x - m.vaddr)] else 0
  }

  function RoundValue(files: Files, m: MapInfo, x: nat): Option<Byte>
    requires m.vaddr <= x
  {
    if x < End(m) then MapByte(files, m, x) else Some(0)
  }

  /** The round where m is found, as far as its file goes. */
  lemma RoundBytes(files: Files, page: nat, m: MapInfo, addr: U64, size: nat)
    requires page > 0 && Contains(m, addr) && NoWrap(m) && size > 0
    requires forall x | addr <= x < addr + size && x < End(m) :: MapByte(files, m, x).Some?
    ensures var r := Round(files, page, m, addr, size);
            && |r| == Min(size, PageEnd(m, page) - addr) > 0
            && forall x | addr <= x < addr + |r| :: Some(r[x - addr]) == RoundValue(files, m, x)
  {
    hide TailSize;
    ContainsRange(m, addr);
    hide Contains;
    FullFetch(files, m, addr, size);
  }

  lemma FullFetch(files: Files, m: MapInfo, addr: U64, size: nat)
    requires m.vaddr <= addr < End(m) && Contains(m, addr) && size > 0
    requires forall x | addr <= x < addr + size && x < End(m) :: MapByte(files, m, x).Some?
    ensures var data := Fetched(files, m, addr, size);
            && |data| == Min(size, End(m) - addr)
            && forall x | addr <= x < addr + |data| :: MapByte(files, m, x) == Some(data[x - addr])
  {
    hide Contains;
    assert MapByte(files, m, addr + Min(size, End(m) - addr) - 1).Some?;
  }

  lemma ReadingNothing(a: seq<MapInfo>, share: seq<MapInfo>, files: Files, page: nat, addr: U64, size: nat)
    requires page > 0 && IndexLookup(a, share, addr).None?
    ensures Reading(a, share, files, page, addr, size) == []
  {
  }

  lemma ReadingStep(a: seq<MapInfo>, share: seq<MapInfo>, files: Files, page: nat, m: MapInfo, addr: U64, size: nat)
    requires page > 0 && size > 0 && IndexLookup(a, share, addr) == Some(m) && Contains(m, addr)
    ensures var r := Round(files, page, m, addr, size);
            && (r == [] ==> Reading(a, share, files, page, addr, size) == [])
            && (r != [] && addr + |r| < TWO64 ==>
                  Reading(a, share, files, page, addr, size)
                  == r + Reading(a, share, files, page, addr + |r|, size - |r|))
  {
    hide Round;
    hide IndexLookup;
    hide Contains;
  }

  /** Within the pages of one map the read gives that map, whatever other maps there are. */
  lemma OneRound(a: seq<MapInfo>, share: seq<MapInfo>, files: Files, page: nat, m: MapInfo, addr: U64, size: nat)
    requires page > 0 && IndexLookup(a, share, addr) == Some(m) && NoWrap(m) && Backed(files, m)
    requires addr + size <= PageEnd(m, page)
    ensures m.vaddr <= addr
    ensures var r := Reading(a, share, files, page, addr, size);
            |r| == size && forall x | addr <= x < addr + size :: r[x - addr] == RoundByte(files, m, x)
  {
    hide TailSize;
    hide Round;
    LookupContains(a, share, addr);
    ContainsRange(m, addr);
    hide Contains;
    if size > 0 {
      RoundBytes(files, page, m, addr, size);
      var r := Round(files, page, m, addr, size);
      assert Reading(a, share, files, page, addr, size) == r + [];
      forall x | addr <= x < addr + size
        ensures r[x - addr] == RoundByte(files, m, x)
      {
        assert Some(r[x - addr]) == RoundValue(files, m, x);
      }
    }
  }

  // ----- reads of layered maps -----

  lemma RoundImage(maps: seq<MapInfo>, share: seq<MapInfo>, files: Files, page: nat, m: MapInfo, a: U64, x: U64)
    requires page > 0 && Layered(maps, share, page) && FirstContaining(maps + share, a) == Some(m)
    requires a <= x < PageEnd(m, page)
    ensures m in maps + share && m.vaddr <= a
    ensures Image(maps + share, files, page, x) == RoundValue(files, m, x)
  {
    hide FirstContaining;
    hide TailSize;
    hide Contains;
    hide Layered;
    SameMap(maps, share, page, m, a, x);
    if x >= End(m) { assert InTail(m, page, x); }
  }

  /** The index and the two lists agree on what is found, and on where its pages end. */
  lemma Found(maps: seq<MapInfo>, share: seq<MapInfo>, index: seq<MapInfo>, page: nat, addr: U64)
    requires page > 0 && Layered(maps, share, page) && Indexes(index, maps)
    ensures IndexLookup(index, share, addr) == FirstContaining(maps + share, addr)
    ensures var m := FirstContaining(maps + share, addr);
            m.Some? ==> Contains(m.value, addr) && NoWrap(m.value) && PageEnd(m.value, page) < TWO64
                        && m.value in maps + share && m.value.vaddr <= addr < End(m.value)
  {
    hide FirstContaining;
    hide TailSize;
    hide IndexLookup;
    hide Indexes;
    LayoutSeparate(maps, page);
    LookupIsFirst(maps, share, index, addr);
    hide Contains;
    FirstContainingSound(maps + share, addr);
    if FirstContaining(maps + share, addr).Some? {
      var m := FirstContaining(maps + share, addr).value;
      LayeredNoWrap(maps, share, page, m);
      ContainsRange(m, addr);
    }
  }

  /** A round whose bytes the file has is a piece of the image, and ends the read or a page. */
  lemma RoundIsImage(maps: seq<MapInfo>, share: seq<MapInfo>, index: seq<MapInfo>, files: Files, page: nat,
                     m: MapInfo, addr: U64, size: nat)
    requires page > 0 && Layered(maps, share, page) && Indexes(index, maps)
    requires FirstContaining(maps + share, addr) == Some(m) && Contains(m, addr) && size > 0 && m.vaddr <= addr
    requires forall x | addr <= x < addr + size && x < End(m) :: MapByte(files, m, x).Some?
    ensures var r := Round(files, page, m, addr, size);
            && 0 < |r| && addr + |r| < TWO64 && IsImage(maps + share, files, page, addr, r)
            && (|r| < size ==> addr + |r| == PageEnd(m, page))
  {
    hide Layered;
    hide Image;
    hide FirstContaining;
    hide TailSize;
    hide Round;
    hide RoundValue;
    hide MapByte;
    hide Contains;
    hide Indexes;
    Found(maps, share, index, page, addr);
    RoundBytes(files, page, m, addr, size);
    var r := Round(files, page, m, addr, size);
    forall x | addr <= x < addr + |r|
      ensures Image(maps + share, files, page, x) == Some(r[x - addr])
    {
      RoundImage(maps, share, files, page, m, addr, x);
    }
  }

  lemma NextAligned(maps: seq<MapInfo>, share: seq<MapInfo>, page: nat, m: MapInfo)
    requires page > 0 && Layered(maps, share, page) && m in maps + share
    ensures PageEnd(m, page) % page == 0
  {
    hide Layered;
    LayeredAligned(maps, share, page, m);
    PageEndAligned(m, page);
  }

  /** Where the image is, the loop puts it together. */
  lemma {:induction false} ReadingComplete(maps: seq<MapInfo>, share: seq<MapInfo>, index: seq<MapInfo>, files: Files,
                                           page: nat, addr: U64, size: nat)
    requires page > 0 && Layered(maps, share, page) && Indexes(index, maps)
    requires size == 0 || FirstContaining(maps + share, addr).Some?
    requires HasImage(maps + share, files, page, addr, size)
    ensures |Reading(index, share, files, page, addr, size)| == size
    ensures IsImage(maps + share, files, page, addr, Reading(index, share, files, page, addr, size))
    decreases size
  {
    hide Reading;
    hide Layered;
    hide Image;
    hide FirstContaining;
    hide TailSize;
    hide Round;
    hide MapByte;
    hide Contains;
    hide Indexes;
    hide IndexLookup;
    assert size == 0 ==> |Reading(index, share, files, page, addr, size)| == 0;
    if size > 0 {
      Found(maps, share, index, page, addr);
      var m := FirstContaining(maps + share, addr).value;
      forall x | addr <= x < addr + size && x < End(m)
        ensures MapByte(files, m, x).Some?
      {
        assert Image(maps + share, files, page, x).Some?;
        RoundImage(maps, share, files, page, m, addr, x);
      }
      RoundIsImage(maps, share, index, files, page, m, addr, size);
      var r := Round(files, page, m, addr, size);
      var next := addr + |r|;
      if |r| < size {
        assert Image(maps + share, files, page, next).Some?;
        NextAligned(maps, share, page, m);
        BoundaryImage(maps, share, files, page, next);
      }
      ReadingStep(index, share, files, page, m, addr, size);
      ReadingComplete(maps, share, index, files, page, next, size - |r|);
      ImageAppend(maps + share, files, page, addr, r, Reading(index, share, files, page, next, size - |r|));
    }
  }

  /** On layered maps, whatever the files hold and however short they are, a read succeeds and gives
      the image exactly when it starts in a map and every byte of it has an image. */
  lemma ReadingExact(maps: seq<MapInfo>, share: seq<MapInfo>, index: seq<MapInfo>, files: Files, page: nat,
                     addr: U64, size: nat)
    requires page > 0 && Layered(maps, share, page) && Indexes(index, maps)
    ensures var r := Reading(index, share, files, page, addr, size);
            (|r| == size && IsImage(maps + share, files, page, addr, r)) <==>
              (size == 0 || (FirstContaining(maps + share, addr).Some?
                             && HasImage(maps + share, files, page, addr, size)))
  {
    hide Layered;
    hide Image;
    hide FirstContaining;
    hide Round;
    hide Contains;
    hide Indexes;
    hide IndexLookup;
    Found(maps, share, index, page, addr);
    var r := Reading(index, share, files, page, addr, size);
    if |r| == size && IsImage(maps + share, files, page, addr, r) {
      assert HasImage(maps + share, files, page, addr, size);
    }
    if size == 0 || (FirstContaining(maps + share, addr).Some? && HasImage(maps + share, files, page, addr, size)) {
      ReadingComplete(maps, share, index, files, page, addr, size);
    }
  }

  // ----- files that end inside a map -----

  /** m ends in a fraction of a page, and its file ends inside m. */
  predicate ShortMap(files: Files, page: nat, m: MapInfo)
    requires page > 0
  {
    && NoWrap(m) && TailSize(m, page) > 0
    && m.fd in files && m.offset < |files[m.fd]| < m.offset + m.memsz
  }

  /** The first address of m that its file has no byte for. */
  function FileEnd(files: Files, m: MapInfo): nat
    requires m.fd in files && m.offset <= |files[m.fd]|
  {
    m.vaddr + (|files[m.fd]| - m.offset)
  }

  /** No read comes to the last file byte of a short map. */
  ghost predicate NoShortFound(all: seq<MapInfo>, files: Files, page: nat)
    requires page > 0
  {
    forall m | m in all && ShortMap(files, page, m) :: FirstContaining(all, FileEnd(files, m) - 1) != Some(m)
  }

  lemma CoveredNoShort(all: seq<MapInfo>, files: Files, page: nat)
    requires page > 0 && Covered(all, files)
    ensures NoShortFound(all, files, page)
  {
    hide FirstContaining;
    assert forall m | m in all :: Backed(files, m);
  }

  /** A read that succeeds has given the image. */
  ghost predicate Honest(maps: seq<MapInfo>, share: seq<MapInfo>, index: seq<MapInfo>, files: Files, page: nat,
                         addr: U64, size: nat)
    requires page > 0
  {
    var r := Reading(index, share, files, page, addr, size);
    |r| == size ==> IsImage(maps + share, files, page, addr, r)
  }

  /** The file ends before the read does. */
  lemma ShortFetch(files: Files, m: MapInfo, addr: U64, size: nat, x: nat)
    requires Contains(m, addr) && m.vaddr <= addr <= x < addr + size && x < End(m) && MapByte(files, m, x).None?
    ensures var data := Fetched(files, m, addr, size);
            data != [] ==> && m.fd in files && m.offset < |files[m.fd]| < m.offset + m.memsz
                           && addr < FileEnd(files, m) <= x && addr + |data| == FileEnd(files, m)
  {
    hide Contains;
  }

  /** Then the read goes on to zeros that are no image, or fails. */
  lemma ShortFails(maps: seq<MapInfo>, share: seq<MapInfo>, index: seq<MapInfo>, files: Files, page: nat,
                   m: MapInfo, addr: U64, size: nat, x: U64)
    requires page > 0 && Layered(maps, share, page) && Indexes(index, maps) && NoShortFound(maps + share, files, page)
    requires FirstContaining(maps + share, addr) == Some(m) && m.vaddr <= addr <= x < addr + size && x < End(m)
    requires MapByte(files, m, x).None?
    ensures |Reading(index, share, files, page, addr, size)| < size
  {
    hide Reading;
    hide Fetched;
    hide Layered;
    hide FirstContaining;
    hide Contains;
    hide Indexes;
    hide IndexLookup;
    hide Fraction;
    hide Pread;
    hide MapByte;
    Found(maps, share, index, page, addr);
    ShortFetch(files, m, addr, size, x);
    var data := Fetched(files, m, addr, size);
    if data != [] {
      var end := FileEnd(files, m);
      SameMap(maps, share, page, m, addr, end - 1);
      SameMap(maps, share, page, m, addr, end);
      Found(maps, share, index, page, end);
      NothingPastEnd(files, m, end, size - |data|);
      assert Round(files, page, m, addr, size) == data + Zeros(0) == data;
      ReadingStep(index, share, files, page, m, addr, size);
      ReadingStep(index, share, files, page, m, end, size - |data|);
    } else {
      ReadingStep(index, share, files, page, m, addr, size);
    }
  }

  lemma NothingPastEnd(files: Files, m: MapInfo, end: U64, size: nat)
    requires Contains(m, end) && m.fd in files && m.offset <= |files[m.fd]| && end == FileEnd(files, m)
    ensures Fetched(files, m, end, size) == []
  {
  }

  /** Unless a read can come to the end of a short map, success means the image. */
  lemma {:induction false} ReadingHonest(maps: seq<MapInfo>, share: seq<MapInfo>, index: seq<MapInfo>, files: Files,
                                         page: nat, addr: U64, size: nat)
    requires page > 0 && Layered(maps, share, page) && Indexes(index, maps) && NoShortFound(maps + share, files, page)
    ensures Honest(maps, share, index, files, page, addr, size)
    decreases size
  {
    hide Reading;
    hide Layered;
    hide Image;
    hide FirstContaining;
    hide TailSize;
    hide Round;
    hide MapByte;
    hide Contains;
    hide Indexes;
    hide IndexLookup;
    hide NoShortFound;
    Found(maps, share, index, page, addr);
    if size > 0 && FirstContaining(maps + share, addr).None? {
      ReadingNothing(index, share, files, page, addr, size);
    } else if size > 0 {
      var m := FirstContaining(maps + share, addr).value;
      if x: nat :| addr <= x < addr + size && x < End(m) && MapByte(files, m, x).None? {
        ShortFails(maps, share, index, files, page, m, addr, size, x);
      } else {
        RoundIsImage(maps, share, index, files, page, m, addr, size);
        ReadingStep(index, share, files, page, m, addr, size);
        var r := Round(files, page, m, addr, size);
        ReadingHonest(maps, share, index, files, page, addr + |r|, size - |r|);
        var rest := Reading(index, share, files, page, addr + |r|, size - |r|);
        if |rest| == size - |r| { ImageAppend(maps + share, files, page, addr, r, rest); }
      }
    }
  }

  /** Two bytes at the end of the file of a short map: the second is a zero the process never had. */
  lemma ShortIsWrong(maps: seq<MapInfo>, share: seq<MapInfo>, index: seq<MapInfo>, files: Files, page: nat, m: MapInfo)
    requires page > 0 && Layered(maps, share, page) && Indexes(index, maps) && m in maps + share
    requires ShortMap(files, page, m) && FirstContaining(maps + share, FileEnd(files, m) - 1) == Some(m)
    ensures !Honest(maps, share, index, files, page, FileEnd(files, m) - 1, 2)
  {
    hide Layered;
    hide FirstContaining;
    hide Contains;
    hide Indexes;
    hide IndexLookup;
    hide Fraction;
    var end := FileEnd(files, m);
    Found(maps, share, index, page, end - 1);
    LastFetch(files, m, end - 1);
    var data := Fetched(files, m, end - 1, 2);
    var r := Round(files, page, m, end - 1, 2);
    assert |r| == 2 && Reading(index, share, files, page, end - 1, 2) == r + [];
    RoundImage(maps, share, files, page, m, end - 1, end);
    assert Image(maps + share, files, page, end).None?;
  }

  lemma LastFetch(files: Files, m: MapInfo, addr: U64)
    requires Contains(m, addr) && m.vaddr <= addr && addr + 1 < End(m)
    requires m.fd in files && m.offset <= |files[m.fd]| && addr + 1 == FileEnd(files, m)
    ensures |Fetched(files, m, addr, 2)| == 1
  {
    hide Contains;
  }

  /** On layered maps every read that succeeds gives the image exactly when no read can come to the
      end of the file of a map that ends in a fraction of a page after it. */
  lemma HonestExact(maps: seq<MapInfo>, share: seq<MapInfo>, index: seq<MapInfo>, files: Files, page: nat)
    requires page > 0 && Layered(maps, share, page) && Indexes(index, maps)
    ensures (forall addr: U64, size: nat :: Honest(maps, share, index, files, page, addr, size))
       <==> NoShortFound(maps + share, files, page)
  {
    hide Layered;
    hide FirstContaining;
    hide Honest;
    hide Indexes;
    if NoShortFound(maps + share, files, page) {
      forall addr: U64, size: nat
        ensures Honest(maps, share, index, files, page, addr, size)
      {
        ReadingHonest(maps, share, index, files, page, addr, size);
      }
    } else {
      var m :| m in maps + share && ShortMap(files, page, m)
               && FirstContaining(maps + share, FileEnd(files, m) - 1) == Some(m);
      ShortIsWrong(maps, share, index, files, page, m);
    }
  }

  // ----- exactly which layouts are read right -----

  /** Whatever the files hold, as long as they hold all maps, every read that succeeds gives the
      image. */
  ghost predicate ReadsRight(maps: seq<MapInfo>, share: seq<MapInfo>, index: seq<MapInfo>, page: nat)
    requires page > 0
  {
    forall files, addr: U64, size: nat | Covered(maps + share, files) ::
      Honest(maps, share, index, files, page, addr, size)
  }

  /** Files in which every byte of the archive behind the share maps is 1 and all others are 2. */
  function Marked(fds: set<int>, archive: int, size: nat): Files {
    map fd | fd in fds :: seq(size, _ => if fd == archive then 1 else 2)
  }

  ghost function Largest(all: seq<MapInfo>): (n: nat)
    ensures forall m | m in all :: m.offset + m.memsz <= n
  {
    if all == [] then 0
    else
      var n := Largest(all[1..]);
      assert forall m | m in all :: m == all[0] || m in all[1..];
      if all[0].offset + all[0].memsz > n then all[0].offset + all[0].memsz else n
  }

  ghost function MarkedFor(all: seq<MapInfo>, archive: int): (files: Files)
    ensures Covered(all, files)
    ensures forall m | m in all :: forall x | m.vaddr <= x < End(m) ::
              RoundByte(files, m, x) == if m.fd == archive then 1 else 2
  {
    Marked(set m | m in all :: m.fd, archive, Largest(all))
  }

  lemma ImageOf(all: seq<MapInfo>, files: Files, page: nat, m: MapInfo, x: U64)
    requires page > 0 && FirstContaining(all, x) == Some(m) && NoWrap(m) && Backed(files, m)
    ensures m in all && m.vaddr <= x < End(m) && Image(all, files, page, x) == Some(RoundByte(files, m, x))
  {
    FirstContainingSound(all, x);
  }

  /** A read inside the pages of one map that gives another byte than the image at its end. */
  lemma WrongEnd(maps: seq<MapInfo>, share: seq<MapInfo>, index: seq<MapInfo>, files: Files, page: nat,
                 m: MapInfo, addr: U64, x: U64)
    requires page > 0 && Covered(maps + share, files) && IndexLookup(index, share, addr) == Some(m)
    requires m in maps + share && NoWrap(m) && m.vaddr <= addr <= x < PageEnd(m, page)
    requires Image(maps + share, files, page, x) != Some(RoundByte(files, m, x))
    ensures !Honest(maps, share, index, files, page, addr, x + 1 - addr)
    ensures !ReadsRight(maps, share, index, page)
  {
    hide Image;
    hide TailSize;
    hide Reading;
    hide RoundByte;
    hide IndexLookup;
    OneRound(index, share, files, page, m, addr, x + 1 - addr);
    var r := Reading(index, share, files, page, addr, x + 1 - addr);
    assert r[x - addr] == RoundByte(files, m, x);
  }

  /** A normal map that starts where a read of a share map goes on is not seen by that read. */
  lemma CutIsWrong(maps: seq<MapInfo>, share: seq<MapInfo>, index: seq<MapInfo>, page: nat, archive: int,
                   s: MapInfo, a: U64, n: MapInfo)
    requires page > 0 && PageLayout(maps, page) && PageLayout(share, page) && Indexes(index, maps)
    requires s in share && n in maps && s.fd == archive && n.fd != archive
    requires Contains(s, a) && FirstContaining(maps, a).None? && a < n.vaddr < PageEnd(s, page)
    ensures !ReadsRight(maps, share, index, page)
  {
    hide TailSize;
    hide FirstContaining;
    hide Image;
    hide PageLayout;
    hide MarkedFor;
    hide Indexes;
    hide IndexLookup;
    hide ReadsRight;
    var all := maps + share;
    var files := MarkedFor(all, archive);
    LayoutEntry(maps, page, n);
    LinearIsFirst(maps, share, a);
    InLayout(share, page, s, a);
    OnlyOne(share, page, s, a);
    LinearIsFirst(maps, share, n.vaddr);
    OnlyOne(maps, page, n, n.vaddr);
    LayoutSeparate(maps, page);
    LookupIsFirst(maps, share, index, a);
    assert n in all && s in all;
    ImageOf(all, files, page, n, n.vaddr);
    assert RoundByte(files, n, n.vaddr) == 2;
    WrongEnd(maps, share, index, files, page, s, a, n.vaddr);
  }

  /** Share bytes where a read of a normal map fills in zeros are not seen by that read. */
  lemma TailIsWrong(maps: seq<MapInfo>, share: seq<MapInfo>, index: seq<MapInfo>, page: nat, archive: int,
                    n: MapInfo, x: U64, s: MapInfo)
    requires page > 0 && PageLayout(maps, page) && PageLayout(share, page) && Indexes(index, maps)
    requires s in share && n in maps && s.fd == archive && InTail(n, page, x) && Contains(s, x)
    ensures !ReadsRight(maps, share, index, page)
  {
    hide TailSize;
    hide FirstContaining;
    hide Image;
    hide PageLayout;
    hide MarkedFor;
    hide Indexes;
    hide IndexLookup;
    hide ReadsRight;
    var all := maps + share;
    var files := MarkedFor(all, archive);
    LayoutEntry(maps, page, n);
    LinearIsFirst(maps, share, n.vaddr);
    OnlyOne(maps, page, n, n.vaddr);
    LinearIsFirst(maps, share, x);
    OnlyOne(maps, page, n, x);
    InLayout(share, page, s, x);
    OnlyOne(share, page, s, x);
    LayoutSeparate(maps, page);
    LookupIsFirst(maps, share, index, n.vaddr);
    assert n in all && s in all;
    ImageOf(all, files, page, s, x);
    assert RoundByte(files, s, x) == 1;
    WrongEnd(maps, share, index, files, page, n, n.vaddr, x);
  }

  /** With the share maps in a file of their own, every read that succeeds gives the image, whatever
      the files hold, exactly when the two kinds of maps are layered so that no read runs from one
      into the other. */
  lemma LayeredExact(maps: seq<MapInfo>, share: seq<MapInfo>, index: seq<MapInfo>, page: nat, archive: int)
    requires page > 0 && PageLayout(maps, page) && PageLayout(share, page) && Indexes(index, maps)
    requires (forall s | s in share :: s.fd == archive) && forall n | n in maps :: n.fd != archive
    ensures ReadsRight(maps, share, index, page) <==> Layered(maps, share, page)
  {
    hide PageLayout;
    hide FirstContaining;
    hide TailSize;
    hide Honest;
    hide Indexes;
    if Layered(maps, share, page) {
      forall files, addr: U64, size: nat | Covered(maps + share, files)
        ensures Honest(maps, share, index, files, page, addr, size)
      {
        CoveredNoShort(maps + share, files, page);
        ReadingHonest(maps, share, index, files, page, addr, size);
      }
    } else if s, a: U64 :| s in share && !Uncut(maps, s, page, a) {
      var n :| n in maps && !(n.vaddr <= a || PageEnd(s, page) <= n.vaddr);
      CutIsWrong(maps, share, index, page, archive, s, a, n);
    } else {
      var n, x: U64 :| n in maps && !TailFree(share, n, page, x);
      var s :| s in share && Contains(s, x);
      TailIsWrong(maps, share, index, page, archive, n, x, s);
    }
  }

  /** Maps that share no page at all are layered. */
  lemma DisjointLayered(maps: seq<MapInfo>, share: seq<MapInfo>, page: nat)
    requires PageLayout(maps + share, page)
    ensures Layered(maps, share, page)
  {
    hide TailSize;
    var all := maps + share;
    forall i, j | 0 <= i < |maps| && 0 <= j < |share|
      ensures PageEnd(maps[i], page) <= share[j].vaddr || PageEnd(share[j], page) <= maps[i].vaddr
    {
      assert all[i] == maps[i] && all[|maps| + j] == share[j];
    }
    assert PageLayout(maps, page) by {
      assert forall i | 0 <= i < |maps| :: all[i] == maps[i];
    }
    assert PageLayout(share, page) by {
      assert forall j | 0 <= j < |share| :: all[|maps| + j] == share[j];
    }
  }
}
