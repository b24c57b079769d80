/**
 The address maps of a crashed process: the list of normal maps with a sorted index over it, the
 class share maps, and lookup by binary search.
 */
module PsMaps {
  import opened Bits
  import opened Options

  const TWO64 := 0x1_0000_0000_0000_0000

  /** A piece of address space backed by a piece of a file. */
  datatype MapInfo = MapInfo(fd: int, offset: nat, vaddr: U64, memsz: U64)

  /** addr >= vaddr && addr < vaddr + memsz, in uintptr_t arithmetic */
  predicate Contains(m: MapInfo, addr: U64) {
    m.vaddr <= addr < (m.vaddr + m.memsz) % TWO64
  }

  predicate SortedByAddress(a: seq<MapInfo>) {
    forall i, j | 0 <= i < j < |a| :: a[i].vaddr <= a[j].vaddr
  }

  /** The first map of a list that contains addr. */
  function FirstContaining(ms: seq<MapInfo>, addr: U64): Option<MapInfo> {
    if ms == [] then None
    else if Contains(ms[0], addr) then Some(ms[0])
    else FirstContaining(ms[1..], addr)
  }

  /** Normal maps first, class share maps only when none of them has the address. */
  function LinearLookup(maps: seq<MapInfo>, share: seq<MapInfo>, addr: U64): Option<MapInfo> {
    var m := FirstContaining(maps, addr);
    if m.Some? then m else FirstContaining(share, addr)
  }

  // ----- binary search against linear search -----

  /** Index of the last map that starts at or below addr, or 0. */
  function Candidate(a: seq<MapInfo>, addr: U64): nat {
    if |a| <= 1 then 0
    else if a[|a| - 1].vaddr <= addr then |a| - 1
    else Candidate(a[..|a| - 1], addr)
  }

  /** The candidate of the index contains addr. */
  predicate InIndex(a: seq<MapInfo>, addr: U64) {
    Candidate(a, addr) < |a| && Contains(a[Candidate(a, addr)], addr)
  }

  /** One look at the candidate of the index, then the class share maps. */
  function IndexLookup(a: seq<MapInfo>, share: seq<MapInfo>, addr: U64): Option<MapInfo> {
    if InIndex(a, addr) then Some(a[Candidate(a, addr)]) else FirstContaining(share, addr)
  }

  lemma {:induction false} CandidateIsLast(a: seq<MapInfo>, addr: U64)
    requires |a| > 0 && SortedByAddress(a)
    ensures var k := Candidate(a, addr);
            && k < |a|
            && (k > 0 ==> a[k].vaddr <= addr)
            && forall j | k < j < |a| :: addr < a[j].vaddr
  {
    if |a| > 1 && addr < a[|a| - 1].vaddr {
      var b := a[..|a| - 1];
      CandidateIsLast(b, addr);
    }
  }

  lemma CandidateUnique(a: seq<MapInfo>, addr: U64, k: nat)
    requires k < |a| && SortedByAddress(a) && (k > 0 ==> a[k].vaddr <= addr)
    requires forall j | k < j < |a| :: addr < a[j].vaddr
    ensures k == Candidate(a, addr)
  {
    CandidateIsLast(a, addr);
  }

  // ----- an index shorter than the number of maps -----

  /** The search between lo and hi, always going right, looks at ever higher places; this is the
      last of them below n that comes before any at or above n. */
  function LastProbe(lo: nat, hi: nat, n: nat): (k: Option<nat>)
    ensures k.Some? ==> lo < k.value < hi && k.value < n
    decreases hi - lo
  {
    var mid := (lo + hi) / 2;
    if hi <= lo + 1 || mid >= n then None
    else
      var k := LastProbe(mid, hi, n);
      if k.Some? then k else Some(mid)
  }

  /** A search from lo to hi that has not yet been stopped by an entry above addr reads only what
      is there: the index is long enough, or an entry it looks at in time lies above addr. */
  predicate Inside(a: seq<MapInfo>, lo: nat, hi: nat, addr: U64) {
    hi < |a| || (var k := LastProbe(lo, hi, |a|); k.Some? && addr < a[k.value].vaddr)
  }

  /** The lookup reads only entries of the index, when num maps are said to be in it. */
  predicate StaysInside(a: seq<MapInfo>, num: nat, addr: U64) {
    num > 0 && Inside(a, 0, num - 1, addr)
  }

  lemma InsideStep(a: seq<MapInfo>, lo: nat, hi: nat, addr: U64)
    requires SortedByAddress(a) && lo + 1 < hi
    ensures var mid := (lo + hi) / 2;
            if mid >= |a| then !Inside(a, lo, hi, addr)
            else if a[mid].vaddr <= addr then Inside(a, lo, hi, addr) <==> Inside(a, mid, hi, addr)
            else Inside(a, lo, hi, addr)
  {
  }

  lemma {:induction false} LastProbeBelow(lo: nat, hi: nat)
    requires lo + 1 < hi
    ensures LastProbe(lo, hi, hi) == Some(hi - 1)
    decreases hi - lo
  {
    var mid := (lo + hi) / 2;
    if mid + 1 < hi { LastProbeBelow(mid, hi); }
  }

  /** With one map added since the index of at least two was built, a lookup reads past the index
      exactly for addresses from the start of its last map on. */
  lemma OneMissing(a: seq<MapInfo>, addr: U64)
    requires |a| >= 2
    ensures StaysInside(a, |a| + 1, addr) <==> addr < a[|a| - 1].vaddr
  {
    LastProbeBelow(0, |a|);
  }

  /** vaddr + memsz does not wrap around. */
  predicate NoWrap(m: MapInfo) { m.vaddr + m.memsz < TWO64 }

  function End(m: MapInfo): nat { m.vaddr + m.memsz }

  lemma ContainsRange(m: MapInfo, addr: U64)
    requires NoWrap(m)
    ensures Contains(m, addr) <==> m.vaddr <= addr < End(m)
  {
  }

  /** A map whose end wraps around holds no address at all. */
  lemma WrappedHoldsNothing(m: MapInfo, addr: U64)
    requires !NoWrap(m)
    ensures !Contains(m, addr)
  {
  }

  /** No map reaches past the end of a later-starting one, except where yet another map starts
      no later than that end. */
  predicate NoShadow(a: seq<MapInfo>) {
    forall i, k | 0 <= i <= k < |a| ::
      End(a[i]) <= End(a[k]) || (k + 1 < |a| && a[k + 1].vaddr <= End(a[k]))
  }

  ghost predicate Finds(a: seq<MapInfo>, addr: U64)
    requires |a| > 0 && SortedByAddress(a)
  {
    CandidateIsLast(a, addr);
    (exists m :: m in a && Contains(m, addr)) ==> Contains(a[Candidate(a, addr)], addr)
  }

  /** Looking only at the last map that starts at or below the address finds a containing map,
      for every address that has one, exactly when no map is shadowed. */
  lemma SearchComplete(a: seq<MapInfo>)
    requires |a| > 0 && SortedByAddress(a) && forall m | m in a :: NoWrap(m)
    ensures (forall addr: U64 :: Finds(a, addr)) <==> NoShadow(a)
  {
    if NoShadow(a) {
      forall addr: U64
        ensures Finds(a, addr)
      {
        ShadowFreeFinds(a, addr);
      }
    } else {
      hide Finds;
      var i, k :| 0 <= i <= k < |a| && !(End(a[i]) <= End(a[k]) || (k + 1 < |a| && a[k + 1].vaddr <= End(a[k])));
      ShadowHides(a, i, k);
    }
  }

  lemma ShadowHides(a: seq<MapInfo>, i: nat, k: nat)
    requires |a| > 0 && SortedByAddress(a) && forall m | m in a :: NoWrap(m)
    requires i <= k < |a| && End(a[k]) < End(a[i]) && (k + 1 < |a| ==> End(a[k]) < a[k + 1].vaddr)
    ensures End(a[k]) < TWO64 && !Finds(a, End(a[k]))
  {
    assert a[i] in a && a[k] in a;
    var addr: U64 := End(a[k]);
    CandidateUnique(a, addr, k);
    assert Contains(a[i], addr) && !Contains(a[k], addr);
  }

  lemma ContainedIsFound(a: seq<MapInfo>, addr: U64, i: nat)
    requires i < |a| && Contains(a[i], addr)
    requires SortedByAddress(a) && NoShadow(a) && forall m | m in a :: NoWrap(m)
    ensures Candidate(a, addr) < |a| && Contains(a[Candidate(a, addr)], addr)
  {
    hide SortedByAddress;
    hide Contains;
    CandidateIsLast(a, addr);
    var k := Candidate(a, addr);
    assert a[k] in a && a[i] in a;
    ContainsRange(a[k], addr);
    ContainsRange(a[i], addr);
    assert i <= k;
    assert End(a[i]) <= End(a[k]) || (k + 1 < |a| && a[k + 1].vaddr <= End(a[k]));
  }

  lemma ShadowFreeFinds(a: seq<MapInfo>, addr: U64)
    requires |a| > 0 && SortedByAddress(a) && NoShadow(a) && forall m | m in a :: NoWrap(m)
    ensures Finds(a, addr)
  {
    hide SortedByAddress;
    hide NoShadow;
    hide Contains;
    CandidateIsLast(a, addr);
    forall m | m in a && Contains(m, addr)
      ensures Contains(a[Candidate(a, addr)], addr)
    {
      var i :| 0 <= i < |a| && a[i] == m;
      ContainedIsFound(a, addr, i);
    }
  }

  /** Non-empty ranges, no two of which overlap. */
  predicate Separate(a: seq<MapInfo>) {
    && (forall m | m in a :: NoWrap(m) && m.memsz > 0)
    && forall i, j | 0 <= i < j < |a| :: End(a[i]) <= a[j].vaddr || End(a[j]) <= a[i].vaddr
  }

  lemma SeparateNoShadow(a: seq<MapInfo>)
    requires Separate(a) && SortedByAddress(a)
    ensures NoShadow(a)
  {
    forall i, k | 0 <= i <= k < |a|
      ensures End(a[i]) <= End(a[k])
    {
      assert a[i] in a && a[k] in a;
    }
  }

  lemma {:induction false} FirstContainingSound(ms: seq<MapInfo>, addr: U64)
    ensures FirstContaining(ms, addr).Some? <==> exists m :: m in ms && Contains(m, addr)
    ensures FirstContaining(ms, addr).Some? ==>
              FirstContaining(ms, addr).value in ms && Contains(FirstContaining(ms, addr).value, addr)
  {
    if ms != [] { FirstContainingSound(ms[1..], addr); }
  }

  /** At most one of separate maps contains an address, wherever it stands in the list. */
  lemma SeparateUnique(ms: seq<MapInfo>, m: MapInfo, m': MapInfo, addr: U64)
    requires Separate(ms) && m in ms && m' in ms && Contains(m, addr) && Contains(m', addr)
    ensures m == m'
  {
    var i :| 0 <= i < |ms| && ms[i] == m;
    var j :| 0 <= j < |ms| && ms[j] == m';
  }

  lemma SeparatePermuted(a: seq<MapInfo>, b: seq<MapInfo>)
    requires multiset(a) == multiset(b) && Separate(a)
    ensures Separate(b)
  {
    forall m | m in b
      ensures m in a
    {
      assert m in multiset(b);
    }
    forall i, j | 0 <= i < j < |b|
      ensures End(b[i]) <= b[j].vaddr || End(b[j]) <= b[i].vaddr
    {
      var i', j' := TwoPlaces(a, b, i, j);
    }
  }

  lemma Without(s: seq<MapInfo>, i: nat)
    requires i < |s|
    ensures multiset(s[..i] + s[i + 1..]) == multiset(s) - multiset{s[i]}
  {
    assert s == s[..i] + [s[i]] + s[i + 1..];
  }

  /** Another place of an element that stands at two places in a permutation. */
  lemma OtherPlace(a: seq<MapInfo>, b: seq<MapInfo>, i: nat, j: nat, i': nat) returns (j': nat)
    requires multiset(a) == multiset(b) && i < j < |b| && i' < |a|
    requires b[i] == b[j] == a[i']
    ensures j' < |a| && i' != j' && a[j'] == b[j]
  {
    var a', b' := a[..i'] + a[i' + 1..], b[..j] + b[j + 1..];
    Without(a, i');
    Without(b, j);
    assert b'[i] in multiset(b');
    var k :| 0 <= k < |a'| && a'[k] == b[i];
    j' := if k < i' then k else k + 1;
  }

  /** Two places of a permutation come from two places of the original. */
  lemma TwoPlaces(a: seq<MapInfo>, b: seq<MapInfo>, i: nat, j: nat) returns (i': nat, j': nat)
    requires multiset(a) == multiset(b) && i < j < |b|
    ensures i' < |a| && j' < |a| && i' != j' && a[i'] == b[i] && a[j'] == b[j]
  {
    assert b[i] in multiset(a) && b[j] in multiset(a);
    i' :| 0 <= i' < |a| && a[i'] == b[i];
    if b[i] != b[j] {
      j' :| 0 <= j' < |a| && a[j'] == b[j];
    } else {
      j' := OtherPlace(a, b, i, j, i');
    }
  }

  /** On separate maps the binary search finds what a linear search of the list finds. */
  lemma SearchAgrees(maps: seq<MapInfo>, a: seq<MapInfo>, addr: U64)
    requires Separate(maps) && multiset(a) == multiset(maps) && SortedByAddress(a) && |a| > 0
    ensures Candidate(a, addr) < |a|
    ensures var m := a[Candidate(a, addr)];
            FirstContaining(maps, addr) == if Contains(m, addr) then Some(m) else None
  {
    SeparatePermuted(maps, a);
    SeparateNoShadow(a);
    ShadowFreeFinds(a, addr);
    CandidateIsLast(a, addr);
    FirstContainingSound(maps, addr);
    var m := a[Candidate(a, addr)];
    assert m in multiset(a);
    if FirstContaining(maps, addr).Some? {
      var f := FirstContaining(maps, addr).value;
      assert f in multiset(maps) && f in a;
      SeparateUnique(maps, f, m, addr);
    }
  }

  lemma {:induction false} LinearIsFirst(maps: seq<MapInfo>, share: seq<MapInfo>, addr: U64)
    ensures LinearLookup(maps, share, addr) == FirstContaining(maps + share, addr)
  {
    if maps == [] {
      assert maps + share == share;
    } else {
      assert (maps + share)[1..] == maps[1..] + share;
      LinearIsFirst(maps[1..], share, addr);
    }
  }

  /** With an index of separate maps a lookup finds what a search of both lists in a row finds. */
  lemma LookupIsFirst(maps: seq<MapInfo>, share: seq<MapInfo>, a: seq<MapInfo>, addr: U64)
    requires Separate(maps) && Indexes(a, maps)
    ensures IndexLookup(a, share, addr) == FirstContaining(maps + share, addr)
  {
    hide Contains;
    hide Separate;
    hide FirstContaining;
    LinearIsFirst(maps, share, addr);
    SearchAgrees(maps, a, addr);
  }

  /** A non-empty index over all the maps. */
  ghost predicate Indexes(a: seq<MapInfo>, maps: seq<MapInfo>) {
    |a| > 0 && SortedByAddress(a) && multiset(a) == multiset(maps)
  }

  lemma LookupContains(a: seq<MapInfo>, share: seq<MapInfo>, addr: U64)
    ensures IndexLookup(a, share, addr).Some? ==> Contains(IndexLookup(a, share, addr).value, addr)
  {
    FirstContainingSound(share, addr);
  }

  // ----- search and sort -----

  lemma SubsetSize(a: seq<MapInfo>, b: seq<MapInfo>)
    requires multiset(a) <= multiset(b)
    ensures |a| <= |b|
  {
    assert multiset(b) == multiset(a) + (multiset(b) - multiset(a));
    assert |multiset(b)| == |multiset(a)| + |multiset(b) - multiset(a)|;
  }

  lemma FreshStaysInside(a: seq<MapInfo>, maps: seq<MapInfo>, addr: U64)
    requires multiset(a) == multiset(maps)
    ensures |a| == |maps| && (|maps| > 0 ==> StaysInside(a, |maps|, addr))
  {
    assert |multiset(a)| == |multiset(maps)|;
  }

  lemma ShortInside(a: seq<MapInfo>, lo: nat, hi: nat, addr: U64)
    requires hi < |a|
    ensures Inside(a, lo, hi, addr)
  {
  }

  lemma InsideEnd(a: seq<MapInfo>, lo: nat, hi: nat, addr: U64)
    requires hi <= lo + 1
    ensures Inside(a, lo, hi, addr) <==> hi < |a|
  {
  }

  /** The binary search of core_lookup in an index said to have num entries: the last map starting
      at or below addr, or nothing when the search reads an entry that is not there. */
  method Search(a: seq<MapInfo>, num: nat, addr: U64) returns (k: Option<nat>)
    requires SortedByAddress(a) && |a| <= num
    ensures k.None? <==> !StaysInside(a, num, addr)
    ensures k.Some? ==> k.value == Candidate(a, addr) < |a|
  {
    hide Inside;
    var lo: int, hi: int := 0, num - 1;
    while hi - lo > 1
      invariant num == 0 ==> lo == 0 && hi == -1
      invariant num > 0 ==> 0 <= lo <= hi < num && (StaysInside(a, num, addr) <==> Inside(a, lo, hi, addr))
      invariant lo > 0 ==> lo < |a| && a[lo].vaddr <= addr
      invariant 0 <= hi < num - 1 ==> hi < |a| && addr < a[hi].vaddr
    {
      var mid := (lo + hi) / 2;
      InsideStep(a, lo, hi, addr);
      if mid >= |a| { return None; }
      if addr >= a[mid].vaddr {
        lo := mid;
      } else {
        ShortInside(a, lo, mid, addr);
        hi := mid;
      }
    }
    if hi >= 0 { InsideEnd(a, lo, hi, addr); }
    if !(0 <= hi < |a|) { return None; }
    var c := if addr < a[hi].vaddr then lo else hi;
    CandidateUnique(a, addr, c);
    return Some(c);
  }

  /** The walk along the class share maps. */
  method FirstShare(share: seq<MapInfo>, addr: U64) returns (m: Option<MapInfo>)
    ensures m == FirstContaining(share, addr)
  {
    var rest := share;
    while rest != []
      invariant FirstContaining(share, addr) == FirstContaining(rest, addr)
      decreases |rest|
    {
      if Contains(rest[0], addr) { return Some(rest[0]); }
      rest := rest[1..];
    }
    return None;
  }

  method Insert(b: seq<MapInfo>, x: MapInfo) returns (c: seq<MapInfo>)
    requires SortedByAddress(b)
    ensures SortedByAddress(c) && multiset(c) == multiset(b) + multiset{x}
  {
    hide SortedByAddress;
    var k := |b|;
    while k > 0 && b[k - 1].vaddr > x.vaddr
      invariant 0 <= k <= |b|
      invariant forall j | k <= j < |b| :: b[j].vaddr > x.vaddr
    {
      k := k - 1;
    }
    InsertSorted(b, x, k);
    c := b[..k] + [x] + b[k..];
    assert b == b[..k] + b[k..];
  }

  lemma InsertSorted(b: seq<MapInfo>, x: MapInfo, k: nat)
    requires SortedByAddress(b) && k <= |b|
    requires (k > 0 ==> b[k - 1].vaddr <= x.vaddr) && (k < |b| ==> x.vaddr <= b[k].vaddr)
    ensures SortedByAddress(b[..k] + [x] + b[k..])
  {
    var c := b[..k] + [x] + b[k..];
    assert forall h | 0 <= h < |c| :: c[h] == if h < k then b[h] else if h == k then x else b[h - 1];
  }

  /** qsort with the address comparison: callers may rely on a sorted permutation only. */
  method QSort(a: seq<MapInfo>) returns (b: seq<MapInfo>)
    ensures SortedByAddress(b) && multiset(b) == multiset(a)
  {
    b := [];
    for n := 0 to |a|
      invariant SortedByAddress(b) && multiset(b) == multiset(a[..n])
    {
      b := Insert(b, a[n]);
      assert a[..n + 1] == a[..n] + [a[n]];
    }
    assert a[..|a|] == a;
  }
}
