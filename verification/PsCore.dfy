/**
 The handle of a core file: the maps as they are added, the index over them, lookup, and reads that
 span maps.
 */
module PsCore {
  import opened Bits
  import opened Options
  import opened PsMaps
  import opened PsImage

  method Store(buf: array<Byte>, p: nat, data: seq<Byte>)
    requires p + |data| <= buf.Length
    modifies buf
    ensures buf[..p + |data|] == old(buf[..p]) + data
    ensures forall j | p + |data| <= j < buf.Length :: buf[j] == old(buf[j])
  {
    for i := 0 to |data|
      invariant buf[..p] == old(buf[..p]) && buf[p..p + i] == data[..i]
      invariant forall j | p + i <= j < buf.Length :: buf[j] == old(buf[j])
    {
      buf[p + i] := data[i];
    }
  }

  lemma IndexBehind(a: seq<MapInfo>, maps: seq<MapInfo>, m: MapInfo)
    requires multiset(a) <= multiset(maps)
    ensures multiset(a) <= multiset([m] + maps) && multiset(a) != multiset([m] + maps)
    ensures multiset(a) == multiset(maps) ==> |a| == |maps|
  {
    SubsetSize(a, maps);
    assert multiset([m] + maps) == multiset{m} + multiset(maps);
    assert |multiset(a)| == |a| && |multiset([m] + maps)| == |maps| + 1 && |multiset(maps)| == |maps|;
  }

  /** What a lookup comes to: a read of the index outside its bounds, or an answer. */
  datatype Answer = OutOfBounds | Answer(found: Option<MapInfo>)

  class CoreData {
    const files: Files
    const page: nat
    var maps: seq<MapInfo>
    var numMaps: nat
    var mapArray: seq<MapInfo>
    var classShareMaps: seq<MapInfo>

    constructor (files: Files, page: nat)
      ensures this.files == files && this.page == page && Valid()
      ensures maps == [] && classShareMaps == []
    {
      this.files, this.page := files, page;
      maps, numMaps, mapArray, classShareMaps := [], 0, [], [];
    }

    predicate Valid()
      reads this
    {
      numMaps == |maps| && SortedByAddress(mapArray) && multiset(mapArray) <= multiset(maps)
    }

    /** The index was built after the last map was added. */
    ghost predicate Fresh()
      reads this
    {
      Valid() && multiset(mapArray) == multiset(maps)
    }

    function All(): seq<MapInfo>
      reads this
    {
      maps + classShareMaps
    }

    /** add_map_info: a new map goes to the front of the list.  The index is out of date then: it
        does not have the map, and lookups from the start of its last map on read past its end. */
    method AddMapInfo(fd: int, offset: nat, vaddr: U64, memsz: U64)
      requires Valid()
      modifies this`maps, this`numMaps
      ensures Valid() && maps == [MapInfo(fd, offset, vaddr, memsz)] + old(maps)
      ensures !Fresh()
      ensures old(Fresh()) && |mapArray| >= 2 ==> forall addr: U64 ::
                StaysInside(mapArray, numMaps, addr) <==> addr < mapArray[|mapArray| - 1].vaddr
    {
      hide SortedByAddress;
      hide StaysInside;
      IndexBehind(mapArray, maps, MapInfo(fd, offset, vaddr, memsz));
      maps := [MapInfo(fd, offset, vaddr, memsz)] + maps;
      numMaps := numMaps + 1;
      if old(Fresh()) && |mapArray| >= 2 {
        forall addr: U64
          ensures StaysInside(mapArray, numMaps, addr) <==> addr < mapArray[|mapArray| - 1].vaddr
        {
          OneMissing(mapArray, addr);
        }
      }
    }

    /** add_class_share_map_info: unlike a normal map it leaves the index as good as it was, is asked
        only where the index has no answer, and comes before the class share maps added earlier. */
    method AddClassShareMapInfo(fd: int, offset: nat, vaddr: U64, memsz: U64)
      modifies this`classShareMaps
      ensures classShareMaps == [MapInfo(fd, offset, vaddr, memsz)] + old(classShareMaps)
      ensures old(Fresh()) ==> Fresh()
      ensures forall addr: U64 | InIndex(mapArray, addr) || !Contains(classShareMaps[0], addr) ::
                IndexLookup(mapArray, classShareMaps, addr) == IndexLookup(mapArray, old(classShareMaps), addr)
      ensures forall addr: U64 | !InIndex(mapArray, addr) && Contains(classShareMaps[0], addr) ::
                IndexLookup(mapArray, classShareMaps, addr) == Some(classShareMaps[0])
    {
      classShareMaps := [MapInfo(fd, offset, vaddr, memsz)] + classShareMaps;
      assert classShareMaps[1..] == old(classShareMaps);
    }

    /** sort_map_array */
    method SortMapArray()
      requires Valid()
      modifies this`mapArray
      ensures Valid() && Fresh()
    {
      var arr := [];
      for i := 0 to |maps|
        invariant arr == maps[..i]
      {
        arr := arr + [maps[i]];
      }
      assert arr == maps;
      mapArray := QSort(arr);
      assert |multiset(mapArray)| == |multiset(maps)|;
    }

    /** core_lookup: binary search in the index, then the class share maps.  Says exactly when the
        search leaves an index that is shorter than the number of maps, and agrees with a linear
        search of the lists whenever the index is fresh and the normal maps are separate. */
    method Lookup(addr: U64) returns (r: Answer)
      requires Valid()
      ensures r.OutOfBounds? <==> !StaysInside(mapArray, numMaps, addr)
      ensures r.Answer? ==> r.found == IndexLookup(mapArray, classShareMaps, addr)
      ensures r.Answer? && r.found.Some? ==> r.found.value in All() && Contains(r.found.value, addr)
      ensures Fresh() && numMaps > 0 ==> r.Answer?
      ensures Fresh() && numMaps > 0 && Separate(maps) ==> r.found == LinearLookup(maps, classShareMaps, addr)
    {
      hide Contains;
      hide Separate;
      hide FirstContaining;
      hide StaysInside;
      hide SortedByAddress;
      SubsetSize(mapArray, maps);
      if Fresh() { FreshStaysInside(mapArray, maps, addr); }
      var k := Search(mapArray, numMaps, addr);
      if k.None? { return OutOfBounds; }
      var mp := mapArray[k.value];
      assert mp in multiset(mapArray);
      if Fresh() && Separate(maps) { SearchAgrees(maps, mapArray, addr); }
      if Contains(mp, addr) { return Answer(Some(mp)); }
      var m := FirstShare(classShareMaps, addr);
      FirstContainingSound(classShareMaps, addr);
      return Answer(m);
    }

    /** The zeros for the rest of the last page of m. */
    method FillTail(m: MapInfo, a: U64, buf: array<Byte>, p: nat, resid: nat) returns (a': U64, p': nat, resid': nat)
      requires page > 0 && p + resid <= buf.Length
      modifies buf
      ensures var n := Min(resid, TailSize(m, page));
              && p' == p + n && resid' == resid - n && a' == (a + n) % TWO64
              && buf[..p'] == old(buf[..p]) + Zeros(n)
      ensures forall j | p' <= j < buf.Length :: buf[j] == old(buf[j])
    {
      hide Fraction;
      var rem := Fraction(m, page);
      if rem > 0 {
        rem := page - rem;
        var len := Min(resid, rem);
        Store(buf, p, Zeros(len));
        resid', a', p' := resid - len, (a + len) % TWO64, p + len;
      } else {
        a', p', resid' := a, p, resid;
      }
    }

    /** One round of the read loop, after the lookup: a chunk of m and the rest of its last page. */
    method ReadFrom(m: MapInfo, a: U64, buf: array<Byte>, p: nat, resid: nat)
      returns (stop: bool, a': U64, p': nat, resid': nat)
      requires page > 0 && Contains(m, a) && p + resid <= buf.Length
      modifies buf
      ensures var r := Round(files, page, m, a, resid);
              && (stop <==> r == [])
              && p' == p + |r| && resid' == resid - |r| && a' == (a + |r|) % TWO64
              && buf[..p'] == old(buf[..p]) + r
      ensures forall j | p' <= j < buf.Length :: buf[j] == old(buf[j])
    {
      hide Pread;
      hide TailSize;
      a', p', resid' := a, p, resid;
      var len := Min(resid, m.memsz - (a - m.vaddr));
      var data := Pread(files, m.fd, len, m.offset + (a - m.vaddr));
      assert data == Fetched(files, m, a, resid);
      hide Contains;
      if data == [] { return true, a', p', resid'; }
      stop := false;
      Store(buf, p, data);
      resid', a', p' := resid - |data|, (a + |data|) % TWO64, p + |data|;
      WrapTwice(a, |data|, Min(resid', TailSize(m, page)));
      a', p', resid' := FillTail(m, a', buf, p', resid');
      assert old(buf[..p]) + data + Zeros(Min(resid - |data|, TailSize(m, page)))
          == old(buf[..p]) + Round(files, page, m, a, resid);
    }

    /** core_read_data: the buffer gets exactly the bytes of Reading, on any maps and files, and the
        read succeeds if they are as many as asked for.  On layered maps success with the image
        happens exactly when the range starts in a map and every byte of it has an image, and
        success means the image unless the file of a map is too short for it. */
    method ReadData(addr: U64, buf: array<Byte>, size: nat) returns (ok: bool)
      requires Fresh() && numMaps > 0 && page > 0 && size <= buf.Length
      modifies buf
      ensures var r := Reading(mapArray, classShareMaps, files, page, addr, size);
              && (ok <==> |r| == size)
              && buf[..|r|] == r
              && forall j | |r| <= j < buf.Length :: buf[j] == old(buf[j])
      ensures Layered(maps, classShareMaps, page) ==>
                (ok && IsImage(All(), files, page, addr, buf[..size]) <==>
                   size == 0 || (FirstContaining(All(), addr).Some? && HasImage(All(), files, page, addr, size)))
      ensures Layered(maps, classShareMaps, page) && NoShortFound(All(), files, page) && ok ==>
                IsImage(All(), files, page, addr, buf[..size])
      ensures Layered(maps, classShareMaps, page) && Covered(All(), files) ==>
                (ok <==> size == 0
                         || (FirstContaining(All(), addr).Some? && HasImage(All(), files, page, addr, size)))
    {
      hide Image;
      hide Covered;
      hide Layered;
      hide FirstContaining;
      hide SortedByAddress;
      hide Separate;
      hide LinearLookup;
      hide Round;
      hide Contains;
      hide IndexLookup;
      hide NoShortFound;
      assert Indexes(mapArray, maps) by {
        assert |multiset(mapArray)| == |multiset(maps)|;
      }
      ghost var whole := Reading(mapArray, classShareMaps, files, page, addr, size);
      var resid: nat, a: U64, p: nat := size, addr, 0;
      while resid != 0
        invariant p + resid == size && forall j | p <= j < buf.Length :: buf[j] == old(buf[j])
        invariant whole == buf[..p] + Reading(mapArray, classShareMaps, files, page, a, resid)
        decreases resid
      {
        var answer := Lookup(a);
        var mp := answer.found;
        if mp.None? { break; }
        var stop;
        stop, a, p, resid := ReadFrom(mp.value, a, buf, p, resid);
        if stop { break; }
      }
      ok := resid == 0;
      if Layered(maps, classShareMaps, page) {
        ReadingExact(maps, classShareMaps, mapArray, files, page, addr, size);
        if Covered(All(), files) { CoveredNoShort(All(), files, page); }
        if NoShortFound(All(), files, page) {
          ReadingHonest(maps, classShareMaps, mapArray, files, page, addr, size);
        }
      }
    }
  }

  lemma WrapTwice(a: nat, m: nat, n: nat)
    ensures ((a + m) % TWO64 + n) % TWO64 == (a + m + n) % TWO64
  {
  }
}
