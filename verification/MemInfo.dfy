/** Model of the bookkeeping in spdk/scripts/dpdk_mem_info.py: heap elements are moved to
    the memzones they hold, and memzones to the mempools they belong to. */
module MemInfo {

  // ---------------------------------------------------------------- entities

  class Memzone {
    const name: string
    const size: nat
    const address: nat

    constructor (name: string, size: nat, address: nat)
      ensures this.name == name && this.size == size && this.address == address
    {
      this.name, this.size, this.address := name, size, address;
    }
  }

  class HeapElement {
    const size: nat
    const addr: nat
    var memzone: Memzone?

    constructor (size: nat, addr: nat)
      ensures this.size == size && this.addr == addr && memzone == null
    {
      this.size, this.addr, memzone := size, addr, null;
    }

    /** Model of `check_memzone_compatibility`. */
    method CheckMemzoneCompatibility(zone: Memzone) returns (r: bool)
      modifies this`memzone
      ensures r <==> Covers(this, zone)
      ensures memzone == if r then zone else old(memzone)
    {
      var eleFiniAddr := addr + size;
      var memzoneFiniAddr := zone.address + zone.size;
      if addr <= zone.address && eleFiniAddr >= memzoneFiniAddr {
        memzone := zone;
        return true;
      }
      return false;
    }
  }

  class Heap {
    var busyMalloc: seq<HeapElement>
    var busyMemzone: seq<HeapElement>
  }

  class Mempool {
    const name: string
    var memzones: seq<Memzone>
  }

  /** The element's address range encloses the zone's. */
  predicate Covers(e: HeapElement, zone: Memzone) {
    e.addr <= zone.address && zone.address + zone.size <= e.addr + e.size
  }

  /** Every address of the zone lies in the element. */
  lemma CoversIff(e: HeapElement, zone: Memzone)
    requires zone.size > 0
    ensures Covers(e, zone) <==> forall a :: InZone(a, zone) ==> e.addr <= a < e.addr + e.size
  {
    assert InZone(zone.address, zone) && InZone(zone.address + zone.size - 1, zone);
  }

  predicate InZone(a: int, zone: Memzone) {
    zone.address <= a < zone.address + zone.size
  }

  // ---------------------------------------------------------------- lists

  /** `list.remove`: drops the first occurrence. */
  function RemoveFirst<T(==)>(s: seq<T>, x: T): seq<T> {
    if s == [] then [] else if s[0] == x then s[1..] else [s[0]] + RemoveFirst(s[1..], x)
  }

  lemma {:induction false} RemoveFirstConserves<T>(s: seq<T>, x: T)
    requires x in s
    ensures multiset(s) == multiset(RemoveFirst(s, x)) + multiset{x}
    ensures |RemoveFirst(s, x)| == |s| - 1
  {
    assert s == [s[0]] + s[1..];
    if s[0] != x {
      RemoveFirstConserves(s[1..], x);
    }
  }

  predicate Distinct<T(==)>(s: seq<T>) {
    forall i, j :: 0 <= i < j < |s| ==> s[i] != s[j]
  }

  lemma {:induction false} RemoveFirstAt<T>(s: seq<T>, i: nat)
    requires Distinct(s) && i < |s|
    ensures RemoveFirst(s, s[i]) == s[..i] + s[i + 1..]
  {
    if i > 0 {
      assert s[0] != s[i];
      RemoveFirstAt(s[1..], i - 1);
      assert s[1..][i - 1] == s[i];
      assert s[..i] == [s[0]] + s[1..][..i - 1];
      assert s[1..][i..] == s[i + 1..];
    }
  }

  // ---------------------------------------------------------------- one sweep

  /** The loop over a heap's elements from position i on: it removes from the list it walks,
      so that each removal makes it pass over the next element. Returns what is left in the
      list and what was taken out. */
  function Sweep(list: seq<HeapElement>, i: nat, zone: Memzone): (r: (seq<HeapElement>, seq<HeapElement>))
    decreases |list| - i
  {
    if i >= |list| then (list, [])
    else if Covers(list[i], zone) then
      RemoveFirstConserves(list, list[i]);
      var rest := Sweep(RemoveFirst(list, list[i]), i + 1, zone);
      (rest.0, [list[i]] + rest.1)
    else Sweep(list, i + 1, zone)
  }

  /** Nothing is lost or duplicated, and what is taken out covers the zone. */
  lemma {:induction false} SweepConserves(list: seq<HeapElement>, i: nat, zone: Memzone)
    ensures var r := Sweep(list, i, zone);
            && multiset(list) == multiset(r.0) + multiset(r.1)
            && (forall e :: e in r.1 ==> Covers(e, zone))
    decreases |list| - i
  {
    if i < |list| {
      if Covers(list[i], zone) {
        RemoveFirstConserves(list, list[i]);
        var rest := Sweep(RemoveFirst(list, list[i]), i + 1, zone);
        SweepConserves(RemoveFirst(list, list[i]), i + 1, zone);
        assert multiset([list[i]] + rest.1) == multiset{list[i]} + multiset(rest.1);
      } else {
        SweepConserves(list, i + 1, zone);
      }
    }
  }

  lemma SweepKeepsMembers(list: seq<HeapElement>, i: nat, zone: Memzone)
    ensures forall e :: e in list <==> e in Sweep(list, i, zone).0 || e in Sweep(list, i, zone).1
  {
    hide Sweep;
    var r := Sweep(list, i, zone);
    SweepConserves(list, i, zone);
    forall e ensures e in list <==> e in r.0 || e in r.1 {
      assert e in list <==> e in multiset(list);
      assert e in r.0 <==> e in multiset(r.0);
      assert e in r.1 <==> e in multiset(r.1);
    }
  }

  /** Model of the innermost loop of `associate_heap_elements_and_memzones`. */
  method SweepHeap(heap: Heap, zone: Memzone)
    modifies heap`busyMalloc, heap`busyMemzone, heap.busyMalloc`memzone
    ensures var r := Sweep(old(heap.busyMalloc), 0, zone);
            heap.busyMalloc == r.0 && heap.busyMemzone == old(heap.busyMemzone) + r.1
    ensures forall e :: e in old(heap.busyMalloc) ==> e.memzone == old(e.memzone) || (e.memzone == zone && Covers(e, zone))
    ensures forall e :: e in Sweep(old(heap.busyMalloc), 0, zone).1 ==> e.memzone == zone
  {
    hide Covers;
    ghost var list, zoned := heap.busyMalloc, heap.busyMemzone;
    ghost var moved: seq<HeapElement> := [];
    var i := 0;
    while i < |heap.busyMalloc|
      invariant i >= 0
      invariant heap.busyMemzone == zoned + moved
      invariant Sweep(list, 0, zone).0 == Sweep(heap.busyMalloc, i, zone).0
      invariant Sweep(list, 0, zone).1 == moved + Sweep(heap.busyMalloc, i, zone).1
      invariant forall e :: e in heap.busyMalloc ==> e in list
      invariant forall e :: e in list ==> e.memzone == old(e.memzone) || (e.memzone == zone && Covers(e, zone))
      invariant forall e :: e in moved ==> e in list && e.memzone == zone
      decreases |heap.busyMalloc| - i
    {
      var element := heap.busyMalloc[i];
      assert element in heap.busyMalloc;
      var fits := element.CheckMemzoneCompatibility(zone);
      if fits {
        RemoveFirstConserves(heap.busyMalloc, element);
        RemoveKeepsMembers(heap.busyMalloc, element);
        heap.busyMemzone := heap.busyMemzone + [element];
        heap.busyMalloc := RemoveFirst(heap.busyMalloc, element);
        moved := moved + [element];
      }
      i := i + 1;
    }
  }

  lemma {:induction false} RemoveKeepsMembers<T>(s: seq<T>, x: T)
    ensures forall y :: y in RemoveFirst(s, x) ==> y in s
  {
    if s != [] {
      RemoveKeepsMembers(s[1..], x);
    }
  }

  // ---------------------------------------------------------------- all zones, all heaps

  /** A heap's two lists after the zones have been swept in turn. */
  function SweepAll(list: seq<HeapElement>, zoned: seq<HeapElement>, zones: seq<Memzone>)
    : (r: (seq<HeapElement>, seq<HeapElement>))
  {
    if zones == [] then (list, zoned)
    else
      var before := SweepAll(list, zoned, zones[..|zones| - 1]);
      var last := Sweep(before.0, 0, zones[|zones| - 1]);
      (last.0, before.1 + last.1)
  }

  /** The element covers the memzone it is associated with. */
  ghost predicate Recorded(e: HeapElement)
    reads e
  {
    e.memzone != null && Covers(e, e.memzone)
  }

  class Memory {
    var heaps: seq<Heap>
    var mempools: seq<Mempool>
    var memzones: seq<Memzone>

    /** Model of `associate_memzones_and_mempools`, its two nests of loops in turn. */
    method AssociateMempools()
      requires Distinct(mempools)
      requires forall p :: p in mempools ==> p.memzones == []
      modifies this`memzones, mempools`memzones
      ensures forall p :: p in mempools ==> p.memzones == Matching(old(memzones), p.name)
      ensures memzones == Unmatched(old(memzones), Names(mempools))
    {
      FillPools();
      EmptyIntoPools();
    }

    method FillPools()
      requires Distinct(mempools)
      requires forall p :: p in mempools ==> p.memzones == []
      modifies mempools`memzones
      ensures forall p :: p in mempools ==> p.memzones == Matching(memzones, p.name)
    {
      hide Contains;
      for b := 0 to |mempools|
        invariant forall p :: p in mempools[..b] ==> p.memzones == Matching(memzones, p.name)
        invariant forall p :: p in mempools[b..] ==> p.memzones == []
      {
        var pool := mempools[b];
        assert mempools[b..] == [pool] + mempools[b + 1..] && mempools[..b + 1] == mempools[..b] + [pool];
        assert pool !in mempools[..b] && pool !in mempools[b + 1..];
        assert memzones[0..] == memzones;
        for z := 0 to |memzones|
          invariant pool.memzones + Matching(memzones[z..], pool.name) == Matching(memzones, pool.name)
          invariant forall p :: p in mempools[..b] ==> p.memzones == Matching(memzones, p.name)
          invariant forall p :: p in mempools[b + 1..] ==> p.memzones == []
        {
          var zone := memzones[z];
          assert memzones[z..][1..] == memzones[z + 1..];
          if Contains(zone.name, pool.name) {
            pool.memzones := pool.memzones + [zone];
          }
        }
      }
      assert mempools[..|mempools|] == mempools;
    }

    method EmptyIntoPools()
      requires forall p :: p in mempools ==> p.memzones == Matching(memzones, p.name)
      modifies this`memzones
      ensures memzones == Unmatched(old(memzones), Names(mempools))
    {
      hide Contains, Matching, Unmatched, RemoveFirst;
      NoNames(memzones);
      ghost var zones := memzones;
      for b := 0 to |mempools|
        invariant memzones == Unmatched(zones, Names(mempools[..b]))
      {
        var pool := mempools[b];
        assert mempools[..b + 1][..b] == mempools[..b];
        RemovePool(zones, Names(mempools[..b]), pool.name);
        ghost var goal := Unmatched(zones, Names(mempools[..b + 1]));
        assert pool.memzones[0..] == pool.memzones;
        for z := 0 to |pool.memzones|
          invariant RemoveEach(memzones, pool.memzones[z..]) == goal
        {
          var zone := pool.memzones[z];
          assert pool.memzones[z..][1..] == pool.memzones[z + 1..];
          if zone in memzones {
            memzones := RemoveFirst(memzones, zone);
          } else {
            RemoveAbsent(memzones, zone);
          }
        }
      }
      assert mempools[..|mempools|] == mempools;
    }

    /** The loop over the heaps for one zone. */
    method SweepHeaps(zone: Memzone, ghost elements: set<HeapElement>)
      requires Distinct(heaps)
      requires forall h, e :: h in heaps && e in h.busyMalloc ==> e in elements
      requires forall h, e :: h in heaps && e in h.busyMemzone ==> Recorded(e)
      modifies heaps`busyMalloc, heaps`busyMemzone, elements`memzone
      ensures forall h :: h in heaps ==>
                h.busyMalloc == Sweep(old(h.busyMalloc), 0, zone).0
                && h.busyMemzone == old(h.busyMemzone) + Sweep(old(h.busyMalloc), 0, zone).1
      ensures heaps == old(heaps) && memzones == old(memzones)
      ensures forall h, e :: h in heaps && e in h.busyMalloc ==> e in elements
      ensures forall h, e :: h in heaps && e in h.busyMemzone ==> Recorded(e)
    {
      hide Sweep, Covers;
      ghost var all := heaps;
      for b := 0 to |heaps|
        invariant heaps == all && memzones == old(memzones)
        invariant forall h :: h in all[..b] ==>
                    h.busyMalloc == Sweep(old(h.busyMalloc), 0, zone).0
                    && h.busyMemzone == old(h.busyMemzone) + Sweep(old(h.busyMalloc), 0, zone).1
        invariant forall h :: h in all[b..] ==> h.busyMalloc == old(h.busyMalloc) && h.busyMemzone == old(h.busyMemzone)
        invariant forall h, e :: h in all && e in h.busyMalloc ==> e in elements
        invariant forall h, e :: h in all && e in h.busyMemzone ==> Recorded(e)
      {
        var heap := heaps[b];
        assert all[b..] == [heap] + all[b + 1..] && all[..b + 1] == all[..b] + [heap];
        assert heap !in all[..b] && heap !in all[b + 1..];
        assert forall h :: h in all ==> h in all[..b] || h == heap || h in all[b + 1..];
        ghost var before := heap.busyMalloc;
        assert forall e :: e in before ==> e in elements;
        SweepHeap(heap, zone);
        SweepKeepsMembers(before, 0, zone);
        SweepConserves(before, 0, zone);
      }
      assert all[..|all|] == all;
    }

    /** Model of `associate_heap_elements_and_memzones`. */
    method AssociateHeapElements(ghost elements: set<HeapElement>)
      requires Distinct(heaps)
      requires forall h, e :: h in heaps && e in h.busyMalloc ==> e in elements
      requires forall h, e :: h in heaps && e in h.busyMemzone ==> Recorded(e)
      modifies heaps`busyMalloc, heaps`busyMemzone, elements`memzone
      ensures heaps == old(heaps) && memzones == old(memzones)
      ensures forall h :: h in heaps ==> Swept(h, old(h.busyMalloc), old(h.busyMemzone), memzones)
      ensures forall h, e :: h in heaps && e in h.busyMemzone ==> Recorded(e)
    {
      hide Sweep, Covers;
      for z := 0 to |memzones|
        invariant heaps == old(heaps) && memzones == old(memzones)
        invariant forall h :: h in heaps ==> Swept(h, old(h.busyMalloc), old(h.busyMemzone), memzones[..z])
        invariant forall h, e :: h in heaps && e in h.busyMalloc ==> e in elements
        invariant forall h, e :: h in heaps && e in h.busyMemzone ==> Recorded(e)
      {
        assert memzones[..z + 1][..z] == memzones[..z];
        SweepHeaps(memzones[z], elements);
      }
      assert memzones[..|memzones|] == memzones;
    }
  }

  ghost predicate Swept(h: Heap, list: seq<HeapElement>, zoned: seq<HeapElement>, zones: seq<Memzone>)
    reads h
  {
    h.busyMalloc == SweepAll(list, zoned, zones).0 && h.busyMemzone == SweepAll(list, zoned, zones).1
  }

  // ---------------------------------------------------------------- conservation

  function TotalSize(list: seq<HeapElement>): nat {
    if list == [] then 0 else list[0].size + TotalSize(list[1..])
  }

  lemma {:induction false} TotalSizeConcat(a: seq<HeapElement>, b: seq<HeapElement>)
    ensures TotalSize(a + b) == TotalSize(a) + TotalSize(b)
  {
    if a == [] {
      assert a + b == b;
    } else {
      assert (a + b)[1..] == a[1..] + b;
      TotalSizeConcat(a[1..], b);
    }
  }

  lemma {:induction false} RemovedSize(s: seq<HeapElement>, x: HeapElement)
    requires x in s
    ensures TotalSize(s) == TotalSize(RemoveFirst(s, x)) + x.size
  {
    if s[0] != x {
      RemovedSize(s[1..], x);
      assert ([s[0]] + RemoveFirst(s[1..], x))[1..] == RemoveFirst(s[1..], x);
    }
  }

  lemma {:induction false} SweepKeepsSize(list: seq<HeapElement>, i: nat, zone: Memzone)
    ensures var r := Sweep(list, i, zone); TotalSize(list) == TotalSize(r.0) + TotalSize(r.1)
    decreases |list| - i
  {
    hide Covers;
    if i < |list| {
      if Covers(list[i], zone) {
        var shorter := RemoveFirst(list, list[i]);
        RemoveFirstConserves(list, list[i]);
        RemovedSize(list, list[i]);
        SweepKeepsSize(shorter, i + 1, zone);
        TotalSizeConcat([list[i]], Sweep(shorter, i + 1, zone).1);
      } else {
        SweepKeepsSize(list, i + 1, zone);
      }
    }
  }

  /** However many zones are swept, a heap's elements and their total size are conserved. */
  lemma {:induction false} AssociationConserves(list: seq<HeapElement>, zoned: seq<HeapElement>, zones: seq<Memzone>)
    ensures var r := SweepAll(list, zoned, zones);
            && multiset(list) + multiset(zoned) == multiset(r.0) + multiset(r.1)
            && TotalSize(list) + TotalSize(zoned) == TotalSize(r.0) + TotalSize(r.1)
  {
    hide Sweep;
    var r := SweepAll(list, zoned, zones);
    if zones != [] {
      var init, last := zones[..|zones| - 1], zones[|zones| - 1];
      var before := SweepAll(list, zoned, init);
      AssociationConserves(list, zoned, init);
      var t := Sweep(before.0, 0, last);
      SweepConserves(before.0, 0, last);
      SweepKeepsSize(before.0, 0, last);
      TotalSizeConcat(before.1, t.1);
    }
  }

  // ---------------------------------------------------------------- what a sweep misses

  /** What a sweep leaves of a list without duplicates: after every element it takes out,
      the next one stays, whether it covers the zone or not. */
  function Left(list: seq<HeapElement>, zone: Memzone): seq<HeapElement> {
    if list == [] then []
    else if !Covers(list[0], zone) then [list[0]] + Left(list[1..], zone)
    else if |list| == 1 then []
    else [list[1]] + Left(list[2..], zone)
  }

  lemma {:induction false} SweepLeaves(list: seq<HeapElement>, i: nat, zone: Memzone)
    requires Distinct(list) && i <= |list|
    ensures Sweep(list, i, zone).0 == list[..i] + Left(list[i..], zone)
    decreases |list| - i
  {
    hide Covers;
    if i < |list| {
      if Covers(list[i], zone) {
        var rest := list[..i] + list[i + 1..];
        RemoveFirstAt(list, i);
        if i + 1 < |list| {
          SweepLeaves(rest, i + 1, zone);
          assert rest[..i + 1] == list[..i] + [list[i + 1]];
          assert rest[i + 1..] == list[i..][2..];
        } else {
          assert rest == list[..i];
        }
      } else {
        SweepLeaves(list, i + 1, zone);
        assert list[..i + 1] == list[..i] + [list[i]];
        assert list[i + 1..] == list[i..][1..];
      }
    }
  }

  ghost predicate NoneCovers(list: seq<HeapElement>, zone: Memzone) {
    forall i :: 0 <= i < |list| ==> !Covers(list[i], zone)
  }

  ghost predicate NoNeighbours(list: seq<HeapElement>, zone: Memzone) {
    forall i :: 0 <= i < |list| - 1 ==> !(Covers(list[i], zone) && Covers(list[i + 1], zone))
  }

  lemma NoneCoversConcat(a: seq<HeapElement>, b: seq<HeapElement>, zone: Memzone)
    ensures NoneCovers(a + b, zone) <==> NoneCovers(a, zone) && NoneCovers(b, zone)
  {
    hide Covers;
    assert forall i :: 0 <= i < |a| ==> a[i] == (a + b)[i];
    assert forall i :: 0 <= i < |b| ==> b[i] == (a + b)[|a| + i];
  }

  lemma NoNeighboursStep(list: seq<HeapElement>, zone: Memzone)
    requires |list| >= 2
    ensures NoNeighbours(list, zone) <==> !(Covers(list[0], zone) && Covers(list[1], zone)) && NoNeighbours(list[1..], zone)
  {
    hide Covers;
    var t := list[1..];
    assert forall i :: 0 <= i < |t| ==> t[i] == list[i + 1];
    if NoNeighbours(list, zone) {
      forall i | 0 <= i < |t| - 1 ensures !(Covers(t[i], zone) && Covers(t[i + 1], zone)) {
        assert t[i] == list[i + 1] && t[i + 1] == list[i + 1 + 1];
      }
    }
    if !(Covers(list[0], zone) && Covers(list[1], zone)) && NoNeighbours(t, zone) {
      forall i | 0 <= i < |list| - 1 ensures !(Covers(list[i], zone) && Covers(list[i + 1], zone)) {
        if i > 0 { assert list[i] == t[i - 1] && list[i + 1] == t[i]; }
      }
    }
  }

  lemma {:induction false} LeftMissesNothingIff(list: seq<HeapElement>, zone: Memzone)
    ensures NoneCovers(Left(list, zone), zone) <==> NoNeighbours(list, zone)
    decreases |list|
  {
    hide Covers, NoneCovers, NoNeighbours;
    if |list| <= 1 {
      ShortList(list, zone);
    } else {
      NoNeighboursStep(list, zone);
      var a := if Covers(list[0], zone) then list[1] else list[0];
      ShortList([a], zone);
      if Covers(list[0], zone) {
        LeftMissesNothingIff(list[2..], zone);
        NoneCoversConcat([a], Left(list[2..], zone), zone);
        assert list[1..][1..] == list[2..];
        if |list| > 2 {
          NoNeighboursStep(list[1..], zone);
        } else {
          ShortList(list[1..], zone);
          ShortList(list[2..], zone);
        }
      } else {
        LeftMissesNothingIff(list[1..], zone);
        NoneCoversConcat([a], Left(list[1..], zone), zone);
      }
    }
  }

  lemma ShortList(list: seq<HeapElement>, zone: Memzone)
    requires |list| <= 1
    ensures NoNeighbours(list, zone)
    ensures NoneCovers(list, zone) <==> list == [] || !Covers(list[0], zone)
    ensures NoneCovers(Left(list, zone), zone)
  {}

  /** A sweep takes out every element that covers the zone exactly when no two of them are
      neighbours in the list. */
  lemma MissesNothingIff(list: seq<HeapElement>, zone: Memzone)
    requires Distinct(list)
    ensures NoneCovers(Sweep(list, 0, zone).0, zone) <==> NoNeighbours(list, zone)
  {
    hide Covers, NoneCovers, NoNeighbours, Sweep, Left;
    SweepLeaves(list, 0, zone);
    assert list[..0] + Left(list[0..], zone) == Left(list, zone) by { assert list[0..] == list; }
    LeftMissesNothingIff(list, zone);
  }

  // ---------------------------------------------------------------- heaps of disjoint elements

  predicate Apart(e: HeapElement, f: HeapElement) {
    e.addr + e.size <= f.addr || f.addr + f.size <= e.addr
  }

  /** No two elements of the list overlap. */
  predicate PairwiseApart(list: seq<HeapElement>) {
    forall i, j :: 0 <= i < j < |list| ==> Apart(list[i], list[j])
  }

  /** Two neighbours that cover a zone: the second is skipped. */
  lemma SecondIsSkipped(a: HeapElement, b: HeapElement, zone: Memzone)
    requires a != b && Covers(a, zone) && Covers(b, zone)
    ensures Sweep([a, b], 0, zone).0 == [b]
  {
    assert RemoveFirst([a, b], a) == [b];
  }

  lemma {:induction false} LeftFacts(list: seq<HeapElement>, zone: Memzone)
    requires Distinct(list) && PairwiseApart(list)
    ensures Distinct(Left(list, zone)) && PairwiseApart(Left(list, zone))
    ensures forall e :: e in Left(list, zone) ==> e in list
    ensures forall e :: e in list && !Covers(e, zone) ==> e in Left(list, zone)
    decreases |list|
  {
    hide Covers, Apart;
    var l := Left(list, zone);
    if list == [] {
    } else if !Covers(list[0], zone) {
      LeftFacts(list[1..], zone);
      forall j | 0 < j < |l| ensures l[0] != l[j] && Apart(l[0], l[j]) {
        assert l[j] == Left(list[1..], zone)[j - 1];
        assert l[j] in list[1..];
      }
    } else if |list| > 1 {
      LeftFacts(list[2..], zone);
      forall j | 0 < j < |l| ensures l[0] != l[j] && Apart(l[0], l[j]) {
        assert l[j] == Left(list[2..], zone)[j - 1];
        assert l[j] in list[2..];
      }
      assert forall e :: e in list ==> e == list[0] || e == list[1] || e in list[2..];
    }
  }

  lemma ApartAreNoNeighbours(list: seq<HeapElement>, zone: Memzone)
    requires PairwiseApart(list) && zone.size > 0
    ensures NoNeighbours(list, zone)
  {}

  /** In a heap whose elements do not overlap, with no empty zone, the sweeps move exactly
      the elements that cover a zone, in spite of the removal during iteration. */
  lemma {:induction false} MovesExactlyHolders(list: seq<HeapElement>, zoned: seq<HeapElement>, zones: seq<Memzone>)
    requires Distinct(list) && PairwiseApart(list)
    requires forall z :: z in zones ==> z.size > 0
    ensures var r := SweepAll(list, zoned, zones);
            && Distinct(r.0) && PairwiseApart(r.0)
            && (forall e :: e in list ==> (e in r.0 <==> forall z :: z in zones ==> !Covers(e, z)))
            && (forall e :: e in r.0 ==> e in list)
  {
    hide Covers, Apart, Sweep, Left, NoNeighbours;
    if zones != [] {
      var init, last := zones[..|zones| - 1], zones[|zones| - 1];
      var before := SweepAll(list, zoned, init);
      assert forall z :: z in init ==> z in zones;
      assert last in zones;
      MovesExactlyHolders(list, zoned, init);
      LeftFacts(before.0, last);
      SweepLeaves(before.0, 0, last);
      var after := Sweep(before.0, 0, last).0;
      assert before.0[0..] == before.0;
      assert after == Left(before.0, last);
      ApartAreNoNeighbours(before.0, last);
      MissesNothingIff(before.0, last);
      forall e | e in list
        ensures e in after <==> forall z :: z in zones ==> !Covers(e, z)
      {
        assert forall z :: z in zones <==> z in init || z == last;
      }
    }
  }

  // ---------------------------------------------------------------- memzones and mempools

  predicate OccursAt(hay: string, needle: string, i: nat) {
    i + |needle| <= |hay| && hay[i..i + |needle|] == needle
  }

  /** `needle in hay` of Python strings. */
  predicate Contains(hay: string, needle: string) {
    exists i :: 0 <= i <= |hay| && OccursAt(hay, needle, i)
  }

  /** A name contains exactly what it can be cut into with something before and behind. */
  lemma ContainsIff(hay: string, needle: string)
    ensures Contains(hay, needle) <==> exists a, b :: hay == a + needle + b
  {
    if Contains(hay, needle) {
      var i :| 0 <= i <= |hay| && OccursAt(hay, needle, i);
      assert hay == hay[..i] + needle + hay[i + |needle|..];
    }
    if exists a, b :: hay == a + needle + b {
      var a, b :| hay == a + needle + b;
      assert OccursAt(hay, needle, |a|);
    }
  }

  /** The zones whose name contains the pool's name, in order. */
  function Matching(zones: seq<Memzone>, name: string): seq<Memzone> {
    if zones == [] then []
    else (if Contains(zones[0].name, name) then [zones[0]] else []) + Matching(zones[1..], name)
  }

  /** How many of the names the zone's name contains. */
  function Matches(zone: Memzone, names: seq<string>): nat {
    if names == [] then 0
    else Matches(zone, names[..|names| - 1]) + (if Contains(zone.name, names[|names| - 1]) then 1 else 0)
  }

  /** The zones that match none of the names, in order. */
  function Unmatched(zones: seq<Memzone>, names: seq<string>): seq<Memzone> {
    if zones == [] then []
    else (if Matches(zones[0], names) > 0 then [] else [zones[0]]) + Unmatched(zones[1..], names)
  }

  /** Removal of the elements of xs, one after the other. */
  function RemoveEach(list: seq<Memzone>, xs: seq<Memzone>): seq<Memzone>
    decreases |xs|
  {
    if xs == [] then list else RemoveEach(RemoveFirst(list, xs[0]), xs[1..])
  }

  lemma {:induction false} RemoveAbsent(s: seq<Memzone>, x: Memzone)
    requires x !in s
    ensures RemoveFirst(s, x) == s
  {
    if s != [] { RemoveAbsent(s[1..], x); }
  }

  lemma {:induction false} RemoveEachKeepsHead(z: Memzone, list: seq<Memzone>, xs: seq<Memzone>)
    requires z !in xs
    ensures RemoveEach([z] + list, xs) == [z] + RemoveEach(list, xs)
    decreases |xs|
  {
    if xs != [] {
      assert ([z] + list)[1..] == list;
      RemoveEachKeepsHead(z, RemoveFirst(list, xs[0]), xs[1..]);
    }
  }

  lemma {:induction false} MatchingMembers(zones: seq<Memzone>, name: string, z: Memzone)
    requires z in Matching(zones, name)
    ensures z in zones && Contains(z.name, name)
  {
    hide Contains;
    if z in Matching(zones[1..], name) {
      MatchingMembers(zones[1..], name, z);
    }
  }

  lemma {:induction false} UnmatchedMembers(zones: seq<Memzone>, names: seq<string>, z: Memzone)
    ensures z in Unmatched(zones, names) <==> z in zones && Matches(z, names) == 0
  {
    hide Matches;
    if zones != [] {
      UnmatchedMembers(zones[1..], names, z);
    }
  }

  /** Removing a further pool's zones from those left so far. */
  lemma {:induction false} RemovePool(zones: seq<Memzone>, names: seq<string>, name: string)
    ensures RemoveEach(Unmatched(zones, names), Matching(zones, name)) == Unmatched(zones, names + [name])
  {
    hide Matches, Contains;
    if zones != [] {
      var z, t := zones[0], zones[1..];
      RemovePool(t, names, name);
      OneMoreName(z, names, name);
      assert [] + Unmatched(t, names) == Unmatched(t, names);
      assert [] + Matching(t, name) == Matching(t, name);
      if Matches(z, names) == 0 && Contains(z.name, name) {
        assert ([z] + Unmatched(t, names))[1..] == Unmatched(t, names);
        assert ([z] + Matching(t, name))[1..] == Matching(t, name);
      } else if Matches(z, names) == 0 {
        if z in Matching(t, name) { MatchingMembers(t, name, z); }
        RemoveEachKeepsHead(z, Unmatched(t, names), Matching(t, name));
      } else if Contains(z.name, name) {
        UnmatchedMembers(t, names, z);
        RemoveAbsent(Unmatched(t, names), z);
        assert ([z] + Matching(t, name))[1..] == Matching(t, name);
      }
    }
  }

  lemma OneMoreName(z: Memzone, names: seq<string>, name: string)
    ensures Matches(z, names + [name]) == Matches(z, names) + (if Contains(z.name, name) then 1 else 0)
  {
    hide Contains;
    assert (names + [name])[..|names|] == names;
  }

  lemma {:induction false} NoNames(zones: seq<Memzone>)
    ensures Unmatched(zones, []) == zones
  {
    if zones != [] { NoNames(zones[1..]); }
  }

  function Names(pools: seq<Mempool>): (n: seq<string>)
    ensures |n| == |pools|
  {
    if pools == [] then [] else Names(pools[..|pools| - 1]) + [pools[|pools| - 1].name]
  }

  // ---------------------------------------------------------------- sizes of zones and pools

  function ZoneSize(zones: seq<Memzone>): nat {
    if zones == [] then 0 else zones[0].size + ZoneSize(zones[1..])
  }

  /** Total of the pools after the association. */
  function PoolSize(zones: seq<Memzone>, names: seq<string>): nat {
    if names == [] then 0 else PoolSize(zones, names[..|names| - 1]) + ZoneSize(Matching(zones, names[|names| - 1]))
  }

  /** Size counted more than once, because a zone went to several pools. */
  function Excess(zones: seq<Memzone>, names: seq<string>): nat {
    if zones == [] then 0
    else (if Matches(zones[0], names) > 1 then (Matches(zones[0], names) - 1) * zones[0].size else 0) + Excess(zones[1..], names)
  }

  lemma ZoneSizeStep(z: Memzone, t: seq<Memzone>, keep: bool)
    ensures ZoneSize((if keep then [z] else []) + t) == (if keep then z.size else 0) + ZoneSize(t)
  {
    assert ([z] + t)[1..] == t;
    assert [] + t == t;
  }

  lemma {:induction false} PoolSizeStep(z: Memzone, t: seq<Memzone>, names: seq<string>)
    ensures PoolSize([z] + t, names) == PoolSize(t, names) + Matches(z, names) * z.size
    decreases |names|
  {
    hide Contains;
    if names != [] {
      var init, name := names[..|names| - 1], names[|names| - 1];
      PoolSizeStep(z, t, init);
      assert ([z] + t)[1..] == t;
      ZoneSizeStep(z, Matching(t, name), Contains(z.name, name));
      assert (Matches(z, init) + 1) * z.size == Matches(z, init) * z.size + z.size;
    }
  }

  /** Pools and remaining zones together hold the size of all zones plus the excess. */
  lemma {:induction false} SizeAccount(zones: seq<Memzone>, names: seq<string>)
    ensures PoolSize(zones, names) + ZoneSize(Unmatched(zones, names)) == ZoneSize(zones) + Excess(zones, names)
  {
    hide Matches;
    if zones == [] {
      NothingPooled(names);
    } else {
      var z, t := zones[0], zones[1..];
      assert zones == [z] + t;
      SizeAccount(t, names);
      PoolSizeStep(z, t, names);
      ZoneSizeStep(z, Unmatched(t, names), Matches(z, names) == 0);
      assert (Matches(z, names) - 1) * z.size == Matches(z, names) * z.size - z.size;
    }
  }

  lemma {:induction false} NothingPooled(names: seq<string>)
    ensures PoolSize([], names) == 0
  {
    if names != [] { NothingPooled(names[..|names| - 1]); }
  }

  lemma {:induction false} NoExcessIff(zones: seq<Memzone>, names: seq<string>)
    ensures Excess(zones, names) == 0 <==> forall z :: z in zones ==> z.size == 0 || Matches(z, names) <= 1
  {
    hide Matches;
    if zones != [] {
      var z := zones[0];
      NoExcessIff(zones[1..], names);
      assert forall y :: y in zones <==> y == z || y in zones[1..];
      if Matches(z, names) > 1 && z.size > 0 {
        Positive(Matches(z, names) - 1, z.size);
      }
    }
  }

  lemma Positive(a: nat, b: nat)
    requires a > 0 && b > 0
    ensures a * b > 0
  {}

  /** The association conserves the total size exactly when no zone with a size matches
      more than one pool. */
  lemma SizeConservedIff(zones: seq<Memzone>, names: seq<string>)
    ensures PoolSize(zones, names) + ZoneSize(Unmatched(zones, names)) == ZoneSize(zones)
            <==> forall z :: z in zones ==> z.size == 0 || Matches(z, names) <= 1
  {
    hide *;
    SizeAccount(zones, names);
    NoExcessIff(zones, names);
  }

  lemma OneZone(z: Memzone, p: string)
    requires Contains(z.name, p)
    ensures ZoneSize(Matching([z], p)) == z.size
  {
    hide Contains;
    assert [z][1..] == [];
    assert Matching([z], p) == [z] + Matching([], p);
    assert ZoneSize([z]) == z.size + ZoneSize([]);
  }

  lemma TwoPools(z: Memzone, p: string, q: string)
    requires Contains(z.name, p) && Contains(z.name, q)
    ensures PoolSize([z], [p, q]) + ZoneSize(Unmatched([z], [p, q])) == 2 * z.size
  {
    hide Contains;
    var one, two := [p], [p, q];
    assert two[..1] == one && one[..0] == [] && [z][1..] == [];
    OneZone(z, p);
    OneZone(z, q);
    assert PoolSize([z], one) == PoolSize([z], []) + z.size;
    assert Matches(z, one) == 1 && Matches(z, two) == 2;
  }

  /** One pool's name is the beginning of another's: the zone counts for both. */
  lemma CountedTwice(z: Memzone)
    requires z.name == "MP_ab"
    ensures PoolSize([z], ["MP_a", "MP_ab"]) + ZoneSize(Unmatched([z], ["MP_a", "MP_ab"])) == 2 * z.size
  {
    assert OccursAt(z.name, "MP_a", 0) && OccursAt(z.name, "MP_ab", 0);
    TwoPools(z, "MP_a", "MP_ab");
  }
}
