/** The physical page allocator with its fixed table of free regions (kernel/mm/pmm.c). */
module PageAllocators {
  import opened Basics
  import opened FreeLists

  /** An entry of the boot loader's memory map. */
  datatype Entry = Entry(base: nat, length: nat, usable: bool)

  function EntryRegion(e: Entry): Region {
    Region(e.base, e.length / PAGE_SIZE)
  }

  /** The usable regions of a memory map, in its order. */
  function UsableRegions(memmap: seq<Entry>): seq<Region> {
    if |memmap| == 0 then []
    else
      var e := memmap[|memmap| - 1];
      UsableRegions(memmap[..|memmap| - 1]) + if e.usable then [EntryRegion(e)] else []
  }

  class PageAllocator {
    const regions: array<Region>
    var count: nat

    ghost predicate Valid()
      reads this, regions
    {
      regions.Length == MAX_REGIONS && count <= MAX_REGIONS
    }

    ghost function List(): seq<Region>
      requires Valid()
      reads this, regions
    {
      regions[..count]
    }

    /** The zeroed static table. */
    constructor ()
      ensures Valid() && List() == [] && fresh(regions)
    {
      regions := new Region[MAX_REGIONS](_ => Region(0, 0));
      count := 0;
    }

    /** `add_free_region`; false if the machine halts because the table is full. */
    method AddFreeRegion(start: nat, pages: nat) returns (ok: bool)
      requires Valid()
      modifies this, regions
      ensures Valid()
      ensures ok <==> old(count) < MAX_REGIONS
      ensures List() == if ok then old(List()) + [Region(start, pages)] else old(List())
    {
      if count >= MAX_REGIONS {
        return false;
      }
      regions[count] := Region(start, pages);
      count := count + 1;
      return true;
    }

    /** `FreelistPMMInit`; false if the machine halts because the table is full. */
    method Init(memmap: seq<Entry>) returns (ok: bool)
      requires Valid()
      modifies this, regions
      ensures Valid()
      ensures ok <==> old(count) + |UsableRegions(memmap)| <= MAX_REGIONS
      ensures ok ==> List() == old(List()) + UsableRegions(memmap)
      ensures ok <==> old(count) + UsableCount(memmap) <= 256
      ensures ok && old(List()) == [] && UsableAligned(memmap) ==>
        TotalPages(List()) == WholePages(memmap) && forall p: nat :: p in Pages(List()) <==> PageUsable(memmap, p)
    {
      hide Pages, TotalPages, PageUsable, UsableAligned, WholePages;
      UsableSizes(memmap);
      var i := 0;
      while i < |memmap|
        invariant i <= |memmap| && Valid()
        invariant List() == old(List()) + UsableRegions(memmap[..i])
      {
        assert memmap[..i + 1][..i] == memmap[..i];
        if memmap[i].usable {
          var end := memmap[i].base + memmap[i].length;
          ok := AddFreeRegion(memmap[i].base, (end - memmap[i].base) / PAGE_SIZE);
          if !ok {
            UsableGrows(memmap, i + 1);
            return false;
          }
        }
        i := i + 1;
      }
      assert memmap[..i] == memmap;
      assert [] + UsableRegions(memmap) == UsableRegions(memmap);
      if UsableAligned(memmap) {
        forall p: nat ensures p in Pages(UsableRegions(memmap)) <==> PageUsable(memmap, p) {
          UsablePagesAre(memmap, p);
        }
      }
      return true;
    }

    /** `allocate`: first fit; None if the machine halts. */
    method Allocate(n: nat) returns (block: Option<nat>)
      requires Valid()
      modifies this, regions
      ensures Valid() && count == old(count)
      ensures block.None? <==> FirstFit(old(List()), n).None?
      ensures block.None? ==> List() == old(List())
      ensures block.Some? ==> List() == Taken(old(List()), n) && block.value == Block(old(List()), n).start
      ensures block.None? <==> forall i :: 0 <= i < old(count) ==> old(List())[i].pages < n
      ensures block.Some? ==> exists i :: 0 <= i < old(count) && TakenFrom(old(List()), n, i, block.value, List())
    {
      ghost var list := List();
      var i := 0;
      while i < count
        invariant i <= count && List() == list
        invariant forall j :: 0 <= j < i ==> list[j].pages < n
        invariant FirstFitFrom(list, n, i) == FirstFit(list, n)
      {
        if regions[i].pages >= n {
          var start := regions[i].start;
          regions[i] := Region(start + n * PAGE_SIZE, regions[i].pages - n);
          assert List() == list[i := Rest(list[i], n)];
          assert TakenFrom(list, n, i, start, List());
          return Some(start);
        }
        i := i + 1;
      }
      return None;
    }

    /** `deallocate`, while the table has at least one region and room for another. */
    method Deallocate(addr: nat, n: nat)
      requires Valid() && 1 <= count < MAX_REGIONS
      modifies this, regions
      ensures Valid()
      ensures List() == Deallocated(old(List()), addr, n)
    {
      hide RegionIndex, Merged;
      ghost var list := List();
      var index := FindRegion(addr);
      if index > 0 && addr == regions[index - 1].start + regions[index - 1].pages * PAGE_SIZE {
        regions[index - 1] := Region(regions[index - 1].start, regions[index - 1].pages + n);
        assert List() == list[index - 1 := Grown(list[index - 1], n)];
      } else if index < count - 1 && addr + n * PAGE_SIZE == regions[index + 1].start {
        regions[index] := Region(regions[index].start, regions[index].pages + (n + regions[index + 1].pages));
        ghost var grown := list[index := Grown(list[index], n + list[index + 1].pages)];
        assert List() == grown;
        RemoveAt(index + 1);
        MergedParts(list, index, n);
      } else {
        InsertAt(index, Region(addr, n));
      }
    }

    /** The search loop of `deallocate`. */
    method FindRegion(addr: nat) returns (index: nat)
      requires Valid()
      ensures index == RegionIndex(List(), addr)
    {
      index := 0;
      var i := 0;
      while i < count
        invariant i <= count && index == if i == 0 then 0 else i - 1
        invariant forall j :: 0 <= j < i ==> regions[j].start < addr
        invariant Below(List(), addr, i) == Below(List(), addr, 0)
      {
        if addr > regions[i].start {
          index := i;
        } else {
          break;
        }
        i := i + 1;
      }
    }

    /** Later regions move down by one over region `k`. */
    method RemoveAt(k: nat)
      requires Valid() && k < count
      modifies this, regions
      ensures Valid()
      ensures List() == old(List())[..k] + old(List())[k + 1..]
    {
      ghost var list := List();
      var i := k;
      while i < count - 1
        invariant k <= i <= count - 1 && count == old(count)
        invariant forall j :: k <= j < i ==> regions[j] == list[j + 1]
        invariant forall j :: 0 <= j < count && (j < k || i <= j) ==> regions[j] == list[j]
      {
        regions[i] := regions[i + 1];
        i := i + 1;
      }
      count := count - 1;
      assert List() == list[..k] + list[k + 1..];
    }

    /** Insertion: later regions move up by one. */
    method InsertAt(k: nat, b: Region)
      requires Valid() && k <= count < MAX_REGIONS
      modifies this, regions
      ensures Valid()
      ensures List() == InsertedAt(old(List()), k, b)
    {
      ghost var list := List();
      OpenGap(k);
      regions[k] := b;
      count := count + 1;
      assert List() == InsertedAt(list, k, b);
    }

    /** Regions from `k` on move up by one. */
    method OpenGap(k: nat)
      requires Valid() && k <= count < MAX_REGIONS
      modifies regions
      ensures Valid()
      ensures forall j :: 0 <= j < k ==> regions[j] == old(regions[j])
      ensures forall j :: k < j <= count ==> regions[j] == old(regions[j - 1])
    {
      var i := count;
      while i > k
        invariant k <= i <= count
        invariant forall j :: 0 <= j < regions.Length ==>
          regions[j] == old(if i < j <= count then regions[j - 1] else regions[j])
      {
        regions[i] := regions[i - 1];
        i := i - 1;
      }
    }
  }

  /** `n` pages were taken from the front of region `i`, the first that has so many. */
  ghost predicate TakenFrom(list: seq<Region>, n: nat, i: nat, block: nat, after: seq<Region>)
    requires i < |list|
  {
    && list[i].pages >= n && (forall j :: 0 <= j < i ==> list[j].pages < n)
    && block == list[i].start
    && after == list[i := Region(list[i].start + n * 4096, list[i].pages - n)]
  }

  // ---- What usable memory is

  /** All of page `p` lies in a usable entry. */
  ghost predicate PageUsable(memmap: seq<Entry>, p: nat) {
    exists i :: 0 <= i < |memmap| && memmap[i].usable && PageInside(memmap[i], p)
  }

  predicate PageInside(e: Entry, p: nat) {
    e.base <= p * 4096 && (p + 1) * 4096 <= e.base + e.length
  }

  predicate UsableAligned(memmap: seq<Entry>) {
    forall i :: 0 <= i < |memmap| && memmap[i].usable ==> memmap[i].base % 4096 == 0
  }

  function UsableCount(memmap: seq<Entry>): nat {
    if |memmap| == 0 then 0 else UsableCount(memmap[..|memmap| - 1]) + if memmap[|memmap| - 1].usable then 1 else 0
  }

  /** The whole pages of the usable entries. */
  function WholePages(memmap: seq<Entry>): nat {
    if |memmap| == 0 then 0
    else
      var e := memmap[|memmap| - 1];
      WholePages(memmap[..|memmap| - 1]) + if e.usable then e.length / 4096 else 0
  }

  lemma {:induction false} UsableSizes(memmap: seq<Entry>)
    ensures |UsableRegions(memmap)| == UsableCount(memmap)
    ensures TotalPages(UsableRegions(memmap)) == WholePages(memmap)
  {
    if |memmap| > 0 {
      var front, e := memmap[..|memmap| - 1], memmap[|memmap| - 1];
      UsableSizes(front);
      assert UsableRegions(front) + [] == UsableRegions(front);
      TotalConcat(UsableRegions(front), if e.usable then [EntryRegion(e)] else []);
      TotalOne(EntryRegion(e));
    }
  }

  /** The free list of a memory map covers exactly the pages that lie in usable entries. */
  lemma {:induction false} UsablePagesAre(memmap: seq<Entry>, p: nat)
    requires UsableAligned(memmap)
    ensures p in Pages(UsableRegions(memmap)) <==> PageUsable(memmap, p)
  {
    hide PageInside, Holds;
    if |memmap| > 0 {
      var front, e := memmap[..|memmap| - 1], memmap[|memmap| - 1];
      UsablePagesAre(front, p);
      assert PageUsable(memmap, p) <==> PageUsable(front, p) || (e.usable && PageInside(e, p)) by {
        if e.usable && PageInside(e, p) {
          assert memmap[|memmap| - 1].usable;
        }
        if PageUsable(front, p) {
          var i :| 0 <= i < |front| && front[i].usable && PageInside(front[i], p);
          assert memmap[i].usable && PageInside(memmap[i], p);
        }
        if PageUsable(memmap, p) {
          var i :| 0 <= i < |memmap| && memmap[i].usable && PageInside(memmap[i], p);
          assert i < |front| ==> front[i].usable && PageInside(front[i], p);
        }
      }
      RegionOfEntry(memmap, p);
    }
  }

  lemma RegionOfEntry(memmap: seq<Entry>, p: nat)
    requires |memmap| >= 1 && UsableAligned(memmap)
    ensures var front, e := memmap[..|memmap| - 1], memmap[|memmap| - 1];
      p in Pages(UsableRegions(memmap)) <==> p in Pages(UsableRegions(front)) || (e.usable && PageInside(e, p))
  {
    hide Pages;
    var front, e := memmap[..|memmap| - 1], memmap[|memmap| - 1];
    var before, list := UsableRegions(front), UsableRegions(memmap);
    if e.usable {
      assert Holds(EntryRegion(e), p) <==> PageInside(e, p);
      assert list == before + [EntryRegion(e)];
      LastRegion(before, EntryRegion(e), p);
    } else {
      assert list == before;
    }
  }

  lemma LastRegion(list: seq<Region>, r: Region, p: nat)
    ensures p in Pages(list + [r]) <==> p in Pages(list) || Holds(r, p)
  {
    assert (list + [r])[..|list|] == list;
  }

  /** Growing a region and removing the next one. */
  lemma MergedParts(list: seq<Region>, i: nat, n: nat)
    requires i + 1 < |list|
    ensures var grown := list[i := Grown(list[i], n + list[i + 1].pages)];
      grown[..i + 1] + grown[i + 2..] == Merged(list, i, n)
  {
  }

  lemma {:induction false} UsableGrows(memmap: seq<Entry>, i: nat)
    requires i <= |memmap|
    ensures |UsableRegions(memmap[..i])| <= |UsableRegions(memmap)|
    decreases |memmap|
  {
    if i < |memmap| {
      var front := memmap[..|memmap| - 1];
      assert memmap[..i] == front[..i];
      UsableGrows(front, i);
    } else {
      assert memmap[..i] == memmap;
    }
  }
}
