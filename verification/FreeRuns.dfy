/** Mixed runs of allocations and returns, and the order of the free list (kernel/mm/pmm.c). */
module FreeRuns {
  import opened Basics
  import opened FreeLists

  // ---- Counting shows disjointness

  lemma PagesOfConcat(a: seq<Region>, b: seq<Region>, p: nat)
    ensures p in Pages(a + b) <==> p in Pages(a) || p in Pages(b)
  {
    hide Pages;
    PagesAre(a, p);
    PagesAre(b, p);
    PagesAre(a + b, p);
    if i :| 0 <= i < |a| && Holds(a[i], p) {
      assert Holds((a + b)[i], p);
    }
    if i :| 0 <= i < |b| && Holds(b[i], p) {
      assert Holds((a + b)[|a| + i], p);
    }
    if i :| 0 <= i < |a + b| && Holds((a + b)[i], p) {
      assert if i < |a| then Holds(a[i], p) else Holds(b[i - |a|], p);
    }
  }

  lemma {:induction false} PagesAtMost(list: seq<Region>)
    ensures |Pages(list)| <= TotalPages(list)
  {
    if |list| > 0 {
      var front, last := list[..|list| - 1], list[|list| - 1];
      PagesAtMost(front);
      RegionSize(last);
    }
  }

  lemma ApartFrom(list: seq<Region>, i: nat, r: Region)
    requires i < |list| && Pages(list) * PagesOf(r) == {}
    ensures Apart(list[i], r)
  {
    hide Pages;
    var p := if First(list[i]) < First(r) then First(r) else First(list[i]);
    PagesAre(list, p);
    assert p in Pages(list) ==> p !in PagesOf(r) by {
      assert p in Pages(list) && p in PagesOf(r) ==> p in Pages(list) * PagesOf(r);
    }
  }

  /** Regions that cover as many pages as they count are disjoint. */
  lemma {:induction false} DisjointByCount(list: seq<Region>)
    requires |Pages(list)| == TotalPages(list)
    ensures Disjoint(list)
  {
    if |list| > 0 {
      var front, last := list[..|list| - 1], list[|list| - 1];
      PagesAtMost(front);
      RegionSize(last);
      DisjointByCount(front);
      assert |Pages(front) + PagesOf(last)| == |Pages(front)| + |PagesOf(last)| - |Pages(front) * PagesOf(last)|;
      assert Pages(front) * PagesOf(last) == {};
      forall i | 0 <= i < |front| ensures Apart(front[i], last) {
        ApartFrom(front, i, last);
      }
      forall i, j | 0 <= i < j < |list| ensures Apart(list[i], list[j]) {
        assert j < |list| - 1 ==> Apart(front[i], front[j]);
      }
    }
  }

  // ---- Mixed runs

  /** A request, or the return of one of the blocks handed out and not yet returned. */
  datatype Step = Request(pages: nat) | Return(k: nat)

  /** Blocks handed out and not yet returned, and the free list. */
  datatype Holding = Holding(blocks: seq<Region>, list: seq<Region>)

  predicate CanReturn(h: Holding, k: nat) {
    && k < |h.blocks| && 1 <= |h.list| < MAX_REGIONS
    && MergesRightly(h.list, h.blocks[k].start, h.blocks[k].pages)
  }

  function Returned(h: Holding, k: nat): Holding
    requires CanReturn(h, k)
  {
    Holding(h.blocks[..k] + h.blocks[k + 1..], Deallocated(h.list, h.blocks[k].start, h.blocks[k].pages))
  }

  /** None if the allocator halts, or a return leaves the table bounds or merges across a gap. */
  function Steps(list: seq<Region>, steps: seq<Step>): Option<Holding> {
    if |steps| == 0 then Some(Holding([], list))
    else
      match Steps(list, steps[..|steps| - 1])
      case None => None
      case Some(h) =>
        match steps[|steps| - 1]
        case Request(n) =>
          if FirstFit(h.list, n).None? then None else Some(Holding(h.blocks + [Block(h.list, n)], Taken(h.list, n)))
        case Return(k) => if CanReturn(h, k) then Some(Returned(h, k)) else None
  }

  /** Over any such run, the blocks outstanding and the free list are aligned, pairwise disjoint, and together
      exactly the pages that were free at first. */
  lemma {:induction false} StepsPartition(list: seq<Region>, steps: seq<Step>)
    requires Disjoint(list) && AllAligned(list) && Steps(list, steps).Some?
    ensures var h := Steps(list, steps).value;
      Repartition(list, h.blocks + h.list) && AllAligned(h.blocks + h.list)
  {
    hide Pages, TotalPages, Disjoint, Deallocated, FirstFit, Taken;
    if |steps| == 0 {
      assert [] + list == list;
    } else {
      StepsPartition(list, steps[..|steps| - 1]);
      var h := Steps(list, steps[..|steps| - 1]).value;
      match steps[|steps| - 1]
      case Request(n) => TakeRepartitions(h.blocks, h.list, n);
      case Return(k) => ReturnRepartitions(h, k);
    }
  }

  lemma ReturnRepartitions(h: Holding, k: nat)
    requires CanReturn(h, k) && Disjoint(h.blocks + h.list) && AllAligned(h.blocks + h.list)
    ensures var r := Returned(h, k);
      Repartition(h.blocks + h.list, r.blocks + r.list)
  {
    hide Pages, TotalPages, Disjoint, Deallocated, AllAligned, MergesRightly;
    var b, r := h.blocks[k], Returned(h, k);
    var before, after := h.blocks + h.list, r.blocks + r.list;
    PartsOk(h, k);
    DeallocationFreesExactly(h.list, b.start, b.pages);
    assert Region(b.start, b.pages) == b;
    forall p: nat ensures p in Pages(before) <==> p in Pages(after) {
      PagesOfConcat(h.blocks, h.list, p);
      PagesOfConcat(r.blocks, r.list, p);
      PagesWithout(h.blocks, k, p);
    }
    ReturnCounts(h, k);
    DisjointSize(before);
    assert Pages(before) == Pages(after);
    DisjointByCount(after);
    ReturnAligned(h, k);
  }

  /** The block is apart from the free list, and the list is sound. */
  lemma PartsOk(h: Holding, k: nat)
    requires k < |h.blocks| && Disjoint(h.blocks + h.list) && AllAligned(h.blocks + h.list)
    ensures Disjoint(h.list) && AllAligned(h.list) && AllAligned(h.blocks) && Aligned(h.blocks[k])
    ensures BlockApart(h.list, h.blocks[k])
  {
    var all, m := h.blocks + h.list, |h.blocks|;
    forall i | 0 <= i < |h.list| ensures Aligned(h.list[i]) && Apart(h.list[i], h.blocks[k]) {
      assert Aligned(all[m + i]) && Apart(all[k], all[m + i]);
    }
    forall i, j | 0 <= i < j < |h.list| ensures Apart(h.list[i], h.list[j]) {
      assert Apart(all[m + i], all[m + j]);
    }
    forall i | 0 <= i < m ensures Aligned(h.blocks[i]) {
      assert Aligned(all[i]);
    }
  }

  lemma PagesWithout(blocks: seq<Region>, k: nat, p: nat)
    requires k < |blocks|
    ensures p in Pages(blocks) <==> p in Pages(blocks[..k] + blocks[k + 1..]) || Holds(blocks[k], p)
  {
    hide Pages;
    assert blocks == blocks[..k] + ([blocks[k]] + blocks[k + 1..]);
    PagesOfConcat(blocks[..k], [blocks[k]] + blocks[k + 1..], p);
    PagesOfConcat([blocks[k]], blocks[k + 1..], p);
    PagesOfConcat(blocks[..k], blocks[k + 1..], p);
    PagesAre([blocks[k]], p);
    assert [blocks[k]][0] == blocks[k];
  }

  lemma ReturnCounts(h: Holding, k: nat)
    requires CanReturn(h, k)
    ensures var r := Returned(h, k); TotalPages(r.blocks + r.list) == TotalPages(h.blocks + h.list)
  {
    hide TotalPages, Deallocated, MergesRightly;
    var b, r := h.blocks[k], Returned(h, k);
    DeallocationCounts(h.list, b.start, b.pages);
    TotalConcat(h.blocks, h.list);
    TotalConcat(r.blocks, r.list);
    assert h.blocks == h.blocks[..k] + [b] + h.blocks[k + 1..];
    Total3(h.blocks[..k], b, h.blocks[k + 1..]);
    TotalConcat(h.blocks[..k], h.blocks[k + 1..]);
  }

  lemma ReturnAligned(h: Holding, k: nat)
    requires CanReturn(h, k) && AllAligned(h.blocks) && AllAligned(h.list)
    ensures var r := Returned(h, k); AllAligned(r.blocks + r.list)
  {
    hide MergesRightly, RegionIndex;
    var b := h.blocks[k];
    assert Aligned(b);
    StartsAfter(h.list, b.start, b.pages);
    var r := Returned(h, k);
    forall i | 0 <= i < |r.blocks + r.list| ensures Aligned((r.blocks + r.list)[i]) {
      if i < |r.blocks| {
        assert Aligned(h.blocks[if i < k then i else i + 1]);
      } else {
        assert StartsFrom(h.list, b.start, r.list[i - |r.blocks|].start);
      }
    }
  }

  // ---- The order of the free list

  /** `start` is the block's or that of a region of the list. */
  predicate StartsFrom(list: seq<Region>, addr: nat, start: nat) {
    start == addr || exists j :: 0 <= j < |list| && list[j].start == start
  }

  lemma StartsAfter(list: seq<Region>, addr: nat, n: nat)
    requires |list| >= 1
    ensures var after := Deallocated(list, addr, n);
      forall i :: 0 <= i < |after| ==> StartsFrom(list, addr, after[i].start)
  {
    hide RegionIndex;
    var after, k := Deallocated(list, addr, n), RegionIndex(list, addr);
    forall i | 0 <= i < |after| ensures StartsFrom(list, addr, after[i].start) {
      match BranchOf(list, addr, n)
      case MergePrevious => assert list[i].start == after[i].start;
      case MergeNext => assert list[if i <= k then i else i + 1].start == after[i].start;
      case Insert => assert i != k ==> list[if i < k then i else i - 1].start == after[i].start;
    }
  }

  predicate Ordered(list: seq<Region>) {
    forall i, j :: 0 <= i < j < |list| ==> list[i].start <= list[j].start
  }

  /** The search of `deallocate` relies on address order. Merging keeps it; insertion puts the block in front of
      the last lower region, so the order is kept exactly if the block lies below the whole list. */
  lemma DeallocationOrder(list: seq<Region>, addr: nat, n: nat)
    requires |list| >= 1 && Ordered(list)
    ensures Ordered(Deallocated(list, addr, n)) <==> BranchOf(list, addr, n) != Insert || addr <= list[0].start
  {
    var after, k := Deallocated(list, addr, n), RegionIndex(list, addr);
    match BranchOf(list, addr, n)
    case MergePrevious =>
    case MergeNext =>
      forall i, j | 0 <= i < j < |after| ensures after[i].start <= after[j].start {
        assert after[i].start == list[if i <= k then i else i + 1].start;
        assert after[j].start == list[if j <= k then j else j + 1].start;
      }
    case Insert =>
      assert after[k].start == addr && after[k + 1] == list[k];
      if addr <= list[0].start {
        assert k == 0;
      } else {
        assert list[k].start < addr;
      }
  }

  /** Returning page 5 to a list with page 1 puts it in front. */
  lemma InsertLosesOrder()
    ensures Deallocated([Region(0x1000, 1)], 0x5000, 1) == [Region(0x5000, 1), Region(0x1000, 1)]
  {
    assert Below([Region(0x1000, 1)], 0x5000, 0) == 1;
  }
}
