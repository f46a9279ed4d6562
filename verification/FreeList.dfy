/** The free list of the physical allocator, as a sequence of regions (kernel/mm/pmm.c). */
module FreeLists {
  import opened Basics

  const PAGE_SIZE := 4096
  const MAX_REGIONS := 256

  /** `start` is a byte address. */
  datatype Region = Region(start: nat, pages: nat)

  function End(r: Region): nat {
    r.start + r.pages * PAGE_SIZE
  }

  /** Page number of the first page. */
  function First(r: Region): nat {
    r.start / PAGE_SIZE
  }

  predicate Aligned(r: Region) {
    r.start % PAGE_SIZE == 0
  }

  predicate AllAligned(list: seq<Region>) {
    forall i :: 0 <= i < |list| ==> Aligned(list[i])
  }

  predicate Holds(r: Region, p: nat) {
    First(r) <= p < First(r) + r.pages
  }

  /** The page numbers that a list of regions covers. */
  ghost function Pages(list: seq<Region>): set<nat> {
    if |list| == 0 then {} else Pages(list[..|list| - 1]) + PagesOf(list[|list| - 1])
  }

  ghost function PagesOf(r: Region): (s: set<nat>)
    ensures forall p :: p in s <==> Holds(r, p)
  {
    set p: nat | p < First(r) + r.pages && Holds(r, p)
  }

  function TotalPages(list: seq<Region>): nat {
    if |list| == 0 then 0 else TotalPages(list[..|list| - 1]) + list[|list| - 1].pages
  }

  /** No page is covered twice. */
  predicate Apart(a: Region, b: Region) {
    First(a) + a.pages <= First(b) || First(b) + b.pages <= First(a) || a.pages == 0 || b.pages == 0
  }

  predicate Disjoint(list: seq<Region>) {
    forall i, j :: 0 <= i < j < |list| ==> Apart(list[i], list[j])
  }

  // ---- Facts about lists of regions

  lemma {:induction false} PagesAre(list: seq<Region>, p: nat)
    ensures p in Pages(list) <==> exists i :: 0 <= i < |list| && Holds(list[i], p)
  {
    if |list| > 0 {
      var front, last := list[..|list| - 1], |list| - 1;
      PagesAre(front, p);
      if i :| 0 <= i < |front| && Holds(front[i], p) {
        assert Holds(list[i], p);
      }
      if i :| 0 <= i < |list| && Holds(list[i], p) {
        assert i < last ==> Holds(front[i], p);
      }
    }
  }

  lemma {:induction false} TotalConcat(a: seq<Region>, b: seq<Region>)
    ensures TotalPages(a + b) == TotalPages(a) + TotalPages(b)
  {
    if |b| == 0 {
      assert a + b == a;
    } else {
      var ab := a + b;
      assert ab[..|ab| - 1] == a + b[..|b| - 1];
      TotalConcat(a, b[..|b| - 1]);
    }
  }

  lemma TotalOne(r: Region)
    ensures TotalPages([r]) == r.pages
  {
    assert [r][..0] == [];
  }

  lemma TotalUpdate(list: seq<Region>, i: nat, r: Region)
    requires i < |list|
    ensures TotalPages(list[i := r]) == TotalPages(list) - list[i].pages + r.pages
  {
    assert list == list[..i] + [list[i]] + list[i + 1..];
    assert list[i := r] == list[..i] + [r] + list[i + 1..];
    TotalConcat(list[..i] + [list[i]], list[i + 1..]);
    TotalConcat(list[..i], [list[i]]);
    TotalConcat(list[..i] + [r], list[i + 1..]);
    TotalConcat(list[..i], [r]);
    TotalOne(list[i]);
    TotalOne(r);
  }

  /** Disjoint regions cover as many pages as they have together. */
  lemma {:induction false} DisjointSize(list: seq<Region>)
    requires Disjoint(list)
    ensures |Pages(list)| == TotalPages(list)
  {
    if |list| > 0 {
      var front, last := list[..|list| - 1], list[|list| - 1];
      DisjointSize(front);
      RegionSize(last);
      forall p | p in Pages(front) ensures p !in PagesOf(last) {
        PagesAre(front, p);
        var i :| 0 <= i < |front| && Holds(front[i], p);
        assert Apart(list[i], last);
      }
      assert Pages(front) * PagesOf(last) == {};
    }
  }

  lemma {:induction false} RegionSize(r: Region)
    ensures |PagesOf(r)| == r.pages
    decreases r.pages
  {
    if r.pages == 0 {
      assert PagesOf(r) == {};
    } else {
      var s := Region(r.start, r.pages - 1);
      RegionSize(s);
      assert PagesOf(r) == PagesOf(s) + {First(r) + r.pages - 1};
    }
  }

  // ---- Allocation

  /** First fit: the first region with at least `n` pages. */
  function FirstFit(list: seq<Region>, n: nat): (r: Option<nat>)
    ensures r.Some? ==>
      r.value < |list| && list[r.value].pages >= n && forall j :: 0 <= j < r.value ==> list[j].pages < n
    ensures r.None? ==> forall j :: 0 <= j < |list| ==> list[j].pages < n
  {
    FirstFitFrom(list, n, 0)
  }

  function FirstFitFrom(list: seq<Region>, n: nat, i: nat): (r: Option<nat>)
    requires i <= |list| && forall j :: 0 <= j < i ==> list[j].pages < n
    ensures r.Some? ==>
      r.value < |list| && list[r.value].pages >= n && forall j :: 0 <= j < r.value ==> list[j].pages < n
    ensures r.None? ==> forall j :: 0 <= j < |list| ==> list[j].pages < n
    decreases |list| - i
  {
    if i == |list| then None else if list[i].pages >= n then Some(i) else FirstFitFrom(list, n, i + 1)
  }

  /** What is left of a region when `n` pages are taken from its front. */
  function Rest(r: Region, n: nat): Region
    requires n <= r.pages
  {
    Region(r.start + n * PAGE_SIZE, r.pages - n)
  }

  function Taken(list: seq<Region>, n: nat): seq<Region>
    requires FirstFit(list, n).Some?
  {
    var i := FirstFit(list, n).value;
    list[i := Rest(list[i], n)]
  }

  function Block(list: seq<Region>, n: nat): Region
    requires FirstFit(list, n).Some?
  {
    Region(list[FirstFit(list, n).value].start, n)
  }

  /** Lists that cover the same pages, each once. */
  ghost predicate Repartition(a: seq<Region>, b: seq<Region>) {
    Disjoint(b) && AllAligned(b) && Pages(b) == Pages(a) && TotalPages(b) == TotalPages(a)
  }

  lemma RestPlace(r: Region, n: nat)
    requires Aligned(r) && n <= r.pages
    ensures Aligned(Rest(r, n)) && First(Rest(r, n)) == First(r) + n
  {
  }

  /** Taking a block moves its pages from the free list to the blocks handed out: together they cover
      the same pages as before, each once. */
  lemma TakeRepartitions(blocks: seq<Region>, list: seq<Region>, n: nat)
    requires FirstFit(list, n).Some? && Disjoint(blocks + list) && AllAligned(blocks + list)
    ensures Repartition(blocks + list, blocks + [Block(list, n)] + Taken(list, n))
  {
    var i := FirstFit(list, n).value;
    var before, after := blocks + list, blocks + [Block(list, n)] + Taken(list, n);
    var b := |blocks|;
    assert before[b + i] == list[i];
    RestPlace(list[i], n);
    TakeDisjoint(blocks, list, n);
    TotalConcat(blocks, list);
    TotalConcat(blocks + [Block(list, n)], Taken(list, n));
    TotalConcat(blocks, [Block(list, n)]);
    TotalOne(Block(list, n));
    TotalUpdate(list, i, Rest(list[i], n));
    forall p: nat ensures p in Pages(before) <==> p in Pages(after) {
      PagesAre(before, p);
      PagesAre(after, p);
      TakeHolds(blocks, list, n, p);
    }
  }

  lemma TakeHolds(blocks: seq<Region>, list: seq<Region>, n: nat, p: nat)
    requires FirstFit(list, n).Some? && AllAligned(blocks + list)
    ensures (exists k :: 0 <= k < |blocks + list| && Holds((blocks + list)[k], p)) <==>
      exists k :: 0 <= k < |blocks| + 1 + |list| && Holds((blocks + [Block(list, n)] + Taken(list, n))[k], p)
  {
    var i, b := FirstFit(list, n).value, |blocks|;
    var before, after := blocks + list, blocks + [Block(list, n)] + Taken(list, n);
    assert before[b + i] == list[i];
    RestPlace(list[i], n);
    assert after[b] == Block(list, n) && after[b + 1 + i] == Rest(list[i], n);
    if k :| 0 <= k < |before| && Holds(before[k], p) {
      if k == b + i {
        assert Holds(after[b], p) || Holds(after[b + 1 + i], p);
      } else {
        assert after[if k < b then k else k + 1] == before[k];
      }
    }
    if k :| 0 <= k < |after| && Holds(after[k], p) {
      if k == b || k == b + 1 + i {
        assert Holds(before[b + i], p);
      } else {
        assert before[if k < b then k else k - 1] == after[k];
      }
    }
  }

  lemma TakeDisjoint(blocks: seq<Region>, list: seq<Region>, n: nat)
    requires FirstFit(list, n).Some? && Disjoint(blocks + list) && AllAligned(blocks + list)
    ensures var after := blocks + [Block(list, n)] + Taken(list, n);
      Disjoint(after) && AllAligned(after)
  {
    var i, b := FirstFit(list, n).value, |blocks|;
    var before, after := blocks + list, blocks + [Block(list, n)] + Taken(list, n);
    assert before[b + i] == list[i];
    RestPlace(list[i], n);
    assert after[b] == Block(list, n) && after[b + 1 + i] == Rest(list[i], n);
    forall j, k | 0 <= j < k < |after| ensures Apart(after[j], after[k]) {
      TakeApart(before, after, b, i, j, k);
    }
    forall k | 0 <= k < |after| ensures Aligned(after[k]) {
      assert k != b && k != b + 1 + i ==> after[k] == before[if k < b then k else k - 1];
    }
  }

  /** Position of a region of the new list in the old one. */
  function OldPlace(b: nat, i: nat, k: nat): nat {
    if k < b then k else if k == b then b + i else k - 1
  }

  lemma TakeApart(before: seq<Region>, after: seq<Region>, b: nat, i: nat, j: nat, k: nat)
    requires b + i < |before| && |after| == |before| + 1 && j < k < |after| && Disjoint(before)
    requires forall m :: 0 <= m < |after| && m != b && m != b + 1 + i ==> after[m] == before[OldPlace(b, i, m)]
    requires First(after[b]) == First(before[b + i]) && First(after[b + 1 + i]) == First(before[b + i]) + after[b].pages
    requires after[b].pages + after[b + 1 + i].pages == before[b + i].pages
    ensures Apart(after[j], after[k])
  {
    var j', k' := OldPlace(b, i, j), OldPlace(b, i, k);
    if j' < k' {
      assert Apart(before[j'], before[k']);
    } else if k' < j' {
      assert Apart(before[k'], before[j']);
    }
  }

  // ---- Runs of allocations

  /** What a run of requests returns: the blocks handed out and the free list, or None if the allocator
      halts on one of them. */
  function Allocations(list: seq<Region>, requests: seq<nat>): (r: Option<(seq<Region>, seq<Region>)>)
    ensures r.Some? ==>
      |r.value.0| == |requests| && forall i :: 0 <= i < |requests| ==> r.value.0[i].pages == requests[i]
  {
    if |requests| == 0 then Some(([], list))
    else
      match Allocations(list, requests[..|requests| - 1])
      case None => None
      case Some((blocks, rest)) =>
        var n := requests[|requests| - 1];
        if FirstFit(rest, n).None? then None else Some((blocks + [Block(rest, n)], Taken(rest, n)))
  }

  /** Over any run, the blocks returned and what is still free are aligned and pairwise disjoint, and
      together they are exactly the pages that were free at first. */
  lemma {:induction false} AllocationsPartition(list: seq<Region>, requests: seq<nat>)
    requires Disjoint(list) && AllAligned(list) && Allocations(list, requests).Some?
    ensures var (blocks, rest) := Allocations(list, requests).value;
      Repartition(list, blocks + rest)
  {
    if |requests| == 0 {
      assert [] + list == list;
    } else {
      AllocationsPartition(list, requests[..|requests| - 1]);
      var (blocks, rest) := Allocations(list, requests[..|requests| - 1]).value;
      TakeRepartitions(blocks, rest, requests[|requests| - 1]);
    }
  }

  /** A run halts on a request exactly when every region left is smaller. */
  lemma HaltsOnlyWhenTooSmall(list: seq<Region>, requests: seq<nat>, n: nat)
    requires Allocations(list, requests).Some?
    ensures Allocations(list, requests + [n]).None? <==>
      forall i :: 0 <= i < |Allocations(list, requests).value.1| ==> Allocations(list, requests).value.1[i].pages < n
  {
    assert (requests + [n])[..|requests|] == requests;
  }

  // ---- Deallocation

  /** The number of regions at the front of the list that start below `addr`. */
  function Below(list: seq<Region>, addr: nat, i: nat): (k: nat)
    requires i <= |list| && forall j :: 0 <= j < i ==> list[j].start < addr
    ensures i <= k <= |list|
    ensures forall j :: 0 <= j < k ==> list[j].start < addr
    ensures k < |list| ==> list[k].start >= addr
    decreases |list| - i
  {
    if i < |list| && addr > list[i].start then Below(list, addr, i + 1) else i
  }

  /** `region_index`: the last region of that front, or 0. */
  function RegionIndex(list: seq<Region>, addr: nat): (i: nat)
    ensures |list| >= 1 ==> i < |list|
  {
    var k := Below(list, addr, 0);
    if k == 0 then 0 else k - 1
  }

  datatype Branch = MergePrevious | MergeNext | Insert

  function BranchOf(list: seq<Region>, addr: nat, n: nat): Branch
    requires |list| >= 1
  {
    var i := RegionIndex(list, addr);
    if i > 0 && addr == End(list[i - 1]) then MergePrevious
    else if i < |list| - 1 && addr + n * PAGE_SIZE == list[i + 1].start then MergeNext
    else Insert
  }

  function Grown(r: Region, n: nat): Region {
    Region(r.start, r.pages + n)
  }

  function Merged(list: seq<Region>, i: nat, n: nat): seq<Region>
    requires i + 1 < |list|
  {
    list[..i] + [Grown(list[i], n + list[i + 1].pages)] + list[i + 2..]
  }

  function InsertedAt(list: seq<Region>, i: nat, b: Region): seq<Region>
    requires i <= |list|
  {
    list[..i] + [b] + list[i..]
  }

  function Deallocated(list: seq<Region>, addr: nat, n: nat): seq<Region>
    requires |list| >= 1
  {
    var i := RegionIndex(list, addr);
    match BranchOf(list, addr, n)
    case MergePrevious => list[i - 1 := Grown(list[i - 1], n)]
    case MergeNext => Merged(list, i, n)
    case Insert => InsertedAt(list, i, Region(addr, n))
  }

  /** The three branches, at the last region `i` of the front of the list that starts below the block, or at the
      first: the region before it grows, or it grows into the next one, or the block goes in front of it. */
  lemma DeallocationIs(list: seq<Region>, addr: nat, n: nat, i: nat)
    requires i < |list| && (i + 1 < |list| && list[0].start < addr ==> list[i + 1].start >= addr)
    requires (i == 0 && list[0].start >= addr) || forall j :: 0 <= j <= i ==> list[j].start < addr
    ensures Deallocated(list, addr, n) ==
      if i > 0 && addr == list[i - 1].start + list[i - 1].pages * 4096 then
        list[i - 1 := Region(list[i - 1].start, list[i - 1].pages + n)]
      else if i + 1 < |list| && addr + n * 4096 == list[i + 1].start then
        list[..i] + [Region(list[i].start, list[i].pages + n + list[i + 1].pages)] + list[i + 2..]
      else list[..i] + [Region(addr, n)] + list[i..]
  {
    var k := Below(list, addr, 0);
    assert RegionIndex(list, addr) == i;
  }

  /** Every branch of deallocation gives back as many pages as it was asked to. */
  lemma DeallocationCounts(list: seq<Region>, addr: nat, n: nat)
    requires |list| >= 1
    ensures TotalPages(Deallocated(list, addr, n)) == TotalPages(list) + n
  {
    hide TotalPages, RegionIndex, Merged, InsertedAt;
    var i := RegionIndex(list, addr);
    match BranchOf(list, addr, n)
    case MergePrevious => TotalUpdate(list, i - 1, Grown(list[i - 1], n));
    case MergeNext => TotalMerged(list, i, n);
    case Insert => TotalInserted(list, i, Region(addr, n));
  }

  lemma TotalMerged(list: seq<Region>, i: nat, n: nat)
    requires i + 1 < |list|
    ensures TotalPages(Merged(list, i, n)) == TotalPages(list) + n
  {
    hide TotalPages;
    assert list == list[..i] + [list[i]] + [list[i + 1]] + list[i + 2..];
    Total4(list[..i], list[i], list[i + 1], list[i + 2..]);
    Total3(list[..i], Grown(list[i], n + list[i + 1].pages), list[i + 2..]);
  }

  lemma TotalInserted(list: seq<Region>, i: nat, b: Region)
    requires i <= |list|
    ensures TotalPages(InsertedAt(list, i, b)) == TotalPages(list) + b.pages
  {
    hide TotalPages;
    Total3(list[..i], b, list[i..]);
    TotalConcat(list[..i], list[i..]);
    assert list == list[..i] + list[i..];
  }

  lemma Total3(a: seq<Region>, r: Region, b: seq<Region>)
    ensures TotalPages(a + [r] + b) == TotalPages(a) + r.pages + TotalPages(b)
  {
    TotalConcat(a + [r], b);
    TotalConcat(a, [r]);
    TotalOne(r);
  }

  lemma Total4(a: seq<Region>, r: Region, q: Region, b: seq<Region>)
    ensures TotalPages(a + [r] + [q] + b) == TotalPages(a) + r.pages + q.pages + TotalPages(b)
  {
    Total3(a + [r], q, b);
    TotalConcat(a, [r]);
    TotalOne(r);
  }

  datatype Operation = Take(pages: nat) | Free(addr: nat, count: nat)

  datatype Tally = Tally(list: seq<Region>, taken: nat, freed: nat)

  /** A mixed run; None if the allocator halts or the table bounds are left. */
  function Run(list: seq<Region>, ops: seq<Operation>): Option<Tally> {
    if |ops| == 0 then Some(Tally(list, 0, 0))
    else
      match Run(list, ops[..|ops| - 1])
      case None => None
      case Some(t) =>
        match ops[|ops| - 1]
        case Take(n) =>
          if FirstFit(t.list, n).None? then None else Some(Tally(Taken(t.list, n), t.taken + n, t.freed))
        case Free(addr, n) =>
          if 1 <= |t.list| < MAX_REGIONS then Some(Tally(Deallocated(t.list, addr, n), t.taken, t.freed + n)) else None
  }

  /** Pages are conserved over every mixed run. */
  lemma {:induction false} RunConservesPages(list: seq<Region>, ops: seq<Operation>)
    requires Run(list, ops).Some?
    ensures var t := Run(list, ops).value;
      TotalPages(t.list) + t.taken == TotalPages(list) + t.freed
  {
    if |ops| > 0 {
      RunConservesPages(list, ops[..|ops| - 1]);
      var t := Run(list, ops[..|ops| - 1]).value;
      match ops[|ops| - 1]
      case Take(n) =>
        var i := FirstFit(t.list, n).value;
        TotalUpdate(t.list, i, Rest(t.list[i], n));
      case Free(addr, n) => DeallocationCounts(t.list, addr, n);
    }
  }

  // ---- Which pages deallocation frees

  /** The block does not overlap the free list. */
  predicate BlockApart(list: seq<Region>, b: Region) {
    forall i :: 0 <= i < |list| ==> Apart(list[i], b)
  }

  /** Merging with the next region is right only if the block begins where the region before it ends. */
  predicate MergesRightly(list: seq<Region>, addr: nat, n: nat)
    requires |list| >= 1
  {
    BranchOf(list, addr, n).MergeNext? ==>
      var i := RegionIndex(list, addr);
      addr == End(list[i]) || n + list[i + 1].pages == 0
  }

  /** Positions of the regions of the old list in the new one, when that list is not merged. */
  lemma MergePreviousPages(list: seq<Region>, i: nat, b: Region, p: nat)
    requires i < |list| && Aligned(list[i]) && b.start == End(list[i])
    ensures p in Pages(list[i := Grown(list[i], b.pages)]) <==> p in Pages(list) || Holds(b, p)
  {
    var after := list[i := Grown(list[i], b.pages)];
    PagesAre(list, p);
    PagesAre(after, p);
    assert First(b) == First(list[i]) + list[i].pages;
    assert Holds(after[i], p) <==> Holds(list[i], p) || Holds(b, p);
    if k :| 0 <= k < |list| && Holds(list[k], p) {
      assert Holds(after[k], p);
    }
    if k :| 0 <= k < |after| && Holds(after[k], p) {
      assert k != i ==> Holds(list[k], p);
    }
  }

  lemma InsertPages(list: seq<Region>, i: nat, b: Region, p: nat)
    requires i <= |list|
    ensures p in Pages(InsertedAt(list, i, b)) <==> p in Pages(list) || Holds(b, p)
  {
    hide Pages;
    var after := InsertedAt(list, i, b);
    PagesAre(list, p);
    PagesAre(after, p);
    InsertedPlaces(list, i, b);
    if k :| 0 <= k < |list| && Holds(list[k], p) {
      assert Holds(after[if k < i then k else k + 1], p);
    }
    if k :| 0 <= k < |after| && Holds(after[k], p) {
      assert k != i ==> Holds(list[if k < i then k else k - 1], p);
    }
    assert Holds(after[i], p) <==> Holds(b, p);
  }

  lemma InsertedPlaces(list: seq<Region>, i: nat, b: Region)
    requires i <= |list|
    ensures var after := InsertedAt(list, i, b);
      && |after| == |list| + 1
      && forall k :: 0 <= k < |after| ==> after[k] == if k < i then list[k] else if k == i then b else list[k - 1]
  {
  }

  lemma MergedPages(list: seq<Region>, i: nat, n: nat, p: nat)
    requires i + 1 < |list|
    ensures p in Pages(Merged(list, i, n)) <==>
      Holds(Grown(list[i], n + list[i + 1].pages), p)
        || exists k :: 0 <= k < |list| && k != i && k != i + 1 && Holds(list[k], p)
  {
    var after := Merged(list, i, n);
    PagesAre(after, p);
    assert after[i] == Grown(list[i], n + list[i + 1].pages);
    if k :| 0 <= k < |list| && k != i && k != i + 1 && Holds(list[k], p) {
      assert after[if k < i then k else k - 1] == list[k];
    }
    if k :| 0 <= k < |after| && Holds(after[k], p) {
      assert k != i ==> after[k] == list[if k < i then k else k + 1];
    }
  }

  lemma MergeNextPages(list: seq<Region>, i: nat, b: Region, p: nat)
    requires i + 1 < |list| && AllAligned(list) && End(b) == list[i + 1].start
    requires b.start == End(list[i]) || b.pages + list[i + 1].pages == 0
    ensures p in Pages(Merged(list, i, b.pages)) <==> p in Pages(list) || Holds(b, p)
  {
    var next, grown := list[i + 1], Grown(list[i], b.pages + list[i + 1].pages);
    MergedPages(list, i, b.pages, p);
    PagesAre(list, p);
    assert Aligned(list[i]) && Aligned(next);
    if b.start == End(list[i]) {
      assert First(b) == First(list[i]) + list[i].pages;
      assert First(next) == First(b) + b.pages;
    }
    assert Holds(grown, p) <==> Holds(list[i], p) || Holds(b, p) || Holds(next, p);
    if k :| 0 <= k < |list| && Holds(list[k], p) {
      assert k == i + 1 ==> Holds(next, p);
    }
  }

  /** Otherwise a page is lost: the block's or next region's last one if there is a gap, their first one
      if the block lies in front of the region. */
  function LostPage(list: seq<Region>, i: nat, b: Region): int
    requires i + 1 < |list|
  {
    if b.start < End(list[i]) then First(b)
    else First(b) + b.pages + list[i + 1].pages - 1
  }

  lemma LostPageIsLost(list: seq<Region>, i: nat, b: Region)
    requires i + 1 < |list| && AllAligned(list) && Aligned(b) && Disjoint(list) && BlockApart(list, b)
    requires End(b) == list[i + 1].start && b.start != End(list[i]) && b.pages + list[i + 1].pages > 0
    ensures LostPage(list, i, b) >= 0 && LostPage(list, i, b) !in Pages(Merged(list, i, b.pages))
    ensures LostPage(list, i, b) in Pages(list) || Holds(b, LostPage(list, i, b))
  {
    var next, p: nat := list[i + 1], LostPage(list, i, b);
    assert Aligned(list[i]) && Aligned(next);
    assert First(next) == First(b) + b.pages;
    assert Holds(next, p) || Holds(b, p);
    PagesAre(list, p);
    MergedPages(list, i, b.pages, p);
    assert Apart(list[i], b) && Apart(list[i], next);
    assert !Holds(Grown(list[i], b.pages + next.pages), p);
    forall k | 0 <= k < |list| && k != i && k != i + 1 ensures !Holds(list[k], p) {
      assert Apart(list[k], b);
      assert if k < i + 1 then Apart(list[k], next) else Apart(next, list[k]);
    }
  }

  /** Giving back a block that is not free makes exactly its pages free if and only if the merge with
      the next region is right. */
  lemma DeallocationFreesExactly(list: seq<Region>, addr: nat, n: nat)
    requires |list| >= 1 && AllAligned(list) && Disjoint(list)
    requires addr % PAGE_SIZE == 0 && BlockApart(list, Region(addr, n))
    ensures Pages(Deallocated(list, addr, n)) == Pages(list) + PagesOf(Region(addr, n)) <==>
      MergesRightly(list, addr, n)
  {
    hide Pages, RegionIndex;
    var i, b := RegionIndex(list, addr), Region(addr, n);
    var after := Deallocated(list, addr, n);
    if MergesRightly(list, addr, n) {
      forall p: nat ensures p in Pages(after) <==> p in Pages(list) || Holds(b, p) {
        match BranchOf(list, addr, n)
        case MergePrevious => MergePreviousPages(list, i - 1, b, p);
        case MergeNext => MergeNextPages(list, i, b, p);
        case Insert => InsertPages(list, i, b, p);
      }
    } else {
      LostPageIsLost(list, i, b);
      assert after == Merged(list, i, n);
    }
  }

  /** Freeing pages 8 and 9 in front of a free region that begins at page 10, with page 1 free as well:
      page 1's region grows over pages 2 to 5 instead, and pages 8 to 11 are lost. */
  lemma MergeAcrossGapLosesPages()
    ensures var list := [Region(0x1000, 1), Region(0xa000, 2)];
      && BlockApart(list, Region(0x8000, 2)) && !MergesRightly(list, 0x8000, 2)
      && Deallocated(list, 0x8000, 2) == [Region(0x1000, 5)]
  {
    var list := [Region(0x1000, 1), Region(0xa000, 2)];
    assert Below(list, 0x8000, 1) == 1;
    assert RegionIndex(list, 0x8000) == 0;
  }
}
