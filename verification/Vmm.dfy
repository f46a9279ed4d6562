/** Mapping and unmapping pages (kernel/mm/vmm.c) in flat memory, on top of the page allocator. */
module VirtualMemory {
  import opened Basics
  import opened FreeLists
  import opened PageAllocators
  import opened PageTables

  /** A call of `VMMMapPage` or `VMMUnmapPage`. */
  datatype Request = Map(v: nat, p: nat) | Unmap(v: nat)

  class Vmm {
    /** Physical memory in 8-byte words. */
    const mem: array<nat>
    const pmm: PageAllocator
    /** Physical address of the PML4. */
    var pml4: nat
    /** The page of every table and the entry of every mapped page. */
    ghost var tables: map<Node, nat>
    ghost var pages: map<nat, nat>

    ghost predicate Ready()
      reads pmm, pmm.regions
    {
      pmm.Valid() && FreeOk(pmm.List(), mem.Length)
    }

    ghost predicate Valid()
      reads this, mem, pmm, pmm.regions
    {
      && Ready() && pml4 % PAGE_SIZE == 0
      && TreeOk(mem[..], pmm.List(), tables, pages, pml4 / PAGE_SIZE)
    }

    /** Pages that are free or hold a table. */
    ghost function Budget(): nat
      requires Ready()
      reads this`tables, pmm, pmm.regions
    {
      TotalPages(pmm.List()) + |tables|
    }

    /** Which pages those are. */
    ghost function Owned(): set<nat>
      reads this`tables, pmm, pmm.regions
      requires Ready()
    {
      Pages(pmm.List()) + tables.Values
    }

    constructor (mem: array<nat>, pmm: PageAllocator)
      requires pmm.Valid() && FreeOk(pmm.List(), mem.Length)
      ensures this.mem == mem && this.pmm == pmm && Ready()
      ensures pml4 == 0 && tables == map[] && pages == map[]
    {
      this.mem := mem;
      this.pmm := pmm;
      pml4, tables, pages := 0, map[], map[];
    }

    /** The entries of the table at `addr` become NULL. */
    method ClearTable(addr: nat)
      requires addr % PAGE_SIZE == 0 && Word(addr / PAGE_SIZE, ENTRIES) <= mem.Length
      modifies mem
      ensures Cleared(old(mem[..]), mem[..], addr / PAGE_SIZE)
    {
      ghost var p := addr / PAGE_SIZE;
      ghost var words := mem[..];
      var i := 0;
      while i < ENTRIES
        invariant i <= ENTRIES
        invariant forall k :: 0 <= k < mem.Length ==> mem[k] == if Word(p, 0) <= k < Word(p, i) then 0 else words[k]
      {
        mem[addr / 8 + i] := 0;
        i := i + 1;
      }
    }

    /** A new table in entry `j` of table `p`; false if the allocator halts. Each write goes through the
        entry just made, which lies outside the new page. */
    method NewTable(p: nat, j: nat) returns (ok: bool)
      requires Ready() && j < ENTRIES && Word(p, ENTRIES) <= mem.Length && p !in Pages(pmm.List())
      modifies mem, pmm, pmm.regions
      ensures pmm.Valid() && (ok <==> FirstFit(old(pmm.List()), 1).Some?)
      ensures !ok ==> mem[..] == old(mem[..]) && pmm.List() == old(pmm.List())
      ensures ok ==> pmm.List() == Taken(old(pmm.List()), 1)
      ensures ok ==> TableAdded(old(mem[..]), mem[..], p, j, Block(old(pmm.List()), 1).start / PAGE_SIZE)
    {
      hide Pages, FirstFit, Taken, TotalPages, Disjoint;
      ghost var free := pmm.List();
      var block := pmm.Allocate(1);
      if block.None? {
        return false;
      }
      TakePage(free, mem.Length);
      ghost var a := Block(free, 1).start / PAGE_SIZE;
      ghost var words := mem[..];
      mem[Word(p, j)] := block.value;
      var i := 0;
      while i < ENTRIES
        invariant i <= ENTRIES && pmm.Valid() && pmm.List() == Taken(free, 1)
        invariant mem[Word(p, j)] == a * PAGE_SIZE
        invariant forall k :: 0 <= k < mem.Length ==>
          mem[k] == if k == Word(p, j) then a * PAGE_SIZE else if Word(a, 0) <= k < Word(a, i) then 0 else words[k]
      {
        WordsApart(p, j, a, i);
        mem[mem[Word(p, j)] / 8 + i] := 0;
        i := i + 1;
      }
      return true;
    }

    /** `if (table->entries[j] == NULL)` a new table there; returns the table in entry `j`. */
    method EnsureTable(table: nat, j: nat, ghost n: Node) returns (child: Option<nat>)
      requires Valid() && n in tables && n.level >= 1 && j < ENTRIES && table == tables[n] * PAGE_SIZE
      modifies this`tables, mem, pmm, pmm.regions
      ensures Ready() && Valid() && pages == old(pages) && Budget() == old(Budget()) && Owned() == old(Owned())
      ensures Extends(old(tables), tables)
      ensures child.Some? ==>
        tables.Keys == old(tables.Keys) + {Child(n, j)} && child.value == tables[Child(n, j)] * PAGE_SIZE
      ensures child.None? ==> tables == old(tables) && Child(n, j) !in tables && TotalPages(pmm.List()) == 0
    {
      hide TreeOk, Pages, FirstFit, Taken, TotalPages, Disjoint, FreeOk, TableAdded;
      ghost var free, words, p := pmm.List(), mem[..], tables[n];
      EntryOfTable(words, free, tables, pages, pml4 / PAGE_SIZE, n, j);
      var slot := table / 8 + j;
      assert slot == Word(p, j);
      if mem[slot] == 0 {
        var ok := NewTable(table / PAGE_SIZE, j);
        if !ok {
          NothingFree(free);
          return None;
        }
        TakePage(free, mem.Length);
        ghost var a := Block(free, 1).start / PAGE_SIZE;
        FreePage(free, mem.Length, a);
        AddTable(words, mem[..], free, pmm.List(), tables, pages, pml4 / PAGE_SIZE, n, j, a);
        ValuesAdded(tables, Child(n, j), a);
        tables := tables[Child(n, j) := a];
        assert mem[slot] == a * PAGE_SIZE by { SlotOfAdded(words, mem[..], p, j, a); }
      }
      return Some(mem[slot]);
    }

    lemma RootThere()
      requires Valid()
      ensures Ready() && Root in tables && pml4 == tables[Root] * PAGE_SIZE
    {
      hide FreeOk, TotalPages;
    }

    /** The tables on the way to an address, made where they are missing; returns the last one. */
    method EnsurePath(v: nat) returns (pt: Option<nat>)
      requires Valid()
      modifies this`tables, mem, pmm, pmm.regions
      ensures Ready() && Valid() && pages == old(pages) && Budget() == old(Budget()) && Owned() == old(Owned())
        && Extends(old(tables), tables)
      ensures pt.Some? ==> tables.Keys == old(tables.Keys) + Path(Key(v))
      ensures pt.Some? ==> NodeOf(Key(v), 0) in tables && pt.value == tables[NodeOf(Key(v), 0)] * PAGE_SIZE
      ensures pt.None? ==> tables.Keys < old(tables.Keys) + Path(Key(v)) && TotalPages(pmm.List()) == 0
    {
      RootThere();
      hide Valid, Ready, Budget, Owned, TreeOk, TotalPages, FreeOk, IndexAt, Key, NodeOf, Child, Path, Extends;
      ghost var key, tables0 := Key(v), tables;
      PathSplit(v);
      PathStepwise(tables.Keys, key);
      var pdpt := EnsureTable(pml4, IndexAt(v, 3), Root);
      if pdpt.None? {
        return None;
      }
      ghost var tables1 := tables;
      var pd := EnsureTable(pdpt.value, IndexAt(v, 2), NodeOf(key, 2));
      ExtendsFurther(tables0, tables1, tables);
      if pd.None? {
        return None;
      }
      ghost var tables2 := tables;
      pt := EnsureTable(pd.value, IndexAt(v, 1), NodeOf(key, 1));
      ExtendsFurther(tables0, tables2, tables);
    }

    /** `VMMMapPage`; false if the allocator halts. */
    method MapPage(v: nat, p: nat) returns (ok: bool)
      requires Valid()
      modifies this`tables, this`pages, mem, pmm, pmm.regions
      ensures Ready() && Valid() && Budget() == old(Budget()) && Owned() == old(Owned()) && Extends(old(tables), tables)
      ensures ok ==> pages == old(pages)[Key(v) := PageEntry(p)]
      ensures ok ==> tables.Keys == old(tables.Keys) + Path(Key(v))
      ensures !ok ==>
        pages == old(pages) && tables.Keys < old(tables.Keys) + Path(Key(v)) && TotalPages(pmm.List()) == 0
    {
      hide Valid, Ready, Budget, Owned, TreeOk, TotalPages, FreeOk, IndexAt, Key, NodeOf, Path, Extends, PageEntry;
      LastSplit(v);
      var pt := EnsurePath(v);
      if pt.None? {
        return false;
      }
      StoreEntry(pt.value, IndexAt(v, 0), PageEntry(p), NodeOf(Key(v), 0));
      return true;
    }

    /** The write to the last table. */
    method StoreEntry(table: nat, j: nat, e: nat, ghost n: Node)
      requires Valid() && n in tables && n.level == 0 && j < ENTRIES && table == tables[n] * PAGE_SIZE
      modifies this`pages, mem
      ensures Ready() && Valid() && EntrySet(old(pages), pages, KeyAt(n, j), e)
    {
      hide TreeOk, TotalPages, FreeOk;
      ghost var words, free, k := mem[..], pmm.List(), KeyAt(n, j);
      ghost var pages' := if e == 0 then pages - {k} else pages[k := e];
      SetEntry(words, free, tables, pages, pages', pml4 / PAGE_SIZE, n, j, e);
      mem[table / 8 + j] := e;
      assert mem[..] == words[Word(tables[n], j) := e];
      pages := pages';
    }

    /** `VMMUnmapPage` */
    method UnmapPage(v: nat)
      requires Valid()
      modifies this`pages, mem
      ensures Ready() && Valid() && pages == old(pages) - {Key(v)}
    {
      hide TreeOk, TotalPages, FreeOk, IndexAt, Key, NodeOf, Child;
      ghost var words, free, root, key := mem[..], pmm.List(), pml4 / PAGE_SIZE, Key(v);
      PathSplit(v);
      LastSplit(v);
      RootTable(words, free, tables, pages, root);
      PathOfPage(words, free, tables, pages, root, key);
      EntryOfTable(words, free, tables, pages, root, Root, IndexAt(v, 3));
      var pdpt := mem[pml4 / 8 + IndexAt(v, 3)];
      if pdpt == 0 {
        return;
      }
      EntryOfTable(words, free, tables, pages, root, NodeOf(key, 2), IndexAt(v, 2));
      var pd := mem[pdpt / 8 + IndexAt(v, 2)];
      if pd == 0 {
        return;
      }
      EntryOfTable(words, free, tables, pages, root, NodeOf(key, 1), IndexAt(v, 1));
      var pt := mem[pd / 8 + IndexAt(v, 1)];
      if pt == 0 {
        return;
      }
      StoreEntry(pt, IndexAt(v, 0), 0, NodeOf(key, 0));
    }

    lemma ReadyThere()
      requires Valid()
      ensures Ready()
    {
    }

    lemma WalkFinds(before: map<nat, nat>, requests: seq<Request>, v: nat)
      requires Valid() && pages == Performed(before, requests)
      ensures WalksTo(mem[..], pml4 / PAGE_SIZE, v, Translation(before, requests, Key(v)))
    {
      WalkAfter(mem[..], pmm.List(), tables, before, requests, pml4 / PAGE_SIZE, v);
    }

    /** One call; false if the allocator halts. */
    method PerformOne(request: Request) returns (ok: bool)
      requires Valid()
      modifies this`tables, this`pages, mem, pmm, pmm.regions
      ensures Ready() && Valid() && Budget() == old(Budget()) && Owned() == old(Owned())
      ensures ok ==> pages == AfterRequest(old(pages), request)
      ensures !ok ==> request.Map? && pages == old(pages) && TotalPages(pmm.List()) == 0
    {
      hide Valid, Ready, Budget, Owned, TreeOk, TotalPages, FreeOk, Path, Key, Extends, PageEntry;
      match request {
        case Map(v, p) =>
          ok := MapPage(v, p);
        case Unmap(v) =>
          UnmapPage(v);
          ok := true;
      }
    }

    /** Any run of calls, up to one on which the allocator halts: following the tables finds for each address
        what the last call about its page left there. */
    method Perform(requests: seq<Request>) returns (done: nat)
      requires Valid()
      modifies this`tables, this`pages, mem, pmm, pmm.regions
      ensures Valid() && done <= |requests| && Budget() == old(Budget()) && Owned() == old(Owned())
      ensures done < |requests| ==> requests[done].Map? && TotalPages(pmm.List()) == 0
      ensures forall v: nat :: WalksTo(mem[..], pml4 / PAGE_SIZE, v, Translation(old(pages), requests[..done], Key(v)))
    {
      ReadyThere();
      hide Valid, Ready, Budget, Owned, TreeOk, TotalPages, FreeOk, Path, Key, WalksTo, Translation, Extends, Performed,
        AfterRequest;
      ghost var pages0 := pages;
      PerformedNone(pages0, requests);
      done := 0;
      while done < |requests|
        invariant done <= |requests| && Ready() && Valid() && Budget() == old(Budget()) && Owned() == old(Owned())
        invariant pages == Performed(pages0, requests[..done])
      {
        PerformedNext(pages0, requests, done);
        var ok := PerformOne(requests[done]);
        if !ok {
          break;
        }
        done := done + 1;
      }
      forall v: nat ensures WalksTo(mem[..], pml4 / PAGE_SIZE, v, Translation(pages0, requests[..done], Key(v))) {
        WalkFinds(pages0, requests[..done], v);
      }
    }

    /** One round of the inner loop of `VMMInit`, for the page at `addr`. */
    method MapToItself(addr: nat, ghost e: Entry, ghost before: map<nat, nat>) returns (ok: bool)
      requires Valid() && EntryUsable(e) && tables.Keys == TablesFor(pages.Keys)
      requires addr % PAGE_SIZE == 0 && e.base <= addr < e.base + e.length
      requires IdentityOver(before, pages, KeysBelow(e, addr))
      modifies this`tables, this`pages, mem, pmm, pmm.regions
      ensures Valid() && Budget() == old(Budget()) && Owned() == old(Owned())
      ensures ok ==> IdentityOver(before, pages, KeysBelow(e, addr + PAGE_SIZE)) && tables.Keys == TablesFor(pages.Keys)
      ensures !ok ==> tables.Keys < TablesFor(before.Keys + KeysOf(e)) && TotalPages(pmm.List()) == 0
    {
      hide TreeOk, TotalPages, FreeOk, Path, TablesFor, IdentityOver, KeysBelow, Key, Extends;
      ghost var was := pages;
      KeyOfAddress(e, addr);
      TablesForOne(was.Keys, addr / PAGE_SIZE);
      hide KeysOf, EntryUsable, PageEntry;
      PagesToCome(before, was, e, addr);
      TablesGrow(was.Keys + {addr / PAGE_SIZE}, before.Keys + KeysOf(e));
      IdentityStep(before, was, e, addr);
      ok := MapPage(addr, addr);
      if ok {
        KeysOfUpdate(was, addr / PAGE_SIZE, addr + 3);
      } else {
        ProperlyInside(tables.Keys, TablesFor(was.Keys + {addr / PAGE_SIZE}), TablesFor(before.Keys + KeysOf(e)));
      }
    }

    /** The inner loop of `VMMInit`: every page that begins inside the entry is mapped to itself. */
    method MapEntry(e: Entry) returns (ok: bool)
      requires Valid() && EntryUsable(e) && tables.Keys == TablesFor(pages.Keys)
      modifies this`tables, this`pages, mem, pmm, pmm.regions
      ensures Valid() && Budget() == old(Budget()) && Owned() == old(Owned())
      ensures ok ==> IdentityOver(old(pages), pages, KeysOf(e)) && tables.Keys == TablesFor(pages.Keys)
      ensures !ok ==> tables.Keys < TablesFor(old(pages.Keys) + KeysOf(e)) && TotalPages(pmm.List()) == 0
    {
      hide TreeOk, TotalPages, FreeOk, Path, TablesFor, IdentityOver, KeysBelow, Key, Extends, Owned, Budget;
      var addr, end := e.base, e.base + e.length;
      ghost var before := pages;
      IdentityBegins(before, e);
      while addr < end
        invariant addr % PAGE_SIZE == 0 && e.base <= addr
        invariant Valid() && Budget() == old(Budget()) && Owned() == old(Owned())
        invariant IdentityOver(before, pages, KeysBelow(e, addr)) && tables.Keys == TablesFor(pages.Keys)
        decreases end - addr
      {
        ok := MapToItself(addr, e, before);
        if !ok {
          return false;
        }
        addr := addr + PAGE_SIZE;
      }
      AllKeys(e, addr);
      return true;
    }

    /** `VMMInit`; false if the allocator halts, which happens exactly when the identity map needs more
        tables than there are free pages. */
    method Init(memmap: seq<Entry>) returns (ok: bool)
      requires Ready() && forall i :: 0 <= i < |memmap| && memmap[i].usable ==> EntryUsable(memmap[i])
      modifies this, mem, pmm, pmm.regions
      ensures Ready()
      ensures ok <==> |TablesFor(UsableKeys(memmap))| <= old(TotalPages(pmm.List()))
      ensures ok ==>
        Valid() && IdentityOver(map[], pages, UsableKeys(memmap)) && tables.Keys == TablesFor(UsableKeys(memmap))
      ensures ok ==> TotalPages(pmm.List()) == old(TotalPages(pmm.List())) - |tables|
      ensures ok ==> Owned() == old(Pages(pmm.List()))
      ensures !ok ==> TotalPages(pmm.List()) == 0
    {
      hide TreeOk, TotalPages, FreeOk, TablesFor, UsableKeys, IdentityOver, EntryUsable, Mapped, Pages, Owned;
      ghost var total, free := TotalPages(pmm.List()), Pages(pmm.List());
      RootNeeded(UsableKeys(memmap));
      ok := MakeRoot();
      if !ok {
        return;
      }
      MappedNone(memmap);
      var i := 0;
      while i < |memmap|
        invariant i <= |memmap| && Valid() && Budget() == total && Owned() == free && Mapped(memmap, i, tables, pages)
      {
        if memmap[i].usable {
          ok := MapUsable(memmap, i);
          if !ok {
            return;
          }
        } else {
          MappedSkip(memmap, i, tables, pages);
        }
        i := i + 1;
      }
      MappedAll(memmap, tables, pages);
      return true;
    }

    /** One round of the outer loop of `VMMInit`. */
    method MapUsable(memmap: seq<Entry>, i: nat) returns (ok: bool)
      requires Valid() && i < |memmap| && memmap[i].usable && EntryUsable(memmap[i]) && Mapped(memmap, i, tables, pages)
      modifies this`tables, this`pages, mem, pmm, pmm.regions
      ensures Valid() && Budget() == old(Budget()) && Owned() == old(Owned())
      ensures ok ==> Mapped(memmap, i + 1, tables, pages)
      ensures !ok ==> |tables| < |TablesFor(UsableKeys(memmap))| && TotalPages(pmm.List()) == 0
    {
      hide TreeOk, TotalPages, FreeOk, TablesFor, UsableKeys, KeysOf, IdentityOver, EntryUsable;
      UsableKeysNext(memmap, i);
      IdentityKeys(pages, UsableKeys(memmap[..i]));
      ghost var was := pages;
      ok := MapEntry(memmap[i]);
      if ok {
        IdentityCompose(was, pages, UsableKeys(memmap[..i]), KeysOf(memmap[i]));
      } else {
        UsableKeysGrow(memmap, i + 1);
        TablesGrow(UsableKeys(memmap[..i + 1]), UsableKeys(memmap));
        SmallerSet(tables.Keys, TablesFor(UsableKeys(memmap[..i + 1])), TablesFor(UsableKeys(memmap)));
      }
    }

    /** The PML4 is allocated and cleared. */
    method MakeRoot() returns (ok: bool)
      requires Ready()
      modifies this, mem, pmm, pmm.regions
      ensures Ready()
      ensures ok ==> Valid() && pages == map[] && tables.Keys == {Root} && Budget() == old(TotalPages(pmm.List()))
      ensures ok ==> Owned() == old(Pages(pmm.List()))
      ensures !ok ==> TotalPages(pmm.List()) == 0 == old(TotalPages(pmm.List()))
    {
      hide Pages, FirstFit, Taken, TotalPages, Disjoint, FreeOk;
      ghost var free := pmm.List();
      var block := pmm.Allocate(1);
      if block.None? {
        NothingFree(free);
        return false;
      }
      TakePage(free, mem.Length);
      ghost var a := block.value / PAGE_SIZE;
      FreePage(free, mem.Length, a);
      pml4 := block.value;
      ghost var words := mem[..];
      ClearTable(pml4);
      tables, pages := map[Root := a], map[];
      OnlyRoot(words, mem[..], pmm.List(), a);
      return true;
    }
  }

  // ---- What the methods need of the tree

  ghost predicate Extends(before: map<Node, nat>, after: map<Node, nat>) {
    forall n :: n in before ==> n in after && after[n] == before[n]
  }

  lemma ValuesAdded(tables: map<Node, nat>, n: Node, a: nat)
    requires n !in tables
    ensures tables[n := a].Values == tables.Values + {a}
  {
    var after := tables[n := a];
    assert after[n] == a;
    forall b | b in tables.Values ensures b in after.Values {
      var m :| m in tables && tables[m] == b;
      assert after[m] == b;
    }
  }

  lemma ExtendsFurther(a: map<Node, nat>, b: map<Node, nat>, c: map<Node, nat>)
    requires Extends(a, b) && Extends(b, c)
    ensures Extends(a, c)
  {
  }

  ghost predicate Cleared(words: seq<nat>, words': seq<nat>, p: nat) {
    && |words'| == |words|
    && forall i :: 0 <= i < |words| ==> words'[i] == if Word(p, 0) <= i < Word(p, ENTRIES) then 0 else words[i]
  }

  /** The tables below the root on the way to a key. */
  function Path(key: nat): set<Node> {
    {NodeOf(key, 2), NodeOf(key, 1), NodeOf(key, 0)}
  }

  /** The path is added table by table; while one is missing, the tables are fewer. */
  lemma PathStepwise(before: set<Node>, key: nat)
    ensures before + {NodeOf(key, 2)} + {NodeOf(key, 1)} + {NodeOf(key, 0)} == before + Path(key)
    ensures NodeOf(key, 2) !in before ==> before < before + Path(key)
    ensures var two := before + {NodeOf(key, 2)}; NodeOf(key, 1) !in two ==> two < before + Path(key)
    ensures var three := before + {NodeOf(key, 2)} + {NodeOf(key, 1)};
      NodeOf(key, 0) !in three ==> three < before + Path(key)
  {
  }

  lemma RootTable(words: seq<nat>, free: seq<Region>, tables: map<Node, nat>, pages: map<nat, nat>, root: nat)
    requires TreeOk(words, free, tables, pages, root)
    ensures Root in tables && tables[Root] == root
  {
  }

  /** An inner entry is NULL or the address of the table below it, and lies outside free memory. */
  lemma EntryOfTable(words: seq<nat>, free: seq<Region>, tables: map<Node, nat>, pages: map<nat, nat>, root: nat,
    n: Node, j: nat)
    requires TreeOk(words, free, tables, pages, root) && n in tables && n.level >= 1 && j < ENTRIES
    ensures Word(tables[n], ENTRIES) <= |words| && tables[n] !in Pages(free)
    ensures words[Word(tables[n], j)] == if Child(n, j) in tables then tables[Child(n, j)] * PAGE_SIZE else 0
    ensures Child(n, j) in tables ==> tables[Child(n, j)] >= 1
  {
    assert EntryOk(words, tables, pages, n, j);
    assert TableOk(|words|, free, tables, n);
    if Child(n, j) in tables {
      assert TableOk(|words|, free, tables, Child(n, j));
    }
  }

  lemma FreePage(free: seq<Region>, size: nat, p: nat)
    requires FreeOk(free, size) && p in Pages(free)
    ensures p >= 1 && Word(p, ENTRIES) <= size
  {
  }

  lemma SlotOfAdded(words: seq<nat>, words': seq<nat>, p: nat, j: nat, a: nat)
    requires TableAdded(words, words', p, j, a)
    ensures Word(p, j) < |words'| && words'[Word(p, j)] == a * PAGE_SIZE
  {
  }

  /** The allocator refuses one page only when no page is free. */
  lemma {:induction false} NothingFree(free: seq<Region>)
    requires forall i :: 0 <= i < |free| ==> free[i].pages < 1
    ensures TotalPages(free) == 0
  {
    if |free| > 0 {
      NothingFree(free[..|free| - 1]);
    }
  }

  // ---- Runs of calls

  function AfterRequest(pages: map<nat, nat>, request: Request): map<nat, nat> {
    match request
    case Map(v, p) => pages[Key(v) := PageEntry(p)]
    case Unmap(v) => pages - {Key(v)}
  }

  ghost function Performed(pages: map<nat, nat>, requests: seq<Request>): map<nat, nat> {
    if |requests| == 0 then pages
    else AfterRequest(Performed(pages, requests[..|requests| - 1]), requests[|requests| - 1])
  }

  /** What the last call about a page left there, or what was there before the run. */
  ghost function Translation(pages: map<nat, nat>, requests: seq<Request>, key: nat): Option<nat> {
    if |requests| == 0 then (if key in pages then Some(pages[key]) else None)
    else
      var last := requests[|requests| - 1];
      if Key(last.v) != key then Translation(pages, requests[..|requests| - 1], key)
      else if last.Map? then Some(PageEntry(last.p)) else None
  }

  ghost predicate WalksTo(words: seq<nat>, root: nat, v: nat, e: Option<nat>) {
    Walk(words, root, v) == e
  }

  lemma PerformedNone(pages: map<nat, nat>, requests: seq<Request>)
    ensures Performed(pages, requests[..0]) == pages
  {
  }

  lemma PerformedNext(pages: map<nat, nat>, requests: seq<Request>, i: nat)
    requires i < |requests|
    ensures Performed(pages, requests[..i + 1]) == AfterRequest(Performed(pages, requests[..i]), requests[i])
  {
    assert requests[..i + 1][..i] == requests[..i];
  }

  lemma {:induction false} LastCallCounts(pages: map<nat, nat>, requests: seq<Request>, key: nat)
    ensures var after := Performed(pages, requests);
      Translation(pages, requests, key) == if key in after then Some(after[key]) else None
  {
    hide Key, PageEntry;
    if |requests| > 0 {
      LastCallCounts(pages, requests[..|requests| - 1], key);
    }
  }

  lemma WalkAfter(words: seq<nat>, free: seq<Region>, tables: map<Node, nat>, before: map<nat, nat>,
    requests: seq<Request>, root: nat, v: nat)
    requires TreeOk(words, free, tables, Performed(before, requests), root)
    ensures WalksTo(words, root, v, Translation(before, requests, Key(v)))
  {
    hide TreeOk, Walk, Performed, Translation;
    WalkIsMap(words, free, tables, Performed(before, requests), root, v);
    LastCallCounts(before, requests, Key(v));
  }

  // ---- The identity map of usable memory

  /** Aligned, and inside the 48 bits that the tables translate. */
  predicate EntryUsable(e: Entry) {
    e.base % PAGE_SIZE == 0 && e.base + e.length <= 0x1_0000_0000_0000
  }

  /** The pages that begin in an entry, up to address `addr`. */
  ghost function KeysBelow(e: Entry, addr: nat): set<nat> {
    set k: nat | k < addr && k * PAGE_SIZE < addr && e.base <= k * PAGE_SIZE < e.base + e.length
  }

  ghost function KeysOf(e: Entry): set<nat> {
    KeysBelow(e, e.base + e.length)
  }

  /** The pages that begin in usable memory. */
  ghost function UsableKeys(memmap: seq<Entry>): set<nat> {
    if |memmap| == 0 then {}
    else
      var e := memmap[|memmap| - 1];
      UsableKeys(memmap[..|memmap| - 1]) + if e.usable then KeysOf(e) else {}
  }

  /** `after` is `before` with the pages of `keys` mapped to themselves, present and writable. */
  ghost predicate IdentityOver(before: map<nat, nat>, after: map<nat, nat>, keys: set<nat>) {
    && after.Keys == before.Keys + keys
    && forall k :: k in after ==> after[k] == if k in keys then k * PAGE_SIZE + 3 else before[k]
  }

  /** The root and the tables on the way to each of the keys. */
  ghost function TablesFor(keys: set<nat>): set<Node> {
    {Root} + (set k | k in keys :: NodeOf(k, 2)) + (set k | k in keys :: NodeOf(k, 1)) +
      (set k | k in keys :: NodeOf(k, 0))
  }

  lemma TablesForNone()
    ensures TablesFor({}) == {Root}
  {
  }

  lemma RootNeeded(keys: set<nat>)
    ensures |TablesFor(keys)| >= 1
  {
    assert Root in TablesFor(keys);
  }

  lemma TablesForOne(keys: set<nat>, k: nat)
    ensures TablesFor(keys + {k}) == TablesFor(keys) + Path(k)
  {
    forall n: Node ensures n in TablesFor(keys + {k}) <==> n in TablesFor(keys) + Path(k) {
    }
  }

  lemma TablesGrow(a: set<nat>, b: set<nat>)
    requires a <= b
    ensures TablesFor(a) <= TablesFor(b)
  {
  }

  lemma KeyOfAddress(e: Entry, addr: nat)
    requires EntryUsable(e) && addr % PAGE_SIZE == 0 && e.base <= addr < e.base + e.length
    ensures Key(addr) == addr / PAGE_SIZE && addr / PAGE_SIZE in KeysOf(e) && PageEntry(addr) == addr + 3
  {
    assert addr / PAGE_SIZE * PAGE_SIZE == addr;
  }

  lemma IdentityBegins(before: map<nat, nat>, e: Entry)
    ensures IdentityOver(before, before, KeysBelow(e, e.base))
  {
    assert KeysBelow(e, e.base) == {};
  }

  lemma AllKeys(e: Entry, addr: nat)
    requires addr >= e.base + e.length
    ensures KeysBelow(e, addr) == KeysOf(e)
  {
  }

  lemma PagesToCome(before: map<nat, nat>, was: map<nat, nat>, e: Entry, addr: nat)
    requires EntryUsable(e) && addr % PAGE_SIZE == 0 && e.base <= addr < e.base + e.length
    requires IdentityOver(before, was, KeysBelow(e, addr))
    ensures was.Keys + {addr / PAGE_SIZE} <= before.Keys + KeysOf(e)
  {
    KeyOfAddress(e, addr);
  }

  lemma IdentityStep(before: map<nat, nat>, was: map<nat, nat>, e: Entry, addr: nat)
    requires addr % PAGE_SIZE == 0 && e.base <= addr < e.base + e.length && e.base % PAGE_SIZE == 0
    requires IdentityOver(before, was, KeysBelow(e, addr))
    ensures IdentityOver(before, was[addr / PAGE_SIZE := addr + 3], KeysBelow(e, addr + PAGE_SIZE))
  {
    var k := addr / PAGE_SIZE;
    assert k * PAGE_SIZE == addr;
    assert KeysBelow(e, addr + PAGE_SIZE) == KeysBelow(e, addr) + {k};
  }

  lemma {:induction false} UsableKeysGrow(memmap: seq<Entry>, i: nat)
    requires i <= |memmap|
    ensures UsableKeys(memmap[..i]) <= UsableKeys(memmap)
    decreases |memmap|
  {
    if i < |memmap| {
      var front := memmap[..|memmap| - 1];
      assert memmap[..i] == front[..i];
      UsableKeysGrow(front, i);
    } else {
      assert memmap[..i] == memmap;
    }
  }

  lemma KeysOfUpdate(m: map<nat, nat>, k: nat, e: nat)
    ensures m[k := e].Keys == m.Keys + {k}
  {
  }

  lemma ProperlyInside(a: set<Node>, b: set<Node>, c: set<Node>)
    requires a < b <= c
    ensures a < c
  {
  }

  /** A proper subset of a part of `c` is smaller than `c`. */
  lemma SmallerSet(a: set<Node>, b: set<Node>, c: set<Node>)
    requires a < b <= c
    ensures |a| < |c|
  {
    assert c == a + (c - a);
    assert |c| == |a| + |c - a|;
  }

  /** The pages of the first `i` entries are mapped to themselves, and nothing else is. */
  ghost predicate Mapped(memmap: seq<Entry>, i: nat, tables: map<Node, nat>, pages: map<nat, nat>)
    requires i <= |memmap|
  {
    IdentityOver(map[], pages, UsableKeys(memmap[..i])) && tables.Keys == TablesFor(UsableKeys(memmap[..i]))
  }

  lemma MappedNone(memmap: seq<Entry>)
    ensures forall tables: map<Node, nat> :: tables.Keys == {Root} ==> Mapped(memmap, 0, tables, map[])
  {
    TablesForNone();
  }

  lemma MappedSkip(memmap: seq<Entry>, i: nat, tables: map<Node, nat>, pages: map<nat, nat>)
    requires i < |memmap| && !memmap[i].usable && Mapped(memmap, i, tables, pages)
    ensures Mapped(memmap, i + 1, tables, pages)
  {
    UsableKeysNext(memmap, i);
  }

  lemma MappedAll(memmap: seq<Entry>, tables: map<Node, nat>, pages: map<nat, nat>)
    requires Mapped(memmap, |memmap|, tables, pages)
    ensures IdentityOver(map[], pages, UsableKeys(memmap)) && tables.Keys == TablesFor(UsableKeys(memmap))
  {
    assert memmap[..|memmap|] == memmap;
  }

  lemma UsableKeysNext(memmap: seq<Entry>, i: nat)
    requires i < |memmap|
    ensures UsableKeys(memmap[..i + 1]) == UsableKeys(memmap[..i]) + if memmap[i].usable then KeysOf(memmap[i]) else {}
    ensures !memmap[i].usable ==> UsableKeys(memmap[..i + 1]) == UsableKeys(memmap[..i])
  {
    assert memmap[..i + 1][..i] == memmap[..i];
  }

  lemma IdentityKeys(pages: map<nat, nat>, keys: set<nat>)
    requires IdentityOver(map[], pages, keys)
    ensures pages.Keys == keys
  {
  }

  lemma IdentityCompose(was: map<nat, nat>, pages: map<nat, nat>, keys: set<nat>, more: set<nat>)
    requires IdentityOver(map[], was, keys) && IdentityOver(was, pages, more)
    ensures IdentityOver(map[], pages, keys + more) && pages.Keys == keys + more
  {
  }

  /** A cleared root alone is a tree that maps nothing. */
  lemma OnlyRoot(words: seq<nat>, words': seq<nat>, free: seq<Region>, a: nat)
    requires a >= 1 && Word(a, ENTRIES) <= |words| && a !in Pages(free) && Cleared(words, words', a)
    ensures TreeOk(words', free, map[Root := a], map[], a)
  {
    var tables, pages := map[Root := a], map[];
    forall n, j | n in tables && 0 <= j < ENTRIES ensures EntryOk(words', tables, pages, n, j) {
    }
    forall n | n in tables ensures TableOk(|words'|, free, tables, n) {
    }
    forall k: nat ensures PageOk(tables, pages, k) {
    }
  }

  // ---- What usable memory is, and what its identity map costs

  lemma {:induction false} UsableKeysAre(memmap: seq<Entry>, k: nat)
    ensures k in UsableKeys(memmap) <==>
      exists i :: 0 <= i < |memmap| && memmap[i].usable
        && memmap[i].base <= k * PAGE_SIZE < memmap[i].base + memmap[i].length
  {
    if |memmap| > 0 {
      UsableKeysAre(memmap[..|memmap| - 1], k);
    }
  }

  /** The distinct values of the keys above some low bits. */
  ghost function Prefixes(keys: set<nat>, d: nat): set<nat>
    requires d >= 1
  {
    set k | k in keys :: k / d
  }

  ghost function LevelNodes(level: nat, prefixes: set<nat>): set<Node> {
    set q | q in prefixes :: Node(level, q)
  }

  lemma {:induction false} LevelSize(level: nat, prefixes: set<nat>)
    ensures |LevelNodes(level, prefixes)| == |prefixes|
  {
    if q :| q in prefixes {
      LevelSize(level, prefixes - {q});
      assert LevelNodes(level, prefixes) == LevelNodes(level, prefixes - {q}) + {Node(level, q)};
      assert |prefixes| == |prefixes - {q}| + 1;
    } else {
      assert LevelNodes(level, prefixes) == {};
    }
  }

  /** One table for the root and one for every distinct 39-, 30- and 21-bit prefix of an address: the key
      is the address without its low 12 bits. */
  lemma TablesCounted(keys: set<nat>)
    ensures |TablesFor(keys)| == 1 + |Prefixes(keys, 0x800_0000)| + |Prefixes(keys, 0x4_0000)| + |Prefixes(keys, 0x200)|
  {
    var top, middle, low := LevelNodes(2, Prefixes(keys, 0x800_0000)), LevelNodes(1, Prefixes(keys, 0x4_0000)),
      LevelNodes(0, Prefixes(keys, 0x200));
    LevelSize(2, Prefixes(keys, 0x800_0000));
    LevelSize(1, Prefixes(keys, 0x4_0000));
    LevelSize(0, Prefixes(keys, 0x200));
    TablesByLevel(keys);
    assert |{Root} + top| == 1 + |top|;
    assert |{Root} + top + middle| == |{Root} + top| + |middle|;
    assert |{Root} + top + middle + low| == |{Root} + top + middle| + |low|;
  }

  lemma TablesByLevel(keys: set<nat>)
    ensures TablesFor(keys) == {Root} + LevelNodes(2, Prefixes(keys, 0x800_0000)) +
      LevelNodes(1, Prefixes(keys, 0x4_0000)) +
      LevelNodes(0, Prefixes(keys, 0x200))
  {
    assert (set k | k in keys :: NodeOf(k, 2)) == LevelNodes(2, Prefixes(keys, 0x800_0000));
    assert (set k | k in keys :: NodeOf(k, 1)) == LevelNodes(1, Prefixes(keys, 0x4_0000));
    assert (set k | k in keys :: NodeOf(k, 0)) == LevelNodes(0, Prefixes(keys, 0x200));
  }

  /** The memory map of the boot loader: usable entries are aligned, above page 0, inside memory, and do
      not overlap. */
  ghost predicate MemmapOk(memmap: seq<Entry>, size: nat) {
    && (forall i :: 0 <= i < |memmap| && memmap[i].usable ==> InMemory(memmap[i], size))
    && forall i, j :: 0 <= i < j < |memmap| && memmap[i].usable && memmap[j].usable ==>
      EntriesApart(memmap[i], memmap[j])
  }

  predicate InMemory(e: Entry, size: nat) {
    e.base % PAGE_SIZE == 0 && e.base >= PAGE_SIZE && e.base + e.length <= size * 8
  }

  predicate EntriesApart(a: Entry, b: Entry) {
    a.base + a.length <= b.base || b.base + b.length <= a.base
  }

  /** Then the regions that `FreelistPMMInit` enters are free memory as the page tables need it. */
  lemma UsableMemoryIsFreeOk(memmap: seq<Entry>, size: nat)
    requires MemmapOk(memmap, size)
    ensures FreeOk(UsableRegions(memmap), size)
  {
    hide Pages, UsableRegions;
    var list := UsableRegions(memmap);
    UsableDisjoint(memmap, size);
    forall p | p in Pages(list) ensures p >= 1 && Word(p, ENTRIES) <= size {
      PagesAre(list, p);
      var k :| 0 <= k < |list| && Holds(list[k], p);
      var i := RegionOrigin(memmap, k);
      RegionInside(memmap[i], size, p);
    }
    forall k | 0 <= k < |list| ensures Aligned(list[k]) {
      var i := RegionOrigin(memmap, k);
      assert InMemory(memmap[i], size);
    }
  }

  lemma RegionInside(e: Entry, size: nat, p: nat)
    requires InMemory(e, size) && Holds(EntryRegion(e), p)
    ensures p >= 1 && Word(p, ENTRIES) <= size
  {
  }

  /** Every region comes from a usable entry. */
  lemma {:induction false} RegionOrigin(memmap: seq<Entry>, k: nat) returns (i: nat)
    requires k < |UsableRegions(memmap)|
    ensures i < |memmap| && memmap[i].usable && UsableRegions(memmap)[k] == EntryRegion(memmap[i])
  {
    var front := memmap[..|memmap| - 1];
    if k < |UsableRegions(front)| {
      i := RegionOrigin(front, k);
    } else {
      i := |memmap| - 1;
    }
  }

  lemma {:induction false} UsableDisjoint(memmap: seq<Entry>, size: nat)
    requires MemmapOk(memmap, size)
    ensures Disjoint(UsableRegions(memmap))
  {
    if |memmap| > 0 {
      var last := |memmap| - 1;
      var front, list := memmap[..last], UsableRegions(memmap);
      UsableDisjoint(front, size);
      forall j, k | 0 <= j < k < |list| ensures Apart(list[j], list[k]) {
        if k < |UsableRegions(front)| {
          assert Apart(UsableRegions(front)[j], UsableRegions(front)[k]);
        } else {
          var i := RegionOrigin(front, j);
          assert EntriesApart(memmap[i], memmap[last]);
          assert InMemory(memmap[i], size) && InMemory(memmap[last], size);
          RegionsApart(memmap[i], memmap[last]);
        }
      }
    }
  }

  lemma RegionsApart(a: Entry, b: Entry)
    requires EntriesApart(a, b) && a.base % PAGE_SIZE == 0 && b.base % PAGE_SIZE == 0
    ensures Apart(EntryRegion(a), EntryRegion(b))
  {
  }

  // ---- Both initialisations

  /** The start of the kernel: the free list from the memory map, then the page tables; false if the machine
      halts, because the regions do not fit the table or the tables do not fit free memory. */
  method Boot(mem: array<nat>, memmap: seq<Entry>) returns (vmm: Vmm, ok: bool)
    requires MemmapOk(memmap, mem.Length) && mem.Length * 8 <= 0x1_0000_0000_0000
    modifies mem
    ensures fresh(vmm) && fresh(vmm.pmm) && vmm.mem == mem
    ensures ok <==> UsableCount(memmap) <= 256 && |TablesFor(UsableKeys(memmap))| <= WholePages(memmap)
    ensures ok ==> vmm.Valid() && TotalPages(vmm.pmm.List()) == WholePages(memmap) - |vmm.tables|
    ensures ok ==> forall p: nat :: p in vmm.Owned() <==> PageUsable(memmap, p)
    ensures ok ==> forall v: nat ::
      WalksTo(mem[..], vmm.pml4 / PAGE_SIZE, v,
        if Key(v) in UsableKeys(memmap) then Some(Key(v) * PAGE_SIZE + 3) else None)
  {
    hide TotalPages, FreeOk, TablesFor, UsableKeys, UsableRegions, MemmapOk, WalksTo, Key, TreeOk, Pages, PageUsable,
      UsableCount, WholePages, Vmm.Owned, Vmm.Budget, UsableAligned;
    UsableMemoryIsFreeOk(memmap, mem.Length);
    UsableSizes(memmap);
    UsableInPages(memmap, mem.Length);
    UsableEntries(memmap, mem.Length);
    NoFreePages(mem.Length);
    var pmm := new PageAllocator();
    vmm := new Vmm(mem, pmm);
    ok := pmm.Init(memmap);
    if !ok {
      return;
    }
    assert pmm.List() == UsableRegions(memmap);
    ok := vmm.Init(memmap);
    if ok {
      forall v: nat
        ensures WalksTo(mem[..], vmm.pml4 / PAGE_SIZE, v,
          if Key(v) in UsableKeys(memmap) then Some(Key(v) * PAGE_SIZE + 3) else None)
      {
        IdentityWalk(mem[..], pmm.List(), vmm.tables, vmm.pages, vmm.pml4 / PAGE_SIZE, UsableKeys(memmap), v);
      }
    }
  }

  lemma UsableInPages(memmap: seq<Entry>, size: nat)
    requires MemmapOk(memmap, size)
    ensures UsableAligned(memmap)
  {
    forall i | 0 <= i < |memmap| && memmap[i].usable ensures memmap[i].base % 4096 == 0 {
      assert InMemory(memmap[i], size);
    }
  }

  lemma NoFreePages(size: nat)
    ensures FreeOk([], size)
  {
  }

  lemma UsableEntries(memmap: seq<Entry>, size: nat)
    requires MemmapOk(memmap, size) && size * 8 <= 0x1_0000_0000_0000
    ensures forall i :: 0 <= i < |memmap| && memmap[i].usable ==> EntryUsable(memmap[i])
  {
    forall i | 0 <= i < |memmap| && memmap[i].usable ensures EntryUsable(memmap[i]) {
      assert InMemory(memmap[i], size);
    }
  }

  lemma IdentityWalk(words: seq<nat>, free: seq<Region>, tables: map<Node, nat>, pages: map<nat, nat>, root: nat,
    keys: set<nat>, v: nat)
    requires TreeOk(words, free, tables, pages, root) && IdentityOver(map[], pages, keys)
    ensures WalksTo(words, root, v, if Key(v) in keys then Some(Key(v) * PAGE_SIZE + 3) else None)
  {
    hide TreeOk, Walk, Key;
    WalkIsMap(words, free, tables, pages, root, v);
  }
}
