/** Four-level page tables in flat physical memory, as values (kernel/mm/vmm.c). */
module PageTables {
  import opened Basics
  import opened FreeLists

  const ENTRIES := 512

  /** A table: level 3 is the PML4, level 0 the tables whose entries are pages. The prefix is the part of
      the page key above what the table indexes. */
  datatype Node = Node(level: nat, prefix: nat)

  const Root := Node(3, 0)

  function Child(n: Node, j: nat): Node
    requires n.level >= 1
  {
    Node(n.level - 1, n.prefix * ENTRIES + j)
  }

  /** The key of entry `j` of a last table. */
  function KeyAt(n: Node, j: nat): nat {
    n.prefix * ENTRIES + j
  }

  function Parent(n: Node): Node {
    Node(n.level + 1, n.prefix / ENTRIES)
  }

  /** Bits 47 to 12 of a virtual address. */
  function Key(v: nat): nat {
    v / 0x1000 % 0x10_0000_0000
  }

  /** The index into the table of each level, with the source's shifts. */
  function IndexAt(v: nat, level: nat): (j: nat)
    requires level <= 3
    ensures j < ENTRIES
  {
    if level == 3 then v / 0x80_0000_0000 % ENTRIES
    else if level == 2 then v / 0x4000_0000 % ENTRIES
    else if level == 1 then v / 0x20_0000 % ENTRIES
    else v / 0x1000 % ENTRIES
  }

  /** The table of each level on the way to a key. */
  function NodeOf(key: nat, level: nat): Node
    requires level <= 3
  {
    if level == 3 then Root
    else if level == 2 then Node(2, key / 0x800_0000)
    else if level == 1 then Node(1, key / 0x4_0000)
    else Node(0, key / ENTRIES)
  }

  /** The indices lead from the root to the tables of the key, and within the last one to the key. */
  lemma IndexSplit(v: nat)
    ensures Child(NodeOf(Key(v), 3), IndexAt(v, 3)) == NodeOf(Key(v), 2)
    ensures Child(NodeOf(Key(v), 2), IndexAt(v, 2)) == NodeOf(Key(v), 1)
    ensures Child(NodeOf(Key(v), 1), IndexAt(v, 1)) == NodeOf(Key(v), 0)
    ensures NodeOf(Key(v), 0).prefix * ENTRIES + IndexAt(v, 0) == Key(v)
  {
    ShiftDigits(v / 0x1000);
    DivideTwice(v, 0x1000, 0x200);
    DivideTwice(v, 0x1000, 0x4_0000);
    DivideTwice(v, 0x1000, 0x800_0000);
  }

  lemma PathSplit(v: nat)
    ensures var key := Key(v);
      && Child(Root, IndexAt(v, 3)) == NodeOf(key, 2)
      && Child(NodeOf(key, 2), IndexAt(v, 2)) == NodeOf(key, 1)
      && Child(NodeOf(key, 1), IndexAt(v, 1)) == NodeOf(key, 0)
      && NodeOf(key, 2).level == 2 && NodeOf(key, 1).level == 1
  {
    IndexSplit(v);
  }

  lemma LastSplit(v: nat)
    ensures NodeOf(Key(v), 0).level == 0 && KeyAt(NodeOf(Key(v), 0), IndexAt(v, 0)) == Key(v)
  {
    IndexSplit(v);
  }

  lemma DivideTwice(v: nat, a: nat, b: nat)
    requires a >= 1 && b >= 1
    ensures v / a / b == v / (a * b)
  {
    var q, r := v / a / b, v / a % b;
    FlatPlace(v, a, v % a, v / a);
    FlatPlace(v / a, b, r, q);
    assert v == q * (a * b) + (r * a + v % a) by {
      assert v / a * a == (q * b + r) * a;
      assert (q * b + r) * a == q * (a * b) + r * a;
    }
    MulMonotone(r, b - 1, a);
    assert (b - 1) * a == a * b - a;
    MulMonotone(0, r, a);
    DivModUnique(q, a * b, r * a + v % a);
  }

  lemma ModDigit(k: nat, a: nat, b: nat)
    requires a >= 1 && b >= 1 && a * b >= 1
    ensures k % (a * b) / a == k / a % b
  {
    var q, r := k / (a * b), k % (a * b);
    var d, m := r / a, r % a;
    FlatPlace(k, a * b, r, q);
    FlatPlace(r, a, m, d);
    assert k == (q * b + d) * a + m by {
      assert (q * b + d) * a == q * (a * b) + d * a;
    }
    if d >= b {
      MulMonotone(b, d, a);
    }
    DivModUnique(q * b + d, a, m);
    DivModUnique(q, b, d);
  }

  lemma ModTwice(k: nat, a: nat, b: nat)
    requires a >= 1 && b >= 1 && a * b >= 1
    ensures k % (a * b) % b == k % b
  {
    var q, r := k / (a * b), k % (a * b);
    FlatPlace(k, a * b, r, q);
    FlatPlace(r, b, r % b, r / b);
    assert k == (q * a + r / b) * b + r % b by {
      assert (q * a + r / b) * b == q * (a * b) + r / b * b;
    }
    DivModUnique(q * a + r / b, b, r % b);
  }

  /** The four base-512 digits of a page number. */
  lemma ShiftDigits(k: nat)
    ensures var key := k % 0x10_0000_0000;
      && k / 0x800_0000 % ENTRIES == key / 0x800_0000
      && k / 0x4_0000 % ENTRIES == key / 0x4_0000 % ENTRIES && key / 0x4_0000 / ENTRIES == key / 0x800_0000
      && k / 0x200 % ENTRIES == key / 0x200 % ENTRIES && key / 0x200 / ENTRIES == key / 0x4_0000
      && k % ENTRIES == key % ENTRIES
  {
    var key := k % 0x10_0000_0000;
    ModDigit(k, 0x800_0000, ENTRIES);
    ModDigit(k, 0x4_0000, 0x4_0000);
    ModDigit(k, 0x200, 0x800_0000);
    ModTwice(k / 0x4_0000, 0x200, ENTRIES);
    ModTwice(k / 0x200, 0x4_0000, ENTRIES);
    ModTwice(k, 0x800_0000, ENTRIES);
    DivideTwice(key, 0x4_0000, ENTRIES);
    DivideTwice(key, 0x200, ENTRIES);
  }

  /** `(void*)(paddr | 0x03)` */
  function PageEntry(paddr: nat): (e: nat)
    ensures e != 0 && e % 4 == 3 && e / 4 == paddr / 4
  {
    paddr / 4 * 4 + 3
  }

  // ---- The tables in memory

  /** Word `j` of page `p`. */
  function Word(p: nat, j: nat): nat {
    p * ENTRIES + j
  }

  /** What entry `j` of table `n` holds: a page, the address of a table, or NULL. */
  function EntryValue(tables: map<Node, nat>, pages: map<nat, nat>, n: Node, j: nat): nat {
    if n.level == 0 then (if KeyAt(n, j) in pages then pages[KeyAt(n, j)] else 0)
    else if Child(n, j) in tables then tables[Child(n, j)] * PAGE_SIZE else 0
  }

  ghost predicate TableOk(size: nat, free: seq<Region>, tables: map<Node, nat>, n: Node)
    requires n in tables
  {
    && n.level <= 3 && (n.level == 3 ==> n.prefix == 0)
    && (n.level < 3 ==> Parent(n) in tables)
    && tables[n] >= 1 && Word(tables[n], ENTRIES) <= size
    && tables[n] !in Pages(free)
  }

  ghost predicate EntryOk(words: seq<nat>, tables: map<Node, nat>, pages: map<nat, nat>, n: Node, j: nat)
    requires n in tables
  {
    Word(tables[n], j) < |words| && words[Word(tables[n], j)] == EntryValue(tables, pages, n, j)
  }

  ghost predicate PageOk(tables: map<Node, nat>, pages: map<nat, nat>, k: nat) {
    k in pages ==> Node(0, k / ENTRIES) in tables && pages[k] != 0
  }

  ghost predicate Unshared(tables: map<Node, nat>, m: Node, n: Node)
    requires m in tables && n in tables
  {
    m != n ==> tables[m] != tables[n]
  }

  /** The tables form a tree without sharing in pages that are not free, and their entries are exactly
      the map `pages`. */
  ghost predicate TreeOk(words: seq<nat>, free: seq<Region>, tables: map<Node, nat>, pages: map<nat, nat>, root: nat) {
    && Root in tables && tables[Root] == root
    && (forall n :: n in tables ==> TableOk(|words|, free, tables, n))
    && (forall m, n :: m in tables && n in tables ==> Unshared(tables, m, n))
    && (forall n, j :: n in tables && 0 <= j < ENTRIES ==> EntryOk(words, tables, pages, n, j))
    && (forall k: nat :: PageOk(tables, pages, k))
  }

  /** Free regions are usable memory: aligned, not overlapping, above page 0 and inside memory. */
  ghost predicate FreeOk(free: seq<Region>, size: nat) {
    && Disjoint(free) && AllAligned(free)
    && forall p :: p in Pages(free) ==> p >= 1 && Word(p, ENTRIES) <= size
  }

  /** Words of different tables, and different words of one table, do not coincide. */
  lemma WordsApart(p: nat, i: nat, q: nat, j: nat)
    requires i < ENTRIES && j < ENTRIES && (p != q || i != j)
    ensures Word(p, i) != Word(q, j)
  {
  }

  // ---- Looking an address up

  /** Follows the four levels from the root as the code does; None if an entry on the way is NULL. */
  function Walk(words: seq<nat>, root: nat, v: nat): Option<nat> {
    match NextTable(words, root, IndexAt(v, 3))
    case None => None
    case Some(pdpt) =>
      match NextTable(words, pdpt, IndexAt(v, 2))
      case None => None
      case Some(pd) =>
        match NextTable(words, pd, IndexAt(v, 1))
        case None => None
        case Some(pt) => Lookup(words, pt, IndexAt(v, 0))
  }

  /** The page of the table that an entry points to. */
  function NextTable(words: seq<nat>, page: nat, j: nat): Option<nat> {
    match Lookup(words, page, j)
    case None => None
    case Some(e) => Some(e / PAGE_SIZE)
  }

  function Lookup(words: seq<nat>, page: nat, j: nat): Option<nat> {
    if Word(page, j) < |words| && words[Word(page, j)] != 0 then Some(words[Word(page, j)]) else None
  }

  lemma LookupChild(words: seq<nat>, free: seq<Region>, tables: map<Node, nat>, pages: map<nat, nat>, root: nat,
    n: Node, j: nat)
    requires TreeOk(words, free, tables, pages, root) && n in tables && n.level >= 1 && j < ENTRIES
    ensures NextTable(words, tables[n], j) == if Child(n, j) in tables then Some(tables[Child(n, j)]) else None
  {
    assert EntryOk(words, tables, pages, n, j);
    if Child(n, j) in tables {
      assert TableOk(|words|, free, tables, Child(n, j));
    }
  }

  lemma LookupPage(words: seq<nat>, free: seq<Region>, tables: map<Node, nat>, pages: map<nat, nat>, root: nat, n: Node,
    j: nat)
    requires TreeOk(words, free, tables, pages, root) && n in tables && n.level == 0 && j < ENTRIES
    ensures var k := KeyAt(n, j);
      Lookup(words, tables[n], j) == if k in pages then Some(pages[k]) else None
  {
    assert EntryOk(words, tables, pages, n, j);
    var k := KeyAt(n, j);
    assert PageOk(tables, pages, k);
  }

  /** A mapped page has its whole path of tables. */
  lemma PathOfPage(words: seq<nat>, free: seq<Region>, tables: map<Node, nat>, pages: map<nat, nat>, root: nat,
    key: nat)
    requires TreeOk(words, free, tables, pages, root)
    ensures NodeOf(key, 0) in tables ==> NodeOf(key, 1) in tables
    ensures NodeOf(key, 1) in tables ==> NodeOf(key, 2) in tables
    ensures key in pages ==> NodeOf(key, 0) in tables
  {
    if NodeOf(key, 0) in tables {
      assert TableOk(|words|, free, tables, NodeOf(key, 0));
      DivideTwice(key, ENTRIES, ENTRIES);
    }
    if NodeOf(key, 1) in tables {
      assert TableOk(|words|, free, tables, NodeOf(key, 1));
      DivideTwice(key, 0x4_0000, ENTRIES);
    }
    assert PageOk(tables, pages, key);
  }

  /** Walking the tables in memory is looking the key up in the abstract map. */
  lemma WalkIsMap(words: seq<nat>, free: seq<Region>, tables: map<Node, nat>, pages: map<nat, nat>, root: nat, v: nat)
    requires TreeOk(words, free, tables, pages, root)
    ensures Walk(words, root, v) == if Key(v) in pages then Some(pages[Key(v)]) else None
  {
    assert Root in tables && tables[Root] == root;
    hide TreeOk, Key, IndexAt, Lookup, NextTable, NodeOf, Child, KeyAt;
    var key := Key(v);
    PathSplit(v);
    LastSplit(v);
    PathOfPage(words, free, tables, pages, root, key);
    LookupChild(words, free, tables, pages, root, Root, IndexAt(v, 3));
    if NodeOf(key, 2) in tables {
      LookupChild(words, free, tables, pages, root, NodeOf(key, 2), IndexAt(v, 2));
      if NodeOf(key, 1) in tables {
        LookupChild(words, free, tables, pages, root, NodeOf(key, 1), IndexAt(v, 1));
        if NodeOf(key, 0) in tables {
          LookupPage(words, free, tables, pages, root, NodeOf(key, 0), IndexAt(v, 0));
        }
      }
    }
  }

  /** The walk of the processor (section 4.5 of volume 3A of the Intel SDM): an entry counts only if its bit 0
      is set, and bits 51 to 12 of it are the page it leads to. */
  function ProcessorWalk(words: seq<nat>, root: nat, v: nat): Option<nat> {
    match PresentTable(words, root, IndexAt(v, 3))
    case None => None
    case Some(pdpt) =>
      match PresentTable(words, pdpt, IndexAt(v, 2))
      case None => None
      case Some(pd) =>
        match PresentTable(words, pd, IndexAt(v, 1))
        case None => None
        case Some(pt) => PresentEntry(words, pt, IndexAt(v, 0))
  }

  function PresentEntry(words: seq<nat>, page: nat, j: nat): Option<nat> {
    match Lookup(words, page, j)
    case None => None
    case Some(e) => if e % 2 == 1 then Some(e) else None
  }

  function PresentTable(words: seq<nat>, page: nat, j: nat): Option<nat> {
    match PresentEntry(words, page, j)
    case None => None
    case Some(e) => Some(e / PAGE_SIZE % 0x100_0000_0000)
  }

  /** The code enters the addresses of tables without the present bit, so the processor's walk finds nothing:
      it agrees with the code's own lookup exactly for the pages that are not mapped. */
  lemma ProcessorFindsNothing(words: seq<nat>, free: seq<Region>, tables: map<Node, nat>, pages: map<nat, nat>,
    root: nat, v: nat)
    requires TreeOk(words, free, tables, pages, root)
    ensures ProcessorWalk(words, root, v) == None
    ensures ProcessorWalk(words, root, v) == Walk(words, root, v) <==> Key(v) !in pages
  {
    RootEntry(words, free, tables, pages, root, IndexAt(v, 3));
    hide TreeOk, Walk, Key, IndexAt;
    WalkIsMap(words, free, tables, pages, root, v);
  }

  /** With the present bit in every entry in use, and bits 63 to 52 clear,
    the processor would find what the code does. */
  lemma ProcessorWouldFind(words: seq<nat>, root: nat, v: nat)
    requires forall i :: 0 <= i < |words| ==> words[i] == 0 || (words[i] % 2 == 1 && words[i] < 0x10_0000_0000_0000)
    ensures ProcessorWalk(words, root, v) == Walk(words, root, v)
  {
    hide IndexAt, Word, Lookup;
    forall page: nat, j: nat
      ensures PresentEntry(words, page, j) == Lookup(words, page, j)
      ensures PresentTable(words, page, j) == NextTable(words, page, j)
    {
      EntryPresent(words, page, j);
    }
  }

  lemma EntryPresent(words: seq<nat>, page: nat, j: nat)
    requires forall i :: 0 <= i < |words| ==> words[i] == 0 || (words[i] % 2 == 1 && words[i] < 0x10_0000_0000_0000)
    ensures PresentEntry(words, page, j) == Lookup(words, page, j)
    ensures PresentTable(words, page, j) == NextTable(words, page, j)
  {
  }

  lemma RootEntry(words: seq<nat>, free: seq<Region>, tables: map<Node, nat>, pages: map<nat, nat>, root: nat, j: nat)
    requires TreeOk(words, free, tables, pages, root) && j < ENTRIES
    ensures PresentEntry(words, root, j) == None
  {
    assert EntryOk(words, tables, pages, Root, j);
  }

  // ---- Adding a table and setting an entry

  /** Memory after a new table in page `a` was entered in slot (p, j) and cleared. */
  ghost predicate TableAdded(words: seq<nat>, words': seq<nat>, p: nat, j: nat, a: nat) {
    && |words'| == |words| && Word(p, j) < |words|
    && forall i :: 0 <= i < |words| ==>
      words'[i] == if i == Word(p, j) then a * PAGE_SIZE else if Word(a, 0) <= i < Word(a, ENTRIES) then 0 else words[i]
  }

  /** A block of one page leaves the free list. */
  lemma TakePage(free: seq<Region>, size: nat)
    requires FreeOk(free, size) && FirstFit(free, 1).Some?
    ensures var a, rest := Block(free, 1).start / PAGE_SIZE, Taken(free, 1);
      && Block(free, 1).start == a * PAGE_SIZE
      && a in Pages(free) && a !in Pages(rest)
      && Pages(free) == Pages(rest) + {a}
      && FreeOk(rest, size) && TotalPages(rest) == TotalPages(free) - 1
  {
    hide Pages, TotalPages, FirstFit, Taken, Disjoint;
    var block, rest := Block(free, 1), Taken(free, 1);
    assert [] + free == free;
    assert [] + [block] + rest == [block] + rest;
    TakeRepartitions([], free, 1);
    SplitFirst(block, rest);
    assert ([block] + rest)[0] == block;
    FlatPlace(block.start, PAGE_SIZE, 0, block.start / PAGE_SIZE);
    assert Holds(block, block.start / PAGE_SIZE);
    forall p: nat ensures p in Pages(free) <==> p in Pages(rest) || p == block.start / PAGE_SIZE {
      SplitPage(block, rest, p);
    }
  }

  /** The first of a list of disjoint regions covers pages of its own. */
  lemma SplitFirst(block: Region, rest: seq<Region>)
    requires Disjoint([block] + rest) && AllAligned([block] + rest)
    ensures Disjoint(rest) && AllAligned(rest)
    ensures forall p :: p in Pages(rest) ==> p in Pages([block] + rest)
    ensures forall p: nat :: Holds(block, p) ==> p in Pages([block] + rest) && p !in Pages(rest)
    ensures TotalPages([block] + rest) == block.pages + TotalPages(rest)
  {
    hide Pages, TotalPages;
    TailOk(block, rest);
    TotalConcat([block], rest);
    TotalOne(block);
    forall p: nat
      ensures p in Pages(rest) ==> p in Pages([block] + rest)
      ensures Holds(block, p) ==> p in Pages([block] + rest) && p !in Pages(rest)
    {
      SplitPage(block, rest, p);
    }
  }

  lemma SplitPage(block: Region, rest: seq<Region>, p: nat)
    requires Disjoint([block] + rest)
    ensures p in Pages(rest) ==> p in Pages([block] + rest)
    ensures Holds(block, p) ==> p in Pages([block] + rest) && p !in Pages(rest)
    ensures p in Pages([block] + rest) ==> p in Pages(rest) || Holds(block, p)
  {
    hide Pages;
    var all := [block] + rest;
    PagesAre(rest, p);
    PagesAre(all, p);
    if k :| 0 <= k < |all| && Holds(all[k], p) {
      assert k > 0 ==> Holds(rest[k - 1], p);
    }
    if k :| 0 <= k < |rest| && Holds(rest[k], p) {
      assert Holds(all[k + 1], p);
      assert Apart(all[0], all[k + 1]);
    }
    assert all[0] == block;
  }

  lemma TailOk(block: Region, rest: seq<Region>)
    requires Disjoint([block] + rest) && AllAligned([block] + rest)
    ensures Disjoint(rest) && AllAligned(rest)
  {
    var all := [block] + rest;
    forall i, j | 0 <= i < j < |rest| ensures Apart(rest[i], rest[j]) {
      assert Apart(all[i + 1], all[j + 1]);
    }
    forall i | 0 <= i < |rest| ensures Aligned(rest[i]) {
      assert Aligned(all[i + 1]);
    }
  }

  /** Entering a cleared table in an empty slot keeps the tree and the map. */
  lemma AddTable(words: seq<nat>, words': seq<nat>, free: seq<Region>, free': seq<Region>,
                 tables: map<Node, nat>, pages: map<nat, nat>, root: nat, n: Node, j: nat, a: nat)
    requires TreeOk(words, free, tables, pages, root) && n in tables && n.level >= 1 && j < ENTRIES
    requires Child(n, j) !in tables
    requires a in Pages(free) && a !in Pages(free') && (forall p :: p in Pages(free') ==> p in Pages(free))
    requires a >= 1 && Word(a, ENTRIES) <= |words|
    requires TableAdded(words, words', tables[n], j, a)
    ensures TreeOk(words', free', tables[Child(n, j) := a], pages, root)
  {
    hide Pages, EntryValue;
    var c, tables' := Child(n, j), tables[Child(n, j) := a];
    DivModUnique(n.prefix, ENTRIES, j);
    assert TableOk(|words|, free, tables, n);
    assert Parent(c) == n;
    forall m | m in tables ensures tables[m] != a {
      assert TableOk(|words|, free, tables, m);
    }
    forall m | m in tables' ensures TableOk(|words'|, free', tables', m) {
      assert m in tables ==> TableOk(|words|, free, tables, m);
    }
    forall m, o | m in tables' && o in tables' ensures Unshared(tables', m, o) {
      assert m in tables && o in tables ==> Unshared(tables, m, o);
    }
    forall m, i | m in tables' && 0 <= i < ENTRIES ensures EntryOk(words', tables', pages, m, i) {
      if m == c {
        NewTableEmpty(words, free, tables, pages, root, n, j, a, i);
        WordsApart(tables[n], j, a, i);
        assert Word(a, 0) <= Word(a, i) < Word(a, ENTRIES);
      } else {
        OldEntry(words, words', free, tables, pages, root, n, j, a, m, i);
      }
    }
    forall k: nat ensures PageOk(tables', pages, k) {
      assert PageOk(tables, pages, k);
    }
  }

  /** No table and no page lies below a table that is not there. */
  lemma NewTableEmpty(words: seq<nat>, free: seq<Region>, tables: map<Node, nat>, pages: map<nat, nat>, root: nat,
    n: Node, j: nat, a: nat, i: nat)
    requires TreeOk(words, free, tables, pages, root) && n in tables && n.level >= 1 && j < ENTRIES && i < ENTRIES
    requires Child(n, j) !in tables
    ensures EntryValue(tables[Child(n, j) := a], pages, Child(n, j), i) == 0
  {
    hide Pages;
    var c := Child(n, j);
    if c.level == 0 {
      var k := c.prefix * ENTRIES + i;
      DivModUnique(c.prefix, ENTRIES, i);
      assert PageOk(tables, pages, k);
    } else {
      var d := Child(c, i);
      DivModUnique(c.prefix, ENTRIES, i);
      assert Parent(d) == c;
      assert TableOk(|words|, free, tables, n);
      assert d in tables ==> TableOk(|words|, free, tables, d);
    }
  }

  lemma OldEntry(words: seq<nat>, words': seq<nat>, free: seq<Region>, tables: map<Node, nat>, pages: map<nat, nat>,
    root: nat,
                 n: Node, j: nat, a: nat, m: Node, i: nat)
    requires TreeOk(words, free, tables, pages, root) && n in tables && n.level >= 1 && j < ENTRIES
    requires Child(n, j) !in tables && m in tables && i < ENTRIES
    requires a in Pages(free) && TableAdded(words, words', tables[n], j, a)
    ensures EntryOk(words', tables[Child(n, j) := a], pages, m, i)
  {
    hide Pages;
    assert EntryOk(words, tables, pages, m, i);
    assert TableOk(|words|, free, tables, m);
    assert Unshared(tables, m, n);
    var w := Word(tables[m], i);
    if m == n && i == j {
    } else {
      WordsApart(tables[m], i, tables[n], j);
      assert !(Word(a, 0) <= w < Word(a, ENTRIES));
      assert m.level >= 1 ==> Child(m, i) != Child(n, j) by {
        DivModUnique(m.prefix, ENTRIES, i);
        DivModUnique(n.prefix, ENTRIES, j);
      }
    }
  }

  /** Setting the entry of a key in the last table changes the map at that key only; NULL removes it. */
  lemma SetEntry(words: seq<nat>, free: seq<Region>, tables: map<Node, nat>, pages: map<nat, nat>, pages': map<nat,
    nat>, root: nat, n: Node, j: nat, e: nat)
    requires TreeOk(words, free, tables, pages, root) && n in tables && n.level == 0 && j < ENTRIES
    requires EntrySet(pages, pages', KeyAt(n, j), e)
    ensures Word(tables[n], j) < |words|
    ensures TreeOk(words[Word(tables[n], j) := e], free, tables, pages', root)
  {
    hide Pages, EntryValue;
    assert EntryOk(words, tables, pages, n, j);
    var words' := words[Word(tables[n], j) := e];
    forall m | m in tables ensures TableOk(|words'|, free, tables, m) {
      assert TableOk(|words|, free, tables, m);
    }
    forall m, i | m in tables && 0 <= i < ENTRIES ensures EntryOk(words', tables, pages', m, i) {
      EntryAfterSet(words, free, tables, pages, pages', root, n, j, e, m, i);
    }
    forall q: nat ensures PageOk(tables, pages', q) {
      DivModUnique(n.prefix, ENTRIES, j);
      assert PageOk(tables, pages, q);
    }
  }

  ghost predicate EntrySet(pages: map<nat, nat>, pages': map<nat, nat>, k: nat, e: nat) {
    pages' == if e == 0 then pages - {k} else pages[k := e]
  }

  lemma EntryAfterSet(words: seq<nat>, free: seq<Region>, tables: map<Node, nat>, pages: map<nat, nat>, pages': map<nat,
    nat>, root: nat,
                      n: Node, j: nat, e: nat, m: Node, i: nat)
    requires TreeOk(words, free, tables, pages, root) && n in tables && n.level == 0 && j < ENTRIES
    requires EntrySet(pages, pages', KeyAt(n, j), e)
    requires m in tables && i < ENTRIES && Word(tables[n], j) < |words|
    ensures EntryOk(words[Word(tables[n], j) := e], tables, pages', m, i)
  {
    hide Pages;
    assert EntryOk(words, tables, pages, m, i);
    assert TableOk(|words|, free, tables, m) && TableOk(|words|, free, tables, n);
    assert Unshared(tables, m, n);
    if m != n || i != j {
      WordsApart(tables[m], i, tables[n], j);
      if m.level == 0 {
        assert m.prefix * ENTRIES + i != KeyAt(n, j) by {
          DivModUnique(m.prefix, ENTRIES, i);
          DivModUnique(n.prefix, ENTRIES, j);
        }
      }
    }
  }
}
