/** What the order of ptiter is good for: freeing a page table while walking it. */
module FreePageTable {
  import opened Paging
  import opened PtIter

  /** A page-table page below the root, at the start of the range it maps. */
  ghost predicate IsPage(h: Heap, root: nat, v: Visit)
    requires WellFormed(h, root, 3)
  {
    && v.level <= 2 && v.base < VA_SPACE && v.base % Span(v.level + 1) == 0
    && OnPath(h, root, v.base, v.level) && v.addr == TableAt(h, root, v.base, v.level)
  }

  /** w is reached through v. */
  ghost predicate IsBelow(w: Visit, v: Visit)
    requires w.level <= 2 && v.level <= 2
  {
    w.level < v.level && w.base / Span(v.level + 1) == v.base / Span(v.level + 1)
  }

  ghost function End(v: Visit): nat
    requires v.level <= 2
  {
    v.base + Span(v.level + 1)
  }

  ghost predicate Precedes(v: Visit, w: Visit)
    requires v.level <= 2 && w.level <= 2
  {
    End(v) < End(w) || (End(v) == End(w) && v.level < w.level)
  }

  /** The pages mapping parts of one range of Span(level + 1) bytes, from va on. */
  ghost predicate InRange(h: Heap, root: nat, v: Visit, level: nat, va: nat)
    requires 1 <= level <= 3 && WellFormed(h, root, 3)
  {
    IsPage(h, root, v) && v.level < level && va <= v.base && v.base / Span(level + 1) == va / Span(level + 1)
  }

  /** The pages behind one entry: the page it points to and all below that. */
  ghost predicate Behind(h: Heap, root: nat, v: Visit, level: nat, va: nat)
    requires 1 <= level <= 3 && WellFormed(h, root, 3)
  {
    IsPage(h, root, v) && v.level < level && v.base / Span(level) == va / Span(level)
  }

  lemma SameBlock(va: nat, b: nat, level: nat)
    requires level <= 4 && va % Span(level) == 0
    ensures b / Span(level) == va / Span(level) <==> va <= b < va + Span(level)
  {
  }

  lemma BehindEntry(h: Heap, root: nat, v: Visit, level: nat, va: nat)
    requires 1 <= level <= 3 && WellFormed(h, root, 3) && OnPath(h, root, va, level) && va % Span(level) == 0
    requires Behind(h, root, v, level, va)
    ensures EntryAt(h, root, va, level).IsTable()
    ensures v.level == level - 1 ==> v == Visit(EntryAt(h, root, va, level).addr, level - 1, va)
    ensures v.level < level - 1 ==> InRange(h, root, v, level - 1, va)
  {
    SameBlock(va, v.base, level);
    SameIndexes(va, v.base, level, level);
    SameTable(h, root, va, v.base, level);
    OnPathAbove(h, root, v.base, v.level, level);
    assert EntryAt(h, root, va, level) == EntryAt(h, root, v.base, level);
    if v.level == level - 1 {
      SameBase(va, v.base, level);
    }
  }

  lemma EntryPointsToPage(h: Heap, root: nat, level: nat, va: nat)
    requires 1 <= level <= 3 && WellFormed(h, root, 3) && OnPath(h, root, va, level) && va % Span(level) == 0
    requires va < VA_SPACE && EntryAt(h, root, va, level).IsTable()
    ensures OnPath(h, root, va, level - 1)
    ensures Behind(h, root, Visit(EntryAt(h, root, va, level).addr, level - 1, va), level, va)
  {
  }

  lemma InRangeBehind(h: Heap, root: nat, v: Visit, level: nat, va: nat)
    requires 2 <= level <= 3 && WellFormed(h, root, 3) && InRange(h, root, v, level - 1, va)
    ensures Behind(h, root, v, level, va)
  {
  }

  /** Exactly the pages of the range are listed. */
  lemma {:induction false} Listed(h: Heap, root: nat, v: Visit, level: nat, va: nat)
    requires 1 <= level <= 3 && WellFormed(h, root, 3) && OnPath(h, root, va, level)
    requires va % Span(level) == 0 && va < VA_SPACE
    ensures v in Below(h, TableAt(h, root, va, level), level, va) <==> InRange(h, root, v, level, va)
    decreases level, ENTRIES - Index(va, level)
  {
    var t, e, n := TableAt(h, root, va, level), EntryAt(h, root, va, level), NextVa(va, level);
    Aligned(va, level);
    NextCrosses(va, level);
    assert v in Below(h, t, level, va) <==> v in EntryVisits(h, e, level, va) || v in BelowAfter(h, t, level, va);
    ListedEntry(h, root, v, level, va);
    SameBlock(va, v.base, level);
    if n / Span(level + 1) == va / Span(level + 1) {
      SameTable(h, root, va, n, level);
      InSpace(va, n, level);
      Listed(h, root, v, level, n);
      assert InRange(h, root, v, level, va) <==> Behind(h, root, v, level, va) || InRange(h, root, v, level, n) by {
        WiderRange(h, root, v, level, va, n);
      }
    } else {
      LastBlock(h, root, v, level, va, n);
    }
  }

  lemma WiderRange(h: Heap, root: nat, v: Visit, level: nat, va: nat, n: nat)
    requires 1 <= level <= 3 && WellFormed(h, root, 3) && va % Span(level) == 0 && n == va + Span(level)
    requires n / Span(level + 1) == va / Span(level + 1)
    ensures InRange(h, root, v, level, va) <==> Behind(h, root, v, level, va) || InRange(h, root, v, level, n)
  {
    SameBlock(va, v.base, level);
    if v.base / Span(level) == va / Span(level) {
      SameIndexes(v.base, va, level, level);
    }
  }

  lemma LastBlock(h: Heap, root: nat, v: Visit, level: nat, va: nat, n: nat)
    requires 1 <= level <= 3 && WellFormed(h, root, 3) && va % Span(level) == 0 && n == va + Span(level)
    requires n / Span(level + 1) != va / Span(level + 1)
    ensures InRange(h, root, v, level, va) <==> Behind(h, root, v, level, va)
  {
    SameBlock(va, v.base, level);
    if v.base / Span(level) == va / Span(level) {
      SameIndexes(v.base, va, level, level);
    } else if v.base >= n {
      DivMonotone(n, v.base, level + 1);
      DivMonotone(va, n, level + 1);
    }
  }

  lemma DivMonotone(x: nat, y: nat, level: nat)
    requires level <= 4 && x <= y
    ensures x / Span(level) <= y / Span(level)
  {
  }

  lemma {:induction false} ListedEntry(h: Heap, root: nat, v: Visit, level: nat, va: nat)
    requires 1 <= level <= 3 && WellFormed(h, root, 3) && OnPath(h, root, va, level)
    requires va % Span(level) == 0 && va < VA_SPACE
    ensures v in EntryVisits(h, EntryAt(h, root, va, level), level, va) <==> Behind(h, root, v, level, va)
    decreases level, 0
  {
    var e := EntryAt(h, root, va, level);
    if Behind(h, root, v, level, va) {
      BehindEntry(h, root, v, level, va);
    }
    if e.IsTable() {
      EntryPointsToPage(h, root, level, va);
      if level >= 2 {
        Aligned(va, level);
        Listed(h, root, v, level - 1, va);
        if InRange(h, root, v, level - 1, va) {
          InRangeBehind(h, root, v, level, va);
        }
      }
    }
  }

  // ----- the order -----

  ghost predicate Ordered(s: seq<Visit>) {
    && (forall i :: 0 <= i < |s| ==> s[i].level <= 2)
    && (forall i, j :: 0 <= i < j < |s| ==> Precedes(s[i], s[j]))
  }

  lemma OrderedConcat(s: seq<Visit>, t: seq<Visit>, limit: nat, level: nat)
    requires Ordered(s) && Ordered(t)
    requires forall v :: v in s ==> End(v) <= limit && v.level <= level
    requires forall v :: v in t ==> End(v) > limit || (End(v) == limit && v.level > level)
    ensures Ordered(s + t)
  {
  }

  /** A page ends within the block of the entry it is behind. */
  lemma EndsWithin(v: Visit, level: nat, va: nat)
    requires 1 <= level <= 3 && v.level < level && va % Span(level) == 0
    requires v.base % Span(v.level + 1) == 0 && v.base / Span(level) == va / Span(level)
    ensures va < End(v) <= va + Span(level)
  {
    SameBlock(va, v.base, level);
    if v.level + 1 < level {
      BlockFits(v.base, v.level + 1, level, va);
    }
  }

  lemma BlockFits(b: nat, m: nat, level: nat, va: nat)
    requires 1 <= m < level <= 3 && b % Span(m) == 0 && va % Span(level) == 0 && va <= b < va + Span(level)
    ensures b + Span(m) <= va + Span(level)
  {
    if m == 2 {
      Multiples(b, 0x4000_0000, va, 512);
    } else if level == 2 {
      Multiples(b, 0x20_0000, va, 512);
    } else {
      Multiples(b, 0x20_0000, va, 512 * 512);
    }
  }

  /** A multiple of s below the next multiple of s * r leaves room for a whole s. */
  lemma Multiples(b: nat, s: nat, va: nat, r: nat)
    requires s > 0 && r > 0 && b % s == 0 && va % (s * r) == 0 && b < va + s * r
    ensures b + s <= va + s * r
  {
    var q, a := b / s, va / (s * r);
    assert b == s * q && va == s * r * a == s * (r * a);
    assert s * q < s * (r * a + r);
    assert q + 1 <= r * a + r by {
      assert q >= r * a + r ==> s * q >= s * (r * a + r);
    }
    assert s * (q + 1) <= s * (r * a + r);
  }

  lemma {:induction false} BelowOrdered(h: Heap, root: nat, level: nat, va: nat)
    requires 1 <= level <= 3 && WellFormed(h, root, 3) && OnPath(h, root, va, level)
    requires va % Span(level) == 0 && va < VA_SPACE
    ensures Ordered(Below(h, TableAt(h, root, va, level), level, va))
    decreases level, ENTRIES - Index(va, level)
  {
    var t, e, n := TableAt(h, root, va, level), EntryAt(h, root, va, level), NextVa(va, level);
    Aligned(va, level);
    NextCrosses(va, level);
    var first, rest := EntryVisits(h, e, level, va), BelowAfter(h, t, level, va);
    assert Below(h, t, level, va) == first + rest;
    EntryOrdered(h, root, level, va);
    if n / Span(level + 1) == va / Span(level + 1) {
      SameTable(h, root, va, n, level);
      InSpace(va, n, level);
      BelowOrdered(h, root, level, n);
      forall v | v in rest
        ensures v.level <= 2 && End(v) > n
      {
        Listed(h, root, v, level, n);
      }
      OrderedConcat(first, rest, n, 2);
    } else {
      assert first + rest == first;
    }
  }

  lemma {:induction false} EntryOrdered(h: Heap, root: nat, level: nat, va: nat)
    requires 1 <= level <= 3 && WellFormed(h, root, 3) && OnPath(h, root, va, level)
    requires va % Span(level) == 0 && va < VA_SPACE
    ensures var s := EntryVisits(h, EntryAt(h, root, va, level), level, va);
      Ordered(s) && forall v :: v in s ==> v.level <= 2 && End(v) <= va + Span(level)
    decreases level, 0
  {
    var e := EntryAt(h, root, va, level);
    forall v | v in EntryVisits(h, e, level, va)
      ensures v.level <= 2 && End(v) <= va + Span(level)
    {
      ListedEntry(h, root, v, level, va);
      EndsWithin(v, level, va);
    }
    if e.IsTable() && level >= 2 {
      EntryPointsToPage(h, root, level, va);
      Aligned(va, level);
      BelowOrdered(h, root, level - 1, va);
      var s := Below(h, e.addr, level - 1, va);
      forall v | v in s
        ensures v.level < level - 1 && End(v) <= va + Span(level)
      {
        Listed(h, root, v, level - 1, va);
        InRangeBehind(h, root, v, level, va);
        EndsWithin(v, level, va);
      }
      OrderedConcat(s, [Visit(e.addr, level - 1, va)], va + Span(level), level - 2);
    }
  }

  /** Every page below the root is visited, nothing else is, and each page comes after every page below it. */
  lemma PostOrderCorrect(h: Heap, root: nat)
    requires WellFormed(h, root, 3)
    ensures forall v :: v in PostOrder(h, root) <==> IsPage(h, root, v)
    ensures Ordered(PostOrder(h, root))
    ensures var s := PostOrder(h, root);
      forall i, j :: 0 <= i < |s| && 0 <= j < |s| && IsBelow(s[i], s[j]) ==> i < j
  {
    var s := PostOrder(h, root);
    Start(h, root, 3, 0);
    forall v
      ensures v in s <==> IsPage(h, root, v)
    {
      WholeRange(h, root, v, 3, 0);
    }
    forall i, j | 0 <= i < |s| && 0 <= j < |s| && IsBelow(s[i], s[j])
      ensures i < j
    {
      assert s[i] in s && s[j] in s;
      EndsWithin(s[i], s[j].level + 1, s[j].base);
    }
  }

  lemma Start(h: Heap, root: nat, level: nat, va: nat)
    requires WellFormed(h, root, 3) && level == 3 && va % Span(level) == 0 && va < VA_SPACE
    ensures Ordered(Below(h, root, level, va))
  {
    BelowOrdered(h, root, level, va);
  }

  lemma WholeRange(h: Heap, root: nat, v: Visit, level: nat, va: nat)
    requires WellFormed(h, root, 3) && level == 3 && va == 0
    ensures v in Below(h, root, level, va) <==> IsPage(h, root, v)
  {
    Listed(h, root, v, level, va);
  }

  // ----- freeing -----

  /** In a tree-shaped page table pages are told apart by their addresses, and from the root. */
  lemma DistinctPages(h: Heap, root: nat, v: Visit, w: Visit)
    requires WellFormed(h, root, 3) && TreeShaped(h, root) && IsPage(h, root, v) && IsPage(h, root, w)
    ensures v.addr == w.addr ==> v == w
    ensures v.addr != root
  {
    assert OnPath(h, root, 0, 3) && TableAt(h, root, 0, 3) == root;
    if v.addr == w.addr {
      SameWalkSameBlock(v.base, w.base, v.level + 1);
      SameBase(v.base, w.base, v.level + 1);
    }
  }

  ghost predicate Reachable(h: Heap, root: nat, a: nat)
    requires WellFormed(h, root, 3)
  {
    a == root || exists v :: IsPage(h, root, v) && v.addr == a
  }

  /** Part of the way through freeing: the pages to come are intact, the others of the tree are gone. */
  ghost predicate Freeing(h: Heap, root: nat, pages: Heap, todo: seq<Visit>)
    requires WellFormed(h, root, 3)
  {
    && Live(pages, h, root, todo) && Ordered(todo)
    && (forall v :: v in todo ==> IsPage(h, root, v))
    && (forall v :: IsPage(h, root, v) ==> v in todo || v.addr !in pages)
    && (forall a :: a in h && a !in pages ==> Reachable(h, root, a))
  }

  /** The visits still to come have distinct addresses, so freeing one leaves the others. */
  lemma FreeOne(h: Heap, root: nat, pages: Heap, todo: seq<Visit>)
    requires WellFormed(h, root, 3) && TreeShaped(h, root) && todo != [] && Freeing(h, root, pages, todo)
    ensures todo[0].addr in pages && Freeing(h, root, pages - {todo[0].addr}, todo[1..])
  {
    assert todo[0] in todo;
    DistinctPages(h, root, todo[0], todo[0]);
    OthersDiffer(h, root, todo);
    KeepLive(h, root, pages, todo);
    KeepGone(h, root, pages, todo);
  }

  lemma KeepLive(h: Heap, root: nat, pages: Heap, todo: seq<Visit>)
    requires todo != [] && Live(pages, h, root, todo) && todo[0].addr != root
    requires forall v :: v in todo[1..] ==> v in todo && v.addr != todo[0].addr
    ensures Live(pages - {todo[0].addr}, h, root, todo[1..])
  {
  }

  lemma KeepGone(h: Heap, root: nat, pages: Heap, todo: seq<Visit>)
    requires WellFormed(h, root, 3) && todo != [] && IsPage(h, root, todo[0])
    requires forall v :: IsPage(h, root, v) ==> v in todo || v.addr !in pages
    requires forall a :: a in h && a !in pages ==> Reachable(h, root, a)
    ensures forall v :: IsPage(h, root, v) ==> v in todo[1..] || v.addr !in pages - {todo[0].addr}
    ensures forall a :: a in h && a !in pages - {todo[0].addr} ==> Reachable(h, root, a)
  {
    assert todo == [todo[0]] + todo[1..];
  }

  lemma OthersDiffer(h: Heap, root: nat, todo: seq<Visit>)
    requires WellFormed(h, root, 3) && TreeShaped(h, root) && todo != [] && Ordered(todo)
    requires forall v :: v in todo ==> IsPage(h, root, v)
    ensures Ordered(todo[1..]) && forall v :: v in todo[1..] ==> v in todo && v.addr != todo[0].addr
  {
    forall v | v in todo[1..]
      ensures v in todo && v.addr != todo[0].addr
    {
      var k :| 0 <= k < |todo[1..]| && todo[1..][k] == v;
      assert todo[k + 1] == v && Precedes(todo[0], todo[k + 1]);
      DistinctPages(h, root, todo[0], v);
    }
  }

  lemma NothingFreedYet(h: Heap, root: nat)
    requires WellFormed(h, root, 3) && TreeShaped(h, root)
    ensures Freeing(h, root, h, PostOrder(h, root))
  {
    PostOrderCorrect(h, root);
    PagesPresent(h, root);
  }

  lemma AllFreed(h: Heap, root: nat, pages: Heap)
    requires WellFormed(h, root, 3) && Freeing(h, root, pages, [])
    ensures forall a :: a in pages - {root} <==> a in h && !Reachable(h, root, a)
  {
  }

  /** The freeing loop in ptiter's own documentation: every page of the tree is freed, once, nothing else is, and no
      freed page is read again. */
  method FreeAll(mem: Memory, pt: nat)
    requires WellFormed(mem.pages, pt, 3) && TreeShaped(mem.pages, pt)
    modifies mem
    ensures forall a :: a in mem.pages <==> a in old(mem.pages) && !Reachable(old(mem.pages), pt, a)
    ensures forall a :: a in mem.pages ==> mem.pages[a] == old(mem.pages)[a]
  {
    ghost var h, todo := mem.pages, PostOrder(mem.pages, pt);
    NothingFreedYet(h, pt);
    var it := new Iterator(mem, pt, h);
    while !it.Done()
      invariant fresh(it) && it.mem == mem && it.root == pt && it.Valid(h, todo) && Freeing(h, pt, mem.pages, todo)
      decreases |todo|
    {
      FreeCurrent(it, h, todo);
      todo := todo[1..];
    }
    AllFreed(h, pt, mem.pages);
    mem.Kfree(pt);
  }

  /** The body and step of the loop: free the current page, then move to the next. */
  method FreeCurrent(it: Iterator, ghost h: Heap, ghost todo: seq<Visit>)
    requires !it.Done() && it.Valid(h, todo) && TreeShaped(h, it.root) && Freeing(h, it.root, it.mem.pages, todo)
    modifies it, it.mem
    ensures todo != [] && it.Valid(h, todo[1..]) && Freeing(h, it.root, it.mem.pages, todo[1..])
  {
    it.Current(h, todo);
    FreeOne(h, it.root, it.mem.pages, todo);
    it.mem.Kfree(it.Addr());
    it.Next(h, todo);
  }

  lemma PagesPresent(h: Heap, root: nat)
    requires WellFormed(h, root, 3) && TreeShaped(h, root)
    ensures forall v :: IsPage(h, root, v) ==> v.addr in h && v.addr != root
  {
    forall v | IsPage(h, root, v)
      ensures v.addr != root
    {
      DistinctPages(h, root, v, v);
    }
  }
}
