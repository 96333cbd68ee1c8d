/** Four-level x86-64 page tables (Intel SDM volume 3A, section 4.5), as a heap of 512-entry pages. */
module Paging {
  import opened Options

  /** The flag bits of an entry or of a permission word; `rest` stands for the bits other than PTE_P, PTE_W, PTE_U
      and PTE_PS. */
  datatype Flags = Flags(p: bool, w: bool, u: bool, ps: bool, rest: nat)

  const NO_FLAGS := Flags(false, false, false, false, 0)

  /** A page-table entry: the page-aligned physical address it holds, and its flags. */
  datatype Pte = Pte(addr: nat, flags: Flags) {
    /** (entry & (PTE_P | PTE_PS)) == PTE_P: the entry points to a page-table page. */
    predicate IsTable() {
      flags.p && !flags.ps
    }
  }

  const ZERO_PTE := Pte(0, NO_FLAGS)

  type Page = seq<Pte>
  type Heap = map<nat, Page>

  const ENTRIES := 512

  /** Bytes mapped by one entry at a level: pageoffmask(level) + 1. */
  function Span(level: nat): (s: nat)
    requires level <= 4
    ensures s > 0
  {
    if level == 0 then 0x1000
    else if level == 1 then 0x20_0000
    else if level == 2 then 0x4000_0000
    else if level == 3 then 0x80_0000_0000
    else 0x1_0000_0000_0000
  }

  const VA_SPACE := 0x1_0000_0000_0000

  /** pageindex(va, level). */
  function Index(va: nat, level: nat): (i: nat)
    requires level <= 3
    ensures i < ENTRIES
  {
    (va / Span(level)) % ENTRIES
  }

  /** The start of the level's range that contains va. */
  function Base(va: nat, level: nat): (b: nat)
    requires level <= 4
    ensures b <= va
  {
    va - va % Span(level)
  }

  /** (va | pageoffmask(level)) + 1. */
  function NextVa(va: nat, level: nat): (n: nat)
    requires level <= 4
    ensures n > va
  {
    Base(va, level) + Span(level)
  }

  lemma SpanTimes(level: nat)
    requires level <= 3
    ensures Span(level + 1) == ENTRIES * Span(level)
  {
  }

  /** Whether the next address leaves the page: exactly after its last entry. */
  lemma NextCrosses(va: nat, level: nat)
    requires level <= 3
    ensures NextVa(va, level) / Span(level + 1) != va / Span(level + 1) <==> Index(va, level) == ENTRIES - 1
    ensures Index(va, level) < ENTRIES - 1 ==> Index(NextVa(va, level), level) == Index(va, level) + 1
    ensures NextVa(va, level) % Span(level) == 0
  {
    var s, q := Span(level), va / Span(level);
    assert va == q * s + va % s;
    assert NextVa(va, level) == (q + 1) * s;
    DivDiv(va, level);
    DivDiv(NextVa(va, level), level);
    assert NextVa(va, level) / s == q + 1 && NextVa(va, level) % s == 0 by { Exact(q + 1, level); }
  }

  lemma Exact(q: nat, level: nat)
    requires level <= 4
    ensures (q * Span(level)) / Span(level) == q && (q * Span(level)) % Span(level) == 0
  {
    if level == 0 {
    } else if level == 1 {
    } else if level == 2 {
    } else if level == 3 {
    } else {
    }
  }

  lemma DivDiv(va: nat, level: nat)
    requires level <= 3
    ensures va / Span(level + 1) == (va / Span(level)) / ENTRIES
  {
  }

  /** Addresses in one range of a level have the same indexes at that level and above. */
  lemma SameIndexes(va: nat, va': nat, level: nat, m: nat)
    requires level <= m <= 3 && va / Span(level) == va' / Span(level)
    ensures Index(va, m) == Index(va', m) && va / Span(m + 1) == va' / Span(m + 1)
    decreases m - level
  {
    DivDiv(va, m);
    DivDiv(va', m);
    if level < m {
      SameIndexes(va, va', level, m - 1);
    }
  }

  // ----- the tree of page-table pages -----

  /** Table pointers of the page at `t`, an entry of which maps Span(level) bytes, lead to pages in the heap, down to
      level 0. */
  ghost predicate WellFormed(h: Heap, t: nat, level: nat)
    requires level <= 3
    decreases level
  {
    && t in h && |h[t]| == ENTRIES
    && (level > 0 ==> forall i :: 0 <= i < ENTRIES && h[t][i].IsTable() ==> WellFormed(h, h[t][i].addr, level - 1))
  }

  /** Walking from the root, the entries for va above the given level all point to page-table pages. */
  ghost predicate OnPath(h: Heap, root: nat, va: nat, level: nat)
    requires level <= 3 && WellFormed(h, root, 3)
    decreases 3 - level, 0
  {
    level == 3 || (OnPath(h, root, va, level + 1) && EntryAt(h, root, va, level + 1).IsTable())
  }

  /** The page-table page at a level on the way to va. */
  ghost function TableAt(h: Heap, root: nat, va: nat, level: nat): (t: nat)
    requires level <= 3 && WellFormed(h, root, 3) && OnPath(h, root, va, level)
    ensures WellFormed(h, t, level)
    decreases 3 - level, 1
  {
    if level == 3 then root else EntryAt(h, root, va, level + 1).addr
  }

  ghost function EntryAt(h: Heap, root: nat, va: nat, level: nat): Pte
    requires level <= 3 && WellFormed(h, root, 3) && OnPath(h, root, va, level)
    decreases 3 - level, 2
  {
    h[TableAt(h, root, va, level)][Index(va, level)]
  }

  /** Addresses in one range of a level share the page at that level. */
  lemma {:induction false} SameTable(h: Heap, root: nat, va: nat, va': nat, level: nat)
    requires level <= 3 && WellFormed(h, root, 3) && va / Span(level + 1) == va' / Span(level + 1)
    ensures OnPath(h, root, va, level) <==> OnPath(h, root, va', level)
    ensures OnPath(h, root, va, level) ==> TableAt(h, root, va, level) == TableAt(h, root, va', level)
    decreases 3 - level
  {
    if level < 3 {
      SameIndexes(va, va', level + 1, level + 1);
      SameTable(h, root, va, va', level + 1);
    }
  }

  /** No page-table page is reached by two different walks, nor at two levels: a page is found only by the indexes that
      lead to it. */
  ghost predicate TreeShaped(h: Heap, root: nat)
    requires WellFormed(h, root, 3)
  {
    forall va, l, va', l' :: 0 <= va && 0 <= va' && 0 <= l <= 3 && 0 <= l' <= 3 &&
      OnPath(h, root, va, l) && OnPath(h, root, va', l') && TableAt(h, root, va, l) == TableAt(h, root, va', l')
      ==> l == l' && SameWalk(va, va', l + 1)
  }

  /** The two addresses have the same index at this level and all above. */
  ghost predicate SameWalk(va: nat, va': nat, level: nat)
    requires level <= 4
  {
    forall m :: level <= m <= 3 ==> Index(va, m) == Index(va', m)
  }

  /** The low 48 bits of an address above a level are given by its indexes. */
  lemma {:induction false} SameWalkSameBlock(va: nat, va': nat, level: nat)
    requires level <= 4 && SameWalk(va, va', level) && va / Span(4) == va' / Span(4)
    ensures va / Span(level) == va' / Span(level)
    decreases 4 - level
  {
    if level < 4 {
      SameWalkSameBlock(va, va', level + 1);
      DivDiv(va, level);
      DivDiv(va', level);
      assert Index(va, level) == Index(va', level);
      var q, q' := va / Span(level), va' / Span(level);
      assert q == q / ENTRIES * ENTRIES + q % ENTRIES && q' == q' / ENTRIES * ENTRIES + q' % ENTRIES;
    }
  }

  /** Above the page a walk has reached, its entries point to pages. */
  lemma {:induction false} OnPathAbove(h: Heap, root: nat, va: nat, level: nat, m: nat)
    requires level <= m <= 3 && WellFormed(h, root, 3) && OnPath(h, root, va, level)
    ensures OnPath(h, root, va, m) && (m > level ==> EntryAt(h, root, va, m).IsTable())
    decreases 3 - level
  {
    if level < m {
      OnPathAbove(h, root, va, level + 1, m);
    }
  }

  // ----- kernel memory -----

  /** A page after memset. */
  function ZeroPage(): (p: Page)
    ensures |p| == ENTRIES && forall i :: 0 <= i < ENTRIES ==> p[i] == ZERO_PTE
  {
    seq(ENTRIES, _ => ZERO_PTE)
  }

  /** Page-table pages in use, and the pages kalloc may still hand out. */
  class Memory {
    var pages: Heap
    var free: seq<nat>

    ghost predicate Valid()
      reads this
    {
      && (forall i :: 0 <= i < |free| ==> free[i] !in pages)
      && (forall i, j :: 0 <= i < j < |free| ==> free[i] != free[j])
    }

    constructor (pages: Heap, free: seq<nat>)
      ensures this.pages == pages && this.free == free
    {
      this.pages, this.free := pages, free;
    }

    /** kalloc and memset: a zeroed page, if there is one left. */
    method KallocZeroed() returns (pt: Option<nat>)
      requires Valid()
      modifies this
      ensures Valid()
      ensures pt.None? <==> old(free) == []
      ensures pt.None? ==> pages == old(pages) && free == []
      ensures pt.Some? ==> |free| == old(|free|) - 1
      ensures pt.Some? ==> pt.value !in old(pages) && pages == old(pages)[pt.value := ZeroPage()]
    {
      if free == [] {
        return None;
      }
      pt := Some(free[0]);
      pages := pages[free[0] := ZeroPage()];
      free := free[1..];
    }

    method SetEntry(table: nat, index: nat, e: Pte)
      requires Valid() && table in pages && index < |pages[table]|
      modifies this
      ensures Valid() && free == old(free)
      ensures pages == old(pages)[table := old(pages[table])[index := e]]
    {
      pages := pages[table := pages[table][index := e]];
    }

    /** kfree: only a page that is still in use may be freed. */
    method Kfree(a: nat)
      requires a in pages
      modifies this
      ensures pages == old(pages) - {a} && (old(Valid()) ==> Valid())
    {
      pages, free := pages - {a}, free + [a];
    }
  }
}
