/** Why writing one page-table entry, or installing an empty page, changes so little of what is mapped. */
module Mapping {
  import opened Options
  import opened Paging
  import opened Translations

  // ----- changing one entry of one page -----

  /** h' has the pages of h, with the same entries except entry i of page t. */
  ghost predicate OneEntry(h: Heap, h': Heap, t: nat, i: nat) {
    && t in h && i < |h[t]|
    && (forall a :: a in h ==> a in h' && |h'[a]| == |h[a]|)
    && (forall a, j :: a in h && 0 <= j < |h[a]| && (a != t || j != i) ==> h'[a][j] == h[a][j])
  }

  /** An address in the same block one level up, with a chosen index. */
  lemma AddressFor(va: nat, level: nat, j: nat) returns (x: nat)
    requires level <= 3 && j < ENTRIES
    ensures x / Span(level + 1) == va / Span(level + 1) && Index(x, level) == j
  {
    var q := va / Span(level + 1) * ENTRIES + j;
    x := q * Span(level);
    Exact(q, level);
    DivDiv(x, level);
  }

  /** A page found twice in a tree is found by the same walk. */
  lemma FoundOnce(h: Heap, root: nat, va: nat, l: nat, x: nat, m: nat)
    requires WellFormed(h, root, 3) && TreeShaped(h, root) && l <= 3 && m <= 3
    requires OnPath(h, root, va, l) && OnPath(h, root, x, m) && TableAt(h, root, va, l) == TableAt(h, root, x, m)
    ensures l == m && SameWalk(va, x, l + 1)
  {
  }

  /** Changing an entry keeps the table well-formed when the new entry leads to a well-formed page, or is a leaf. */
  lemma {:induction false} WellFormedKept(h: Heap, h': Heap, root: nat, va: nat, level: nat, x: nat, l: nat)
    requires WellFormed(h, root, 3) && TreeShaped(h, root) && level <= 3 && l <= 3
    requires OnPath(h, root, va, level) && OnPath(h, root, x, l)
    requires OneEntry(h, h', TableAt(h, root, va, level), Index(va, level))
    requires var e := h'[TableAt(h, root, va, level)][Index(va, level)];
      level > 0 && e.IsTable() ==> WellFormed(h', e.addr, level - 1)
    ensures WellFormed(h', TableAt(h, root, x, l), l)
    decreases l
  {
    var t, u := TableAt(h, root, va, level), TableAt(h, root, x, l);
    if l > 0 {
      forall j | 0 <= j < ENTRIES && h'[u][j].IsTable()
        ensures WellFormed(h', h'[u][j].addr, l - 1)
      {
        if u == t && j == Index(va, level) {
          FoundOnce(h, root, va, level, x, l);
        } else {
          var y := AddressFor(x, l, j);
          SameTable(h, root, x, y, l);
          assert EntryAt(h, root, y, l) == h[u][j] == h'[u][j];
          WellFormedKept(h, h', root, va, level, y, l - 1);
        }
      }
    }
  }

  /** Whether the walk for x uses entry i of page t at a level. */
  ghost predicate Uses(h: Heap, root: nat, x: nat, m: nat, t: nat, i: nat)
    requires m <= 3 && WellFormed(h, root, 3)
  {
    OnPath(h, root, x, m) && TableAt(h, root, x, m) == t && Index(x, m) == i
  }

  /** A walk that uses the entry of va at a level does so at that level, and finds the same entries above. */
  lemma UsedAtItsLevel(h: Heap, root: nat, va: nat, level: nat, x: nat, m: nat)
    requires WellFormed(h, root, 3) && TreeShaped(h, root) && level <= 3 && OnPath(h, root, va, level) && m <= 3
    ensures Uses(h, root, x, m, TableAt(h, root, va, level), Index(va, level)) ==> m == level && SameWalk(va, x, level)
  {
  }

  /** A walk that does not use the changed entry above a level reaches that level as before. */
  lemma {:induction false} PathKept(h: Heap, h': Heap, root: nat, x: nat, l: nat, t: nat, i: nat)
    requires WellFormed(h, root, 3) && WellFormed(h', root, 3) && l <= 3 && OneEntry(h, h', t, i)
    requires forall m :: l < m <= 3 ==> !Uses(h, root, x, m, t, i)
    ensures OnPath(h', root, x, l) <==> OnPath(h, root, x, l)
    ensures OnPath(h, root, x, l) ==> TableAt(h', root, x, l) == TableAt(h, root, x, l)
    ensures OnPath(h, root, x, l) ==> MaskAt(h', root, x, l) == MaskAt(h, root, x, l)
    decreases 3 - l
  {
    if l < 3 {
      PathKept(h, h', root, x, l + 1, t, i);
      assert !Uses(h, root, x, l + 1, t, i);
    }
  }

  lemma {:induction false} StopKept(h: Heap, h': Heap, root: nat, x: nat, l: nat, t: nat, i: nat)
    requires WellFormed(h, root, 3) && WellFormed(h', root, 3) && l <= 3 && OneEntry(h, h', t, i)
    requires forall m :: 0 <= m <= 3 ==> !Uses(h, root, x, m, t, i)
    requires OnPath(h, root, x, l) && OnPath(h', root, x, l)
    ensures StopFrom(h', root, x, l) == StopFrom(h, root, x, l)
    decreases l
  {
    PathKept(h, h', root, x, l, t, i);
    assert !Uses(h, root, x, l, t, i);
    if l > 0 && EntryAt(h, root, x, l).IsTable() {
      StopKept(h, h', root, x, l - 1, t, i);
    }
  }

  /** An address whose walk does not use the changed entry keeps its translation. */
  lemma TranslationKept(h: Heap, h': Heap, root: nat, x: nat, t: nat, i: nat)
    requires WellFormed(h, root, 3) && WellFormed(h', root, 3) && OneEntry(h, h', t, i)
    requires forall m :: 0 <= m <= 3 ==> !Uses(h, root, x, m, t, i)
    ensures Translation(h', root, x) == Translation(h, root, x)
  {
    StopKept(h, h', root, x, 3, t, i);
    var l := StopLevel(h, root, x);
    PathKept(h, h', root, x, l, t, i);
    assert !Uses(h, root, x, l, t, i);
  }

  // ----- writing a level-0 entry -----

  ghost function WithEntry(h: Heap, t: nat, i: nat, e: Pte): Heap
    requires t in h && i < |h[t]|
  {
    h[t := h[t][i := e]]
  }

  /** Two canonical addresses with the same indexes at every level are in the same page. */
  lemma SamePage(va: nat, x: nat)
    requires Canonical(va) && Canonical(x) && SameWalk(va, x, 0)
    ensures va / 0x1000 == x / 0x1000
  {
    assert Index(va, 3) == Index(x, 3);
    TopHalf(va);
    TopHalf(x);
    SameWalkSameBlock(va, x, 0);
  }

  lemma TopHalf(va: nat)
    requires Canonical(va)
    ensures va / Span(4) == if Index(va, 3) < 256 then 0 else 0xFFFF
  {
  }

  ghost function AfterLeaf(h: Heap, root: nat, va: nat, e: Pte): Heap
    requires WellFormed(h, root, 3) && OnPath(h, root, va, 0)
  {
    WithEntry(h, TableAt(h, root, va, 0), Index(va, 0), e)
  }

  /** A tree stays one when a level-0 entry is written. */
  lemma WriteLeaf(h: Heap, h': Heap, root: nat, va: nat, e: Pte)
    requires WellFormed(h, root, 3) && TreeShaped(h, root) && OnPath(h, root, va, 0) && h' == AfterLeaf(h, root, va, e)
    ensures WellFormed(h', root, 3) && TreeShaped(h', root)
    ensures OnPath(h', root, va, 0) && TableAt(h', root, va, 0) == TableAt(h, root, va, 0)
    ensures EntryAt(h', root, va, 0) == e && MaskAt(h', root, va, 0) == MaskAt(h, root, va, 0)
  {
    var t, i := TableAt(h, root, va, 0), Index(va, 0);
    WellFormedKept(h, h', root, va, 0, va, 3);
    forall x: nat, l: nat | l <= 3
      ensures OnPath(h', root, x, l) <==> OnPath(h, root, x, l)
      ensures OnPath(h, root, x, l) ==> TableAt(h', root, x, l) == TableAt(h, root, x, l)
    {
      LeafUsedAtLeaf(h, root, va, x);
      PathKept(h, h', root, x, l, t, i);
    }
    LeafUsedAtLeaf(h, root, va, va);
    PathKept(h, h', root, va, 0, t, i);
  }

  /** Writing a level-0 entry changes no translation outside its own page. */
  lemma OtherPagesKept(h: Heap, h': Heap, root: nat, va: nat, e: Pte, x: nat)
    requires WellFormed(h, root, 3) && TreeShaped(h, root) && OnPath(h, root, va, 0) && h' == AfterLeaf(h, root, va, e)
    requires WellFormed(h', root, 3) && Canonical(va) && x / 0x1000 != va / 0x1000
    ensures Translation(h', root, x) == Translation(h, root, x)
  {
    if Canonical(x) {
      OtherPage(h, root, va, x);
      TranslationKept(h, h', root, x, TableAt(h, root, va, 0), Index(va, 0));
    }
  }

  lemma LeafUsedAtLeaf(h: Heap, root: nat, va: nat, x: nat)
    requires WellFormed(h, root, 3) && TreeShaped(h, root) && OnPath(h, root, va, 0)
    ensures forall m :: 0 < m <= 3 ==> !Uses(h, root, x, m, TableAt(h, root, va, 0), Index(va, 0))
  {
    forall m | 0 < m <= 3
      ensures !Uses(h, root, x, m, TableAt(h, root, va, 0), Index(va, 0))
    {
      UsedAtItsLevel(h, root, va, 0, x, m);
    }
  }

  lemma OtherPage(h: Heap, root: nat, va: nat, x: nat)
    requires WellFormed(h, root, 3) && TreeShaped(h, root) && OnPath(h, root, va, 0)
    requires Canonical(va) && Canonical(x) && x / 0x1000 != va / 0x1000
    ensures forall m :: 0 <= m <= 3 ==> !Uses(h, root, x, m, TableAt(h, root, va, 0), Index(va, 0))
  {
    LeafUsedAtLeaf(h, root, va, x);
    UsedAtItsLevel(h, root, va, 0, x, 0);
    if SameWalk(va, x, 0) {
      SamePage(va, x);
    }
  }

  // ----- installing an empty page-table page -----

  function Link(pt: nat): Pte {
    Pte(pt, Flags(true, true, true, false, 0))
  }

  /** Page pt, all zero, put behind the entry of va at a level. */
  ghost function WithPage(h: Heap, root: nat, va: nat, level: nat, pt: nat): Heap
    requires level <= 3 && WellFormed(h, root, 3) && OnPath(h, root, va, level) && pt !in h
  {
    WithEntry(h[pt := ZeroPage()], TableAt(h, root, va, level), Index(va, level), Link(pt))
  }

  /** The facts of one installation: the level is not 0, the entry is not present, and the page is new. */
  ghost predicate Installable(h: Heap, root: nat, va: nat, level: nat, pt: nat) {
    && level <= 3 && WellFormed(h, root, 3) && TreeShaped(h, root) && OnPath(h, root, va, level)
    && level > 0 && !EntryAt(h, root, va, level).flags.p && pt !in h
  }

  lemma InstallBasics(h: Heap, root: nat, va: nat, level: nat, pt: nat)
    requires Installable(h, root, va, level, pt)
    ensures var h' := WithPage(h, root, va, level, pt);
      && OneEntry(h, h', TableAt(h, root, va, level), Index(va, level)) && WellFormed(h', root, 3)
      && pt in h' && h'[pt] == ZeroPage() && h'[TableAt(h, root, va, level)][Index(va, level)] == Link(pt)
  {
    var h' := WithPage(h, root, va, level, pt);
    assert WellFormed(h', pt, level - 1);
    WellFormedKept(h, h', root, va, level, va, 3);
  }

  /** In the new table a walk through the entry ends at the zero entry of the new page. */
  lemma ThroughNewPage(h: Heap, root: nat, va: nat, level: nat, pt: nat, x: nat)
    requires Installable(h, root, va, level, pt)
    requires Uses(h, root, x, level, TableAt(h, root, va, level), Index(va, level))
    requires OneEntry(h, WithPage(h, root, va, level, pt), TableAt(h, root, va, level), Index(va, level))
    requires WellFormed(WithPage(h, root, va, level, pt), root, 3)
    ensures var h' := WithPage(h, root, va, level, pt);
      && OnPath(h', root, x, level - 1) && TableAt(h', root, x, level - 1) == pt
      && EntryAt(h', root, x, level - 1) == ZERO_PTE
      && MaskAt(h', root, x, level - 1) == MaskAt(h, root, x, level)
      && StopLevel(h', root, x) == level - 1 && StopLevel(h, root, x) == level
      && Translation(h', root, x) == None && Translation(h, root, x) == None
  {
    var h', t, i := WithPage(h, root, va, level, pt), TableAt(h, root, va, level), Index(va, level);
    forall m | level < m <= 3
      ensures !Uses(h, root, x, m, t, i)
    {
      UsedAtItsLevel(h, root, va, level, x, m);
    }
    PathKept(h, h', root, x, level, t, i);
    StopResumed(h', root, x, level - 1, 3);
    StopResumed(h, root, x, level, 3);
  }

  /** Installing an empty page changes no translation at all. */
  lemma InstallKeeps(h: Heap, root: nat, va: nat, level: nat, pt: nat, x: nat)
    requires Installable(h, root, va, level, pt) && WellFormed(WithPage(h, root, va, level, pt), root, 3)
    ensures Translation(WithPage(h, root, va, level, pt), root, x) == Translation(h, root, x)
  {
    var t, i := TableAt(h, root, va, level), Index(va, level);
    InstallBasics(h, root, va, level, pt);
    if Uses(h, root, x, level, t, i) {
      ThroughNewPage(h, root, va, level, pt, x);
    } else {
      forall m | 0 <= m <= 3
        ensures !Uses(h, root, x, m, t, i)
      {
        UsedAtItsLevel(h, root, va, level, x, m);
      }
      TranslationKept(h, WithPage(h, root, va, level, pt), root, x, t, i);
    }
  }

  /** Every walk of the new table is a walk of the old one, or ends at the new page. */
  lemma WalksAfterInstall(h: Heap, root: nat, va: nat, level: nat, pt: nat, x: nat, l: nat)
    requires Installable(h, root, va, level, pt) && l <= 3
    requires WellFormed(WithPage(h, root, va, level, pt), root, 3)
    requires OnPath(WithPage(h, root, va, level, pt), root, x, l)
    ensures var h' := WithPage(h, root, va, level, pt);
      if TableAt(h', root, x, l) == pt then l == level - 1 && SameWalk(va, x, level)
      else OnPath(h, root, x, l) && TableAt(h', root, x, l) == TableAt(h, root, x, l)
  {
    var h', t, i := WithPage(h, root, va, level, pt), TableAt(h, root, va, level), Index(va, level);
    InstallBasics(h, root, va, level, pt);
    UsedAtItsLevel(h, root, va, level, x, level);
    if l < level && Uses(h, root, x, level, t, i) {
      ThroughNewPage(h, root, va, level, pt, x);
      if l < level - 1 {
        OnPathAbove(h', root, x, l, level - 1);
      }
    } else {
      forall m | l < m <= 3
        ensures !Uses(h, root, x, m, t, i)
      {
        UsedAtItsLevel(h, root, va, level, x, m);
      }
      PathKept(h, h', root, x, l, t, i);
    }
  }

  lemma InstallTreeShaped(h: Heap, root: nat, va: nat, level: nat, pt: nat)
    requires Installable(h, root, va, level, pt) && WellFormed(WithPage(h, root, va, level, pt), root, 3)
    ensures TreeShaped(WithPage(h, root, va, level, pt), root)
  {
    var h' := WithPage(h, root, va, level, pt);
    forall x: nat, l: nat, y: nat, m: nat | l <= 3 && m <= 3 && OnPath(h', root, x, l) && OnPath(h', root, y, m) &&
                                            TableAt(h', root, x, l) == TableAt(h', root, y, m)
      ensures l == m && SameWalk(x, y, l + 1)
    {
      WalksAfterInstall(h, root, va, level, pt, x, l);
      WalksAfterInstall(h, root, va, level, pt, y, m);
    }
  }

  /** One installation: still a tree, nothing mapped differently, and the walk for va now stops one level lower. */
  lemma Install(h: Heap, h': Heap, root: nat, va: nat, level: nat, pt: nat)
    requires Installable(h, root, va, level, pt) && h' == WithPage(h, root, va, level, pt)
    ensures WellFormed(h', root, 3) && TreeShaped(h', root)
    ensures forall x :: Translation(h', root, x) == Translation(h, root, x)
    ensures OnPath(h', root, va, level) && TableAt(h', root, va, level) == TableAt(h, root, va, level)
    ensures MaskAt(h', root, va, level) == MaskAt(h, root, va, level)
    ensures StopLevel(h', root, va) == level - 1 && EntryAt(h', root, va, level - 1) == ZERO_PTE
    ensures MaskAt(h', root, va, level - 1) == MaskAt(h, root, va, level)
  {
    InstallBasics(h, root, va, level, pt);
    InstallTreeShaped(h, root, va, level, pt);
    forall x
      ensures Translation(h', root, x) == Translation(h, root, x)
    {
      InstallKeeps(h, root, va, level, pt, x);
    }
    ThroughNewPage(h, root, va, level, pt, va);
    forall m | level < m <= 3
      ensures !Uses(h, root, va, m, TableAt(h, root, va, level), Index(va, level))
    {
      UsedAtItsLevel(h, root, va, level, va, m);
    }
    PathKept(h, h', root, va, level, TableAt(h, root, va, level), Index(va, level));
  }
}
