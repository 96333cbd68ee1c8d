/** What a page table maps: the walk from the root and the translation it yields. */
module Translations {
  import opened Options
  import opened Paging

  const VA_LOWMAX := 0x7FFF_FFFF_FFFF
  const VA_HIGHMIN := 0xFFFF_8000_0000_0000
  const VA_END := 0x1_0000_0000_0000_0000

  predicate Canonical(va: nat) {
    va <= VA_LOWMAX || VA_HIGHMIN <= va < VA_END
  }

  /** Canonical: bits 47 to 63 are all equal. */
  lemma CanonicalIs(va: nat)
    requires va < VA_END
    ensures Canonical(va) <==> va / 0x8000_0000_0000 == 0 || va / 0x8000_0000_0000 == 0x1_ffff
    ensures VA_END == 0x8000_0000_0000 * 0x2_0000
  {
  }

  /** perm_: which permission bits the entries above have left; `rest` covers the bits other than P, W and U. */
  datatype Mask = Mask(p: bool, w: bool, u: bool, rest: bool) {
    /** mask & (entry | ~(PTE_P | PTE_W | PTE_U)) */
    function And(f: Flags): Mask {
      Mask(p && f.p, w && f.w, u && f.u, rest)
    }

    /** perm(): the entry's bits under the mask, or none unless PTE_P survives. */
    function Apply(f: Flags): Flags {
      if p && f.p then Flags(true, w && f.w, u && f.u, rest && f.ps, if rest then f.rest else 0) else NO_FLAGS
    }

    /** Whether f asks for a P, W or U that the mask does not leave. */
    predicate Allows(f: Flags) {
      (f.p ==> p) && (f.w ==> w) && (f.u ==> u)
    }
  }

  const FULL := Mask(true, true, true, true)
  const NO_MASK := Mask(false, false, false, false)

  // ----- the walk from the root -----

  /** Where the walk for va stops, once it has come down to a level. */
  ghost function StopFrom(h: Heap, root: nat, va: nat, level: nat): (l: nat)
    requires level <= 3 && WellFormed(h, root, 3) && OnPath(h, root, va, level)
    ensures l <= level && OnPath(h, root, va, l) && (l == 0 || !EntryAt(h, root, va, l).IsTable())
    decreases level
  {
    if level > 0 && EntryAt(h, root, va, level).IsTable() then StopFrom(h, root, va, level - 1) else level
  }

  /** The permissions left by the entries above a level. */
  ghost function MaskAt(h: Heap, root: nat, va: nat, level: nat): Mask
    requires level <= 3 && WellFormed(h, root, 3) && OnPath(h, root, va, level)
    decreases 3 - level
  {
    if level == 3 then FULL else MaskAt(h, root, va, level + 1).And(EntryAt(h, root, va, level + 1).flags)
  }

  ghost function StopLevel(h: Heap, root: nat, va: nat): (l: nat)
    requires WellFormed(h, root, 3)
    ensures l <= 3 && OnPath(h, root, va, l)
  {
    StopFrom(h, root, va, 3)
  }

  /** The walk's path does not depend on how far down it is resumed. */
  lemma {:induction false} StopResumed(h: Heap, root: nat, va: nat, level: nat, m: nat)
    requires level <= m <= 3 && WellFormed(h, root, 3) && OnPath(h, root, va, level)
    ensures OnPath(h, root, va, m) && StopFrom(h, root, va, m) == StopFrom(h, root, va, level)
    decreases 3 - level
  {
    if level < m {
      StopResumed(h, root, va, level + 1, m);
    }
  }

  lemma {:induction false} MaskSame(h: Heap, root: nat, va: nat, va': nat, level: nat)
    requires level <= 3 && WellFormed(h, root, 3) && OnPath(h, root, va, level)
    requires va / Span(level + 1) == va' / Span(level + 1)
    ensures OnPath(h, root, va', level) && MaskAt(h, root, va', level) == MaskAt(h, root, va, level)
    decreases 3 - level
  {
    SameTable(h, root, va, va', level);
    if level < 3 {
      SameIndexes(va, va', level + 1, level + 1);
      SameTable(h, root, va, va', level + 1);
      MaskSame(h, root, va, va', level + 1);
    }
  }

  lemma {:induction false} MaskPresent(h: Heap, root: nat, va: nat, level: nat)
    requires level <= 3 && WellFormed(h, root, 3) && OnPath(h, root, va, level)
    ensures MaskAt(h, root, va, level).p && MaskAt(h, root, va, level).rest
    decreases 3 - level
  {
    if level < 3 {
      MaskPresent(h, root, va, level + 1);
    }
  }

  /** Canonical addresses come in whole blocks of the top level's entries. */
  lemma CanonicalSame(va: nat, va': nat, level: nat)
    requires level <= 2 && va / Span(level + 1) == va' / Span(level + 1) && va' < VA_END
    ensures Canonical(va) ==> Canonical(va')
  {
    SameTop(va, va', level + 1);
  }

  lemma SameTop(va: nat, va': nat, level: nat)
    requires level <= 3 && va / Span(level) == va' / Span(level)
    ensures va / Span(3) == va' / Span(3)
    decreases 3 - level
  {
    if level < 3 {
      DivDiv(va, level);
      DivDiv(va', level);
      SameTop(va, va', level + 1);
    }
  }

  // ----- translation -----

  /** pa(): the physical address; entries above level 0 drop bit 12. */
  function PhysAddr(e: Pte, level: nat, va: nat): nat
    requires level <= 4
  {
    (if level > 0 && (e.addr / 0x1000) % 2 == 1 then e.addr - 0x1000 else e.addr) + va % Span(level)
  }

  /** The mapping of an address: its physical address and permissions, if present. */
  ghost function Translation(h: Heap, root: nat, va: nat): Option<(nat, Flags)>
    requires WellFormed(h, root, 3)
  {
    if !Canonical(va) then None
    else
      var l := StopLevel(h, root, va);
      var e := EntryAt(h, root, va, l);
      if e.flags.p then Some((PhysAddr(e, l, va), MaskAt(h, root, va, l).Apply(e.flags))) else None
  }

  /** An address that a table entry holds, with or without bit 12 above level 0, stands for its multiple of the span. */
  lemma PhysAddrIs(e: Pte, level: nat, va: nat)
    requires level <= 3 && (e.addr % Span(level) == 0 || (level > 0 && e.addr % Span(level) == 0x1000))
    ensures PhysAddr(e, level, va) == e.addr - e.addr % Span(level) + va % Span(level)
  {
    var s, q := Span(level), e.addr / Span(level);
    assert e.addr == s * q + e.addr % s;
    if level == 1 {
      assert s * q == 0x2000 * (0x100 * q);
      PagePairs(0x100 * q);
    } else if level == 2 {
      assert s * q == 0x2000 * (0x2_0000 * q);
      PagePairs(0x2_0000 * q);
    } else if level == 3 {
      assert s * q == 0x2000 * (0x400_0000 * q);
      PagePairs(0x400_0000 * q);
    }
  }

  lemma PagePairs(m: nat)
    ensures ((0x2000 * m) / 0x1000) % 2 == 0 && ((0x2000 * m + 0x1000) / 0x1000) % 2 == 1
  {
    assert (0x2000 * m) / 0x1000 == 2 * m;
    assert (0x2000 * m + 0x1000) / 0x1000 == 2 * m + 1;
  }

  /** The walk comes through tables down to its stop, which is none, or level 0. */
  lemma {:induction false} StopIs(h: Heap, root: nat, va: nat, level: nat)
    requires WellFormed(h, root, 3) && level <= 3 && OnPath(h, root, va, level)
    ensures forall l :: level < l <= 3 ==>
      OnPath(h, root, va, l) && EntryAt(h, root, va, l).flags.p && !EntryAt(h, root, va, l).flags.ps
    decreases 3 - level
  {
    if level < 3 {
      StopIs(h, root, va, level + 1);
    }
  }

  /** Whether all entries from level 3 down to a level grant writing, or access to users. */
  ghost predicate AllWritable(h: Heap, root: nat, va: nat, level: nat)
    requires WellFormed(h, root, 3)
  {
    forall l :: level <= l <= 3 ==> OnPath(h, root, va, l) && EntryAt(h, root, va, l).flags.w
  }

  ghost predicate AllForUsers(h: Heap, root: nat, va: nat, level: nat)
    requires WellFormed(h, root, 3)
  {
    forall l :: level <= l <= 3 ==> OnPath(h, root, va, l) && EntryAt(h, root, va, l).flags.u
  }

  lemma {:induction false} MaskIs(h: Heap, root: nat, va: nat, level: nat)
    requires WellFormed(h, root, 3) && level <= 3 && OnPath(h, root, va, level)
    ensures MaskAt(h, root, va, level).w <==> AllWritable(h, root, va, level + 1)
    ensures MaskAt(h, root, va, level).u <==> AllForUsers(h, root, va, level + 1)
    decreases 3 - level
  {
    if level < 3 {
      MaskIs(h, root, va, level + 1);
      StopIs(h, root, va, level);
    }
  }

  /** An absent entry leaves its whole range unmapped. */
  lemma AbsentRange(h: Heap, root: nat, va: nat, level: nat, x: nat)
    requires WellFormed(h, root, 3) && level <= 3 && va / Span(level) == x / Span(level) && va < VA_END && x < VA_END
    requires if Canonical(va) then level == StopLevel(h, root, va) && !EntryAt(h, root, va, level).flags.p
             else level == 3
    ensures Translation(h, root, x) == None
  {
    SameTop(va, x, level);
    if Canonical(x) {
      SameIndexes(va, x, level, level);
      SameTable(h, root, va, x, level);
      StopResumed(h, root, x, level, 3);
    }
  }

  /** x is mapped as far behind va's physical address, with the same permissions, as it is behind va; or neither is
      mapped. */
  ghost predicate MappedAlongside(h: Heap, root: nat, va: nat, x: nat)
    requires WellFormed(h, root, 3) && va <= x
  {
    match Translation(h, root, va)
    case None => Translation(h, root, x) == None
    case Some(m) => Translation(h, root, x) == Some((m.0 + (x - va), m.1))
  }

  /** The range of the entry a walk stops at is mapped as one piece. */
  lemma OneRange(h: Heap, root: nat, va: nat, level: nat, x: nat)
    requires WellFormed(h, root, 3) && va <= x < VA_END && level <= 3 && va / Span(level) == x / Span(level)
    requires if Canonical(va) then level == StopLevel(h, root, va) else level == 3
    ensures MappedAlongside(h, root, va, x)
  {
    CanonicalTogether(va, x, level);
    if Canonical(va) {
      SameStop(h, root, va, level, x);
      SamePiece(h, root, va, level, x);
    }
  }

  lemma CanonicalTogether(va: nat, x: nat, level: nat)
    requires level <= 3 && va <= x < VA_END && va / Span(level) == x / Span(level)
    ensures Canonical(va) <==> Canonical(x)
  {
    SameTop(va, x, level);
  }

  /** Walks that stop at one entry with one mask map their addresses alongside. */
  lemma SamePiece(h: Heap, root: nat, va: nat, level: nat, x: nat)
    requires WellFormed(h, root, 3) && va <= x && level <= 3 && va / Span(level) == x / Span(level)
    requires Canonical(va) && Canonical(x) && level == StopLevel(h, root, va) == StopLevel(h, root, x)
    requires EntryAt(h, root, x, level) == EntryAt(h, root, va, level)
    requires MaskAt(h, root, x, level) == MaskAt(h, root, va, level)
    ensures MappedAlongside(h, root, va, x)
  {
    PhysAlongside(EntryAt(h, root, va, level), level, va, x);
  }

  lemma PhysAlongside(e: Pte, level: nat, va: nat, x: nat)
    requires level <= 3 && va <= x && va / Span(level) == x / Span(level)
    ensures PhysAddr(e, level, x) == PhysAddr(e, level, va) + (x - va)
  {
    SameOffset(va, x, level);
  }

  /** Addresses in the range of one entry share the walk to it, and the permissions it allows. */
  lemma SameStop(h: Heap, root: nat, va: nat, level: nat, x: nat)
    requires WellFormed(h, root, 3) && level <= 3 && va / Span(level) == x / Span(level)
    requires Canonical(va) && Canonical(x) && level == StopLevel(h, root, va)
    ensures StopLevel(h, root, x) == level && OnPath(h, root, x, level)
    ensures EntryAt(h, root, x, level) == EntryAt(h, root, va, level)
    ensures MaskAt(h, root, x, level) == MaskAt(h, root, va, level)
  {
    NextSpan(va, x, level);
    SameIndexes(va, x, level, level);
    MaskSame(h, root, va, x, level);
    SameTable(h, root, va, x, level);
    StopResumed(h, root, x, level, 3);
  }

  lemma NextSpan(va: nat, x: nat, level: nat)
    requires level <= 3 && va / Span(level) == x / Span(level)
    ensures va / Span(level + 1) == x / Span(level + 1)
  {
    DivDiv(va, level);
    DivDiv(x, level);
  }

  lemma SameOffset(va: nat, x: nat, level: nat)
    requires level <= 3 && va / Span(level) == x / Span(level)
    ensures x % Span(level) - va % Span(level) == x - va
  {
    var s, q := Span(level), va / Span(level);
    assert va == s * q + va % s;
    assert x == s * (x / s) + x % s;
  }

  /** Addresses between va and the end of its block are in the block. */
  lemma InBlock(va: nat, x: nat, level: nat)
    requires level <= 3 && va < x < NextVa(va, level)
    ensures va / Span(level) == x / Span(level)
  {
    var q := va / Span(level);
    assert va == q * Span(level) + va % Span(level);
    if level == 0 {
    } else if level == 1 {
    } else if level == 2 {
    } else {
    }
  }

  /** At most the page of va is mapped differently. */
  ghost predicate OnlyPage(h: Heap, h': Heap, root: nat, va: nat)
    requires WellFormed(h, root, 3) && WellFormed(h', root, 3)
  {
    forall x: nat :: x / 0x1000 == va / 0x1000 || Translation(h', root, x) == Translation(h, root, x)
  }
}
