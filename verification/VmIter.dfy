/** vmiter: moves incrementally through the four-level walk of an address, and installs mappings. */
module VmIter {
  import opened Options
  import opened Paging
  import opened Translations
  import opened Mapping

  /** pep_: an entry of a page, or the constant zero entry that stands for addresses that are not canonical. */
  datatype EntryRef = At(table: nat, index: nat) | ZeroEntry

  /** What try_map does: 0, -1, a failed assertion, or a write to the constant zero entry. */
  datatype MapResult = Mapped | NoMemory | Refused | Faulted

  /** Past the addresses that an entry can hold: PTE_PAMASK keeps bits 12 to 51. */
  const PHYSICAL_SPACE := 0x10_0000_0000_0000

  /** Entries from here on are taken for uninitialised memory. */
  const PANIC_ADDRESS := 0x1_0000_0000

  class Iterator {
    const mem: Memory
    const pt: nat
    var pep: EntryRef
    var level: nat
    var perm: Mask
    var va: nat

    /** The state is the one a fresh walk from the root would reach. */
    ghost predicate Valid()
      reads this, mem
    {
      && WellFormed(mem.pages, pt, 3) && va < VA_END
      && if Canonical(va) then
           level == StopLevel(mem.pages, pt, va) && perm == MaskAt(mem.pages, pt, va, level)
           && pep == At(TableAt(mem.pages, pt, va, level), Index(va, level))
         else level == 3 && perm == NO_MASK && pep == ZeroEntry
    }

    constructor (mem: Memory, pt: nat, va: nat)
      requires WellFormed(mem.pages, pt, 3) && va < VA_END
      ensures this.mem == mem && this.pt == pt && this.va == va && Valid()
    {
      this.mem, this.pt := mem, pt;
      pep, level, perm, this.va := At(pt, 0), 3, FULL, 0;
      new;
      var panics := RealFind(va);
    }

    /** *pep_ */
    function Entry(): Pte
      reads this, mem
      requires pep.At? ==> pep.table in mem.pages && pep.index < |mem.pages[pep.table]|
    {
      if pep.At? then mem.pages[pep.table][pep.index] else ZERO_PTE
    }

    /** down(), from any point of the walk for va; it panics over an entry that points too high. */
    method Down() returns (panics: bool)
      requires WellFormed(mem.pages, pt, 3) && va < VA_END && Canonical(va) && level <= 3
      requires OnPath(mem.pages, pt, va, level) && perm == MaskAt(mem.pages, pt, va, level)
      requires pep == At(TableAt(mem.pages, pt, va, level), Index(va, level))
      modifies this
      ensures Valid() && va == old(va) && (panics <==> Entry().addr >= 0x1_0000_0000)
    {
      while level > 0 && Entry().IsTable()
        invariant level <= 3 && OnPath(mem.pages, pt, va, level) && perm == MaskAt(mem.pages, pt, va, level)
        invariant pep == At(TableAt(mem.pages, pt, va, level), Index(va, level)) && va == old(va)
        decreases level
      {
        var e := Entry();
        perm := perm.And(e.flags);
        level := level - 1;
        pep := At(e.addr, Index(va, level));
      }
      StopResumed(mem.pages, pt, va, level, 3);
      return Entry().addr >= PANIC_ADDRESS;
    }

    /** real_find: from whatever page the last walk stopped at if it covers the new address, from the root if not. */
    method RealFind(to: nat) returns (panics: bool)
      requires WellFormed(mem.pages, pt, 3) && to < VA_END && (Valid() || level == 3)
      modifies this
      ensures Valid() && va == to && (panics <==> Entry().addr >= 0x1_0000_0000)
    {
      if level == 3 || va / Span(level + 1) != to / Span(level + 1) {
        level := 3;
        va := to;
        if Canonical(to) {
          perm := FULL;
          pep := At(pt, Index(to, 3));
        } else {
          perm := NO_MASK;
          pep := ZeroEntry;
          return false;
        }
      } else {
        CanonicalSame(va, to, level);
        MaskSame(mem.pages, pt, va, to, level);
        SameTable(mem.pages, pt, va, to, level);
        pep := At(pep.table, pep.index + Index(to, level) - pep.index);
        va := to;
      }
      panics := Down();
    }

    // ----- next -----

    /** perm() */
    function Perm(): Flags
      reads this, mem
      requires pep.At? ==> pep.table in mem.pages && pep.index < |mem.pages[pep.table]|
    {
      perm.Apply(Entry().flags)
    }

    /** pa() */
    function Pa(): Option<nat>
      reads this, mem
      requires level <= 3 && (pep.At? ==> pep.table in mem.pages && pep.index < |mem.pages[pep.table]|)
    {
      if Entry().flags.p then Some(PhysAddr(Entry(), level, va)) else None
    }

    /** What the iterator reports is the translation of its address. */
    lemma Reports()
      requires Valid()
      ensures pep.At? ==> pep.table in mem.pages && pep.index < |mem.pages[pep.table]|
      ensures match Translation(mem.pages, pt, va)
        case None => Pa() == None && Perm() == NO_FLAGS
        case Some(m) => Pa() == Some(m.0) && Perm() == m.1
    {
    }

    /** The same entry by entry: the walk stops at the first entry from level 3 down that is no table, or at level 0.
        If that is present, so is the page; it is writable, and accessible to users, exactly when all entries on the
        way are; and its address is the entry's, rounded down to the entry's range, with the offset of va in it. */
    lemma ReportsEntries()
      requires Valid() && Canonical(va)
      ensures level <= 3 && OnPath(mem.pages, pt, va, level)
      ensures forall l :: level < l <= 3 ==>
        OnPath(mem.pages, pt, va, l)
        && EntryAt(mem.pages, pt, va, l).flags.p && !EntryAt(mem.pages, pt, va, l).flags.ps
      ensures var e := EntryAt(mem.pages, pt, va, level);
        && (level == 0 || !e.flags.p || e.flags.ps)
        && pep.At? && pep.table in mem.pages && pep.index < |mem.pages[pep.table]|
        && (!e.flags.p ==> Pa() == None && Perm() == NO_FLAGS)
        && (e.flags.p ==> Perm().p && Perm().ps == e.flags.ps && Perm().rest == e.flags.rest)
        && (e.flags.p ==> (Perm().w <==> AllWritable(mem.pages, pt, va, level)))
        && (e.flags.p ==> (Perm().u <==> AllForUsers(mem.pages, pt, va, level)))
        && (e.flags.p && (e.addr % Span(level) == 0 || (level > 0 && e.addr % Span(level) == 0x1000)) ==>
              Pa() == Some(e.addr - e.addr % Span(level) + va % Span(level)))
    {
      var e := EntryAt(mem.pages, pt, va, level);
      StopIs(mem.pages, pt, va, level);
      MaskIs(mem.pages, pt, va, level);
      MaskPresent(mem.pages, pt, va, level);
      if e.addr % Span(level) == 0 || (level > 0 && e.addr % Span(level) == 0x1000) {
        PhysAddrIs(e, level, va);
      }
    }

    /** How many levels' worth of addresses next() may jump over. */
    ghost function SkipLevel(): (l: nat)
      reads this, mem
      requires Valid()
      ensures l <= 3 && level <= 3 && (pep.At? ==> pep.table in mem.pages && pep.index < |mem.pages[pep.table]|)
    {
      Reports();
      if level > 0 && !Perm().p then level else 0
    }

    /** next(): to the next page, or past the whole range of an absent entry; every address jumped over is unmapped. */
    method Next() returns (panics: bool)
      requires Valid()
      modifies this
      ensures Valid() && va == NextVa(old(va), old(SkipLevel())) % VA_END && (panics <==> Entry().addr >= 0x1_0000_0000)
      ensures va == old(if level > 0 && Pa() == None then va - va % Span(level) + Span(level)
                        else va - va % 0x1000 + 0x1000) % VA_END
      ensures forall x: nat :: old(va) < x < NextVa(old(va), old(SkipLevel())) && x < VA_END ==>
        x / 0x1000 == old(va) / 0x1000 || Translation(mem.pages, pt, x) == None
    {
      Reports();
      var l := 0;
      if level > 0 && !Perm().p {
        l := level;
      }
      forall x: nat | va < x < NextVa(va, l) && x < VA_END
        ensures x / 0x1000 == va / 0x1000 || Translation(mem.pages, pt, x) == None
      {
        InBlock(va, x, l);
        if l > 0 {
          Absent();
          AbsentRange(mem.pages, pt, va, level, x);
        }
      }
      panics := RealFind(NextVa(va, l) % VA_END);
    }

    /** next_range(): to last_va(); everything jumped over is mapped as one piece with the address left behind. */
    method NextRange() returns (panics: bool)
      requires Valid()
      modifies this
      ensures Valid() && va == NextVa(old(va), old(level)) % VA_END && (panics <==> Entry().addr >= 0x1_0000_0000)
      ensures old(level) <= 3 && va == old(va - va % Span(level) + Span(level)) % VA_END
      ensures forall x: nat :: old(va) < x < NextVa(old(va), old(level)) && x < VA_END ==>
        MappedAlongside(mem.pages, pt, old(va), x)
    {
      forall x: nat | va < x < NextVa(va, level) && x < VA_END
        ensures MappedAlongside(mem.pages, pt, va, x)
      {
        InBlock(va, x, level);
        OneRange(mem.pages, pt, va, level, x);
      }
      panics := RealFind(NextVa(va, level) % VA_END);
    }

    /** Without PTE_P in the permissions the entry itself is absent: the entries above always have it. */
    lemma Absent()
      requires Valid()
      ensures pep.At? ==> pep.table in mem.pages && pep.index < |mem.pages[pep.table]|
      ensures !Perm().p && Canonical(va) ==> !EntryAt(mem.pages, pt, va, level).flags.p
    {
      if Canonical(va) {
        MaskPresent(mem.pages, pt, va, level);
      }
    }

    // ----- try_map -----

    /** The page table has the shape of a tree, and no page of it is free. */
    ghost predicate Steady()
      reads this, mem
      ensures Steady() ==> Valid() && level <= 3
      ensures Steady() && pep.At? ==> pep.table in mem.pages && pep.index < |mem.pages[pep.table]|
    {
      && Valid() && mem.Valid() && TreeShaped(mem.pages, pt)
    }

    /** The iterator is at a canonical address as well. */
    ghost predicate Ready()
      reads this, mem
      ensures Ready() ==> Steady() && pep.At?
    {
      && Steady() && Canonical(va)
    }

    /** One round of the loop: allocate a page, link it, go down into it. */
    method AddPage() returns (ok: bool)
      requires Ready() && level > 0 && !Entry().flags.p
      modifies this, mem
      ensures Ready() && va == old(va)
      ensures ok <==> old(mem.free) != []
      ensures ok ==> level == old(level) - 1 && !Entry().flags.p && perm == old(perm)
      ensures ok ==> |mem.free| == old(|mem.free|) - 1
      ensures !ok ==> mem.pages == old(mem.pages) && level == old(level) && !Entry().flags.p
      ensures forall x :: Translation(mem.pages, pt, x) == Translation(old(mem.pages), pt, x)
    {
      ghost var h := mem.pages;
      var page := mem.KallocZeroed();
      if page.None? {
        return false;
      }
      mem.SetEntry(pep.table, pep.index, Link(page.value));
      Install(h, mem.pages, pt, va, level, page.value);
      var panics := Down();
      assert !panics;
      return true;
    }

    /** try_map's assertions: alignment, the permissions the tables above allow, and no large page in the way. */
    ghost predicate Refuses(pa: int, perms: Flags)
      reads this, mem
      requires pep.At? ==> pep.table in mem.pages && pep.index < |mem.pages[pep.table]|
    {
      || va % 0x1000 != 0
      || (perms.p && (pa < 0 || pa % 0x1000 != 0 || pa >= PHYSICAL_SPACE))
      || (!perms.p && !(pa == -1 && perms == NO_FLAGS) && pa % 2 != 0)
      || !perm.Allows(perms)
      || (level > 0 && perms != NO_FLAGS && Entry().flags.p)
    }

    /** The loop of try_map: puts empty pages behind va until its walk reaches level 0. */
    method Extend() returns (ok: bool)
      requires Ready() && (level > 0 ==> !Entry().flags.p)
      modifies this, mem
      ensures Ready() && va == old(va)
      ensures ok <==> old(level <= |mem.free|)
      ensures ok ==> level == 0 && perm == old(perm)
      ensures forall x :: Translation(mem.pages, pt, x) == Translation(old(mem.pages), pt, x)
    {
      while level > 0
        invariant Ready() && va == old(va) && (level > 0 ==> !Entry().flags.p)
        invariant perm == old(perm) && level <= old(level)
        invariant old(|mem.free|) - |mem.free| == old(level) - level
        invariant forall x :: Translation(mem.pages, pt, x) == Translation(old(mem.pages), pt, x)
        decreases level
      {
        var more := AddPage();
        if !more {
          return false;
        }
      }
      return true;
    }

    /** Maps the current page.  On success the page has exactly the new mapping (or none, or, when nothing is asked for
        above level 0, what it had), and every other page keeps its own; on failure nothing is mapped differently.  At
        an address that is not canonical, flags other than P, W and U lead to a write through the constant zero
        entry. */
    method TryMap(pa0: int, perms: Flags) returns (r: MapResult)
      requires Steady() && pa0 >= -1
      modifies this, mem
      ensures r == Refused <==> old(Refuses(pa0, perms))
      ensures r == Faulted <==> old(!Refuses(pa0, perms) && !Canonical(va) && perms != NO_FLAGS && mem.free != [])
      ensures r != Refused <==> old(
        && va % 0x1000 == 0
        && (perms.p ==> 0 <= pa0 < 0x10_0000_0000_0000 && pa0 % 0x1000 == 0)
        && (!perms.p ==> pa0 % 2 == 0 || (pa0 == -1 && perms == NO_FLAGS))
        && (!Canonical(va) ==> !perms.p && !perms.w && !perms.u)
        && (Canonical(va) ==>
              && (perms.w ==> AllWritable(mem.pages, pt, va, level + 1))
              && (perms.u ==> AllForUsers(mem.pages, pt, va, level + 1))
              && (level > 0 && perms != NO_FLAGS ==> !EntryAt(mem.pages, pt, va, level).flags.p)))
      ensures r == NoMemory <==> old(!Refuses(pa0, perms) && perms != NO_FLAGS
                                     && if Canonical(va) then |mem.free| < level else mem.free == [])
      ensures r != Faulted ==> Steady() && va == old(va)
      ensures r == Refused ==> mem.pages == old(mem.pages)
      ensures r == NoMemory ==> forall x :: Translation(mem.pages, pt, x) == Translation(old(mem.pages), pt, x)
      ensures r == Mapped ==> OnlyPage(old(mem.pages), mem.pages, pt, va)
      ensures r == Mapped ==> Translation(mem.pages, pt, va) == old(Requested(pa0, perms))
      ensures r == Mapped && perms.p ==> pa0 >= 0 && Translation(mem.pages, pt, va) == Some((pa0 as nat, perms))
      ensures r == Mapped && !perms.p && (old(level) == 0 || perms != NO_FLAGS) ==>
        Translation(mem.pages, pt, va) == None
      ensures r == Mapped && perms == NO_FLAGS && old(level) > 0 ==> mem.pages == old(mem.pages)
    {
      RefusesExactly(pa0, perms);
      var refused := Assertions(pa0, perms);
      if refused {
        return Refused;
      }
      if pep.ZeroEntry? {
        r := CommitNowhere(perms);
      } else {
        r := Commit(if pa0 == -1 && perms == NO_FLAGS then 0 else pa0, perms);
      }
    }

    /** The assertions, in terms of the entries on the way. */
    lemma RefusesExactly(pa0: int, perms: Flags)
      requires Steady() && pa0 >= -1
      ensures Canonical(va) ==> level <= 3 && OnPath(mem.pages, pt, va, level)
      ensures !Refuses(pa0, perms) <==>
        && va % 0x1000 == 0
        && (perms.p ==> 0 <= pa0 < 0x10_0000_0000_0000 && pa0 % 0x1000 == 0)
        && (!perms.p ==> pa0 % 2 == 0 || (pa0 == -1 && perms == NO_FLAGS))
        && (!Canonical(va) ==> !perms.p && !perms.w && !perms.u)
        && (Canonical(va) ==>
              && (perms.w ==> AllWritable(mem.pages, pt, va, level + 1))
              && (perms.u ==> AllForUsers(mem.pages, pt, va, level + 1))
              && (level > 0 && perms != NO_FLAGS ==> !EntryAt(mem.pages, pt, va, level).flags.p))
    {
      if Canonical(va) {
        MaskIs(mem.pages, pt, va, level);
        MaskPresent(mem.pages, pt, va, level);
      }
    }

    /** The part of try_map after its assertions, at an address that is not canonical. */
    method CommitNowhere(perms: Flags) returns (r: MapResult)
      requires Steady() && !Canonical(va)
      modifies mem
      ensures r == if perms == NO_FLAGS then Mapped else if old(mem.free) == [] then NoMemory else Faulted
      ensures r != Faulted ==> Steady() && mem.pages == old(mem.pages)
    {
      if level > 0 && perms != NO_FLAGS {
        var page := mem.KallocZeroed();
        return if page.None? then NoMemory else Faulted;
      }
      return Mapped;
    }

    /** The part of try_map after its assertions: new tables down to level 0, then the entry. */
    method Commit(pa: nat, perms: Flags) returns (r: MapResult)
      requires Ready()
      requires perms != NO_FLAGS && level > 0 ==> !Entry().flags.p
      requires perms.p ==>
        va % 0x1000 == 0 && pa % 0x1000 == 0 && pa < PHYSICAL_SPACE && perm.Apply(perms) == perms
      modifies this, mem
      ensures Ready() && va == old(va) && (r == Mapped || r == NoMemory)
      ensures perms == NO_FLAGS && old(level) > 0 ==> mem.pages == old(mem.pages)
      ensures r == NoMemory <==> perms != NO_FLAGS && old(|mem.free| < level)
      ensures r == NoMemory ==> forall x :: Translation(mem.pages, pt, x) == Translation(old(mem.pages), pt, x)
      ensures r == Mapped ==> OnlyPage(old(mem.pages), mem.pages, pt, va)
      ensures r == Mapped ==> Translation(mem.pages, pt, va) == old(Requested(pa, perms))
    {
      if perms != NO_FLAGS {
        var ok := Extend();
        if !ok {
          return NoMemory;
        }
      }
      if level == 0 {
        WriteEntry(EntryFor(pa, perms));
      }
      return Mapped;
    }

    /** pa | perm. */
    function EntryFor(pa: nat, perms: Flags): (e: Pte)
      ensures e.flags == perms && (pa % 0x1000 == 0 && pa < PHYSICAL_SPACE ==> e.addr == pa)
    {
      Pte((pa - pa % 0x1000) % PHYSICAL_SPACE, perms)
    }

    /** The translation the caller asked for. */
    ghost function Requested(pa: int, perms: Flags): Option<(nat, Flags)>
      reads this, mem
      requires WellFormed(mem.pages, pt, 3) && pa >= -1
    {
      if perms.p then (if pa >= 0 then Some((pa, perms)) else None)
      else if level > 0 && perms == NO_FLAGS then Translation(mem.pages, pt, va)
      else None
    }

    method Assertions(pa0: int, perms: Flags) returns (failed: bool)
      requires Steady()
      ensures failed <==> Refuses(pa0, perms)
      ensures !failed && va % 0x1000 == 0 && perms.p ==> perm.Apply(perms) == perms
    {
      if pep.At? {
        MaskPresent(mem.pages, pt, va, level);
      }
      var pa := if pa0 == -1 && perms == NO_FLAGS then 0 else pa0;
      if va % 0x1000 != 0 {
        return true;
      }
      if perms.p {
        if pa < 0 || pa % 0x1000 != 0 || pa >= PHYSICAL_SPACE {
          return true;
        }
      } else if pa % 2 != 0 {
        return true;
      }
      return !perm.Allows(perms) || (level > 0 && perms != NO_FLAGS && Entry().flags.p);
    }

    /** *pep_ = pa | perm, at level 0. */
    method WriteEntry(e: Pte)
      requires Ready() && level == 0
      modifies mem
      ensures Ready()
      ensures OnlyPage(old(mem.pages), mem.pages, pt, va)
      ensures Translation(mem.pages, pt, va)
           == if e.flags.p then Some((e.addr + va % 0x1000, perm.Apply(e.flags))) else None
    {
      ghost var h := mem.pages;
      mem.SetEntry(pep.table, pep.index, e);
      WriteLeaf(h, mem.pages, pt, va, e);
      forall x: nat | x / 0x1000 != va / 0x1000
        ensures Translation(mem.pages, pt, x) == Translation(h, pt, x)
      {
        OtherPagesKept(h, mem.pages, pt, va, e, x);
      }
      StopResumed(mem.pages, pt, va, 0, 3);
    }
  }
}
