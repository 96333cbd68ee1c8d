/** ptiter: enumerates the page-table pages below the root, each after the pages below it. */
module PtIter {
  import opened Paging

  /** A page-table page found at `level` (0 to 2), mapping the range that starts at `base`. */
  datatype Visit = Visit(addr: nat, level: nat, base: nat)

  // ----- the order of visits -----

  /** Visits below one entry of a page at `level`, then the page the entry points to. */
  ghost function EntryVisits(h: Heap, e: Pte, level: nat, base: nat): seq<Visit>
    requires 1 <= level <= 3 && (e.IsTable() ==> WellFormed(h, e.addr, level - 1))
    decreases level, 0, e
  {
    if !e.IsTable() then []
    else (if level >= 2 then Below(h, e.addr, level - 1, base) else []) + [Visit(e.addr, level - 1, base)]
  }

  /** Visits below a page at `level`, from its entry for va on. */
  ghost function Below(h: Heap, t: nat, level: nat, va: nat): seq<Visit>
    requires 1 <= level <= 3 && WellFormed(h, t, level)
    decreases level, 1, ENTRIES - Index(va, level), 1, t
  {
    EntryVisits(h, h[t][Index(va, level)], level, Base(va, level)) + BelowAfter(h, t, level, va)
  }

  /** Visits below a page, from the entry after the one for va on. */
  ghost function BelowAfter(h: Heap, t: nat, level: nat, va: nat): seq<Visit>
    requires 1 <= level <= 3 && WellFormed(h, t, level)
    decreases level, 1, ENTRIES - Index(va, level), 0, t
  {
    NextCrosses(va, level);
    if Index(va, level) == ENTRIES - 1 then [] else Below(h, t, level, NextVa(va, level))
  }

  /** Visits left once everything below the page at `level` on the way to va has been visited: that page itself, and
      what follows it. */
  ghost function After(h: Heap, root: nat, va: nat, level: nat): seq<Visit>
    requires level <= 3 && WellFormed(h, root, 3) && OnPath(h, root, va, level)
    decreases 3 - level
  {
    if level == 3 then [] else
      var t := TableAt(h, root, va, level + 1);
      [Visit(TableAt(h, root, va, level), level, Base(va, level + 1))] + BelowAfter(h, t, level + 1, va)
      + After(h, root, va, level + 1)
  }

  /** All page-table pages below the root. */
  ghost function PostOrder(h: Heap, root: nat): seq<Visit>
    requires WellFormed(h, root, 3)
  {
    Below(h, root, 3, 0)
  }

  // ----- how one step of the walk moves along the order -----

  lemma {:induction false} AfterSame(h: Heap, root: nat, va: nat, va': nat, level: nat)
    requires level <= 3 && WellFormed(h, root, 3) && OnPath(h, root, va, level)
    requires va / Span(level + 1) == va' / Span(level + 1)
    ensures OnPath(h, root, va', level) && After(h, root, va', level) == After(h, root, va, level)
    decreases 3 - level
  {
    SameTable(h, root, va, va', level);
    if level < 3 {
      SameIndexes(va, va', level + 1, level + 1);
      SameTable(h, root, va, va', level + 1);
      AfterSame(h, root, va, va', level + 1);
      SameBase(va, va', level + 1);
      BelowAfterSame(h, TableAt(h, root, va, level + 1), level + 1, va, va');
    }
  }

  lemma SameBase(va: nat, va': nat, level: nat)
    requires level <= 4 && va / Span(level) == va' / Span(level)
    ensures Base(va, level) == Base(va', level) && NextVa(va, level) == NextVa(va', level)
  {
  }

  lemma BelowAfterSame(h: Heap, t: nat, level: nat, va: nat, va': nat)
    requires 1 <= level <= 3 && WellFormed(h, t, level) && va / Span(level) == va' / Span(level)
    ensures BelowAfter(h, t, level, va) == BelowAfter(h, t, level, va')
  {
    SameBase(va, va', level);
    SameIndexes(va, va', level, level);
  }

  /** Going down into the page an entry points to. */
  lemma Descend(h: Heap, root: nat, va: nat, level: nat)
    requires 2 <= level <= 3 && WellFormed(h, root, 3) && OnPath(h, root, va, level)
    requires EntryAt(h, root, va, level).IsTable() && va % Span(level) == 0
    ensures OnPath(h, root, va, level - 1) && va % Span(level - 1) == 0
    ensures Below(h, TableAt(h, root, va, level), level, va) + After(h, root, va, level)
         == Below(h, TableAt(h, root, va, level - 1), level - 1, va) + After(h, root, va, level - 1)
  {
    var t, c := TableAt(h, root, va, level), TableAt(h, root, va, level - 1);
    var v, b, r := Visit(c, level - 1, va), BelowAfter(h, t, level, va), After(h, root, va, level);
    Aligned(va, level);
    assert EntryVisits(h, h[t][Index(va, level)], level, va) == Below(h, c, level - 1, va) + [v];
    assert Below(h, t, level, va) == Below(h, c, level - 1, va) + [v] + b;
    assert After(h, root, va, level - 1) == [v] + b + r;
    Regroup(Below(h, c, level - 1, va), v, b, r);
  }

  lemma Aligned(va: nat, level: nat)
    requires 1 <= level <= 4 && va % Span(level) == 0
    ensures Base(va, level) == va && va % Span(level - 1) == 0
  {
    var q := va / Span(level);
    SpanTimes(level - 1);
    Exact(q * ENTRIES, level - 1);
  }

  lemma Regroup(x: seq<Visit>, v: Visit, b: seq<Visit>, r: seq<Visit>)
    ensures x + [v] + b + r == x + ([v] + b + r)
  {
  }

  /** Stopping at an entry of a level-1 page that points to a level-0 page. */
  lemma StopAtLeaf(h: Heap, root: nat, va: nat, level: nat)
    requires level == 1 && WellFormed(h, root, 3) && OnPath(h, root, va, level) && EntryAt(h, root, va, level).IsTable()
    ensures OnPath(h, root, va, level - 1)
    ensures Below(h, TableAt(h, root, va, level), level, va) + After(h, root, va, level)
         == After(h, root, va, level - 1)
  {
    var t := TableAt(h, root, va, level);
    var v, b := Visit(TableAt(h, root, va, level - 1), level - 1, Base(va, level)), BelowAfter(h, t, level, va);
    assert EntryVisits(h, h[t][Index(va, level)], level, Base(va, level)) == [v];
    assert After(h, root, va, level - 1) == [v] + b + After(h, root, va, level);
  }

  /** Moving to the next entry of the same page, or finding that the page is exhausted. */
  lemma Advance(h: Heap, root: nat, va: nat, level: nat)
    requires 1 <= level <= 3 && WellFormed(h, root, 3) && OnPath(h, root, va, level)
    ensures var t, n := TableAt(h, root, va, level), NextVa(va, level);
      if n / Span(level + 1) != va / Span(level + 1) then
        BelowAfter(h, t, level, va) + After(h, root, va, level) == After(h, root, va, level)
      else
        OnPath(h, root, n, level) && TableAt(h, root, n, level) == t && Index(n, level) == Index(va, level) + 1 &&
        BelowAfter(h, t, level, va) + After(h, root, va, level) == Below(h, t, level, n) + After(h, root, n, level)
  {
    var n := NextVa(va, level);
    NextCrosses(va, level);
    if n / Span(level + 1) == va / Span(level + 1) {
      SameTable(h, root, va, n, level);
      AfterSame(h, root, va, n, level);
    }
  }

  /** Every round but the last goes down, moves to a higher address, or gives up for a walk back to a page. */
  predicate Progress(stop: nat, va: nat, level: nat, stop': nat, va': nat, level': nat) {
    if stop' == stop then va' > va || (va' == va && level' < level) else stop == 1
  }

  // ----- the iterator -----

  /** Everything still to be visited, and the root, is still in memory as it was in h. */
  ghost predicate Live(pages: Heap, h: Heap, root: nat, todo: seq<Visit>) {
    && root in pages && (forall v :: v in todo ==> v.addr in pages)
    && forall a :: a in pages ==> a in h && pages[a] == h[a]
  }

  class Iterator {
    const mem: Memory
    const root: nat
    /** pep_: the page that holds the current entry, and the entry's index. */
    var table: nat
    var index: nat
    var level: nat
    var va: nat

    predicate Done()
      reads this
    {
      va >= VA_SPACE
    }

    ghost predicate Here(h: Heap)
      reads this
      requires WellFormed(h, root, 3)
    {
      && 1 <= level <= 3 && va < VA_SPACE && OnPath(h, root, va, level)
      && table == TableAt(h, root, va, level) && index == Index(va, level)
    }

    /** Stopped at an entry that points to the next page to visit, or done with nothing left. */
    ghost predicate Valid(h: Heap, todo: seq<Visit>)
      reads this
    {
      && WellFormed(h, root, 3)
      && if va >= VA_SPACE then todo == []
         else Here(h) && OnPath(h, root, va, level - 1) && todo == After(h, root, va, level - 1)
    }

    ghost predicate Walking(h: Heap, skip: bool, stop: nat, todo: seq<Visit>)
      reads this
    {
      WellFormed(h, root, 3) && Here(h) && Todo(h, root, va, level, skip, stop, todo)
    }

    /** *pep_: the page read is the root or one still to be visited, so it has not been freed. */
    method Read(ghost h: Heap, ghost todo: seq<Visit>, ghost skip: bool, ghost stop: nat) returns (e: Pte)
      requires Walking(h, skip, stop, todo) && Live(mem.pages, h, root, todo)
      ensures e == EntryAt(h, root, va, level)
    {
      if level < 3 {
        if stop > 1 {
          InAfter(h, root, va, stop - 1, level);
        } else {
          InAfter(h, root, va, level, level);
        }
      }
      e := mem.pages[table][index];
    }

    constructor (mem: Memory, pt: nat, ghost h: Heap)
      requires WellFormed(h, pt, 3) && Live(mem.pages, h, pt, PostOrder(h, pt))
      ensures this.mem == mem && root == pt && Valid(h, PostOrder(h, pt))
    {
      this.mem, root := mem, pt;
      table, index, level, va := pt, 0, 3, 0;
      new;
      Beginning(h, pt, va, level);
      Down(false, h, Below(h, pt, level, va));
    }

    method Down(skip0: bool, ghost h: Heap, ghost todo: seq<Visit>)
      requires Walking(h, skip0, 1, todo) && Live(mem.pages, h, root, todo)
      modifies this
      ensures Valid(h, todo)
    {
      var stop: nat, skip, done := 1, skip0, false;
      while !done
        invariant if done then Valid(h, todo) else Walking(h, skip, stop, todo)
        decreases !done, if stop == 1 then 1 else 0, VA_SPACE - va, level
      {
        done, stop := Round(skip, stop, h, todo);
        skip := false;
      }
    }

    /** One round of the loop.  A round that goes down never skips, so afterwards nothing is skipped any more. */
    method Round(skip: bool, stop: nat, ghost h: Heap, ghost todo: seq<Visit>) returns (done: bool, stop': nat)
      requires Walking(h, skip, stop, todo) && Live(mem.pages, h, root, todo)
      modifies `table, `index, `level, `va
      ensures if done then Valid(h, todo) else Walking(h, false, stop', todo)
      ensures !done ==>
        Progress(stop, old(va), old(level), stop', va, level)
    {
      var e := Read(h, todo, skip, stop);
      if e.IsTable() && !skip {
        if level == stop {
          Arrive(stop, h, todo);
          return true, stop;
        }
        Enter(e, stop, h, todo);
        return false, stop;
      } else {
        done, stop' := MoveOn(skip, stop, h, todo);
      }
    }

    /** The entry points to the page the walk is for. */
    lemma Arrive(stop: nat, h: Heap, todo: seq<Visit>)
      requires Walking(h, false, stop, todo) && level == stop && EntryAt(h, root, va, level).IsTable()
      ensures Valid(h, todo)
    {
      StepInto(h, root, va, level, stop, todo);
    }

    /** One branch of the loop: down into the page the entry points to. */
    method Enter(e: Pte, ghost stop: nat, ghost h: Heap, ghost todo: seq<Visit>)
      requires Walking(h, false, stop, todo) && e == EntryAt(h, root, va, level) && e.IsTable() && level != stop
      modifies `table, `index, `level
      ensures Walking(h, false, stop, todo) && level < old(level) && va == old(va)
    {
      StepInto(h, root, va, level, stop, todo);
      level := level - 1;
      table := e.addr;
      index := Index(va, level);
    }

    /** The other branch of the loop: to the next entry of the page, or up one level by starting over at the root. */
    method MoveOn(skip: bool, stop: nat, ghost h: Heap, ghost todo: seq<Visit>) returns (done: bool, stop': nat)
      requires Walking(h, skip, stop, todo) && (skip || !EntryAt(h, root, va, level).IsTable())
      modifies `table, `index, `level, `va
      ensures done ==> Valid(h, todo)
      ensures !done ==> Walking(h, false, stop', todo) && Progress(stop, old(va), old(level), stop', va, level)
    {
      StepPast(h, root, va, level, skip, stop, todo);
      if NextVa(va, level) / Span(level + 1) != va / Span(level + 1) {
        done, stop' := Leave(h, todo);
      } else {
        StepOver(h, todo);
        done, stop' := false, stop;
      }
    }

    /** Up one level: finished, or back to the root, to stop at the page just exhausted. */
    method Leave(ghost h: Heap, ghost todo: seq<Visit>) returns (done: bool, stop': nat)
      requires WellFormed(h, root, 3) && Here(h) && Exhausted(h, root, va, level, todo)
      modifies `table, `index, `level, `va
      ensures done ==> Valid(h, todo)
      ensures !done ==> va == old(va) && stop' == old(level) + 1 > 1 && Walking(h, false, stop', todo)
    {
      if level == 3 {
        va := VA_SPACE;
        return true, 1;
      }
      stop' := level + 1;
      level := 3;
      table, index := root, Index(va, 3);
      done := false;
    }

    /** To the next entry of the same page. */
    method StepOver(ghost h: Heap, ghost todo: seq<Visit>)
      requires WellFormed(h, root, 3) && Here(h) && NextVa(va, level) / Span(level + 1) == va / Span(level + 1)
      requires var n := NextVa(va, level);
        OnPath(h, root, n, level) && Todo(h, root, n, level, false, 1, todo) &&
        TableAt(h, root, n, level) == table && Index(n, level) == index + 1
      modifies `index, `va
      ensures va > old(va) && level == old(level) && Walking(h, false, 1, todo)
    {
      var n := NextVa(va, level);
      NextCrosses(va, level);
      InSpace(va, n, level);
      index := index + 1;
      va := n;
    }

    /** next(): move past the page just visited. */
    method Next(ghost h: Heap, ghost todo: seq<Visit>)
      requires !Done() && Valid(h, todo) && Live(mem.pages, h, root, todo[1..])
      modifies this
      ensures Valid(h, todo[1..])
    {
      Resume(h, root, va, level, todo);
      Down(true, h, todo[1..]);
    }

    /** Where the iterator stops, the entry points to the page to visit. */
    lemma Current(h: Heap, todo: seq<Visit>)
      requires !Done() && Valid(h, todo) && Live(mem.pages, h, root, todo)
      ensures todo != [] && table in mem.pages && index < |mem.pages[table]| && Addr() == todo[0].addr
    {
      if level < 3 {
        InAfter(h, root, va, level - 1, level);
      }
    }

    /** pa(): the address of the current page. */
    function Addr(): nat
      reads this, mem
      requires table in mem.pages && index < |mem.pages[table]|
    {
      mem.pages[table][index].addr
    }
  }

  /** What is left to visit, in each of the three situations of the loop in down. */
  ghost predicate Todo(h: Heap, root: nat, va: nat, level: nat, skip: bool, stop: nat, todo: seq<Visit>)
    requires 1 <= level <= 3 && WellFormed(h, root, 3) && OnPath(h, root, va, level)
  {
    && 1 <= stop <= 3
    && (stop > 1 ==> !skip && level >= stop && OnPath(h, root, va, stop - 1) && todo == After(h, root, va, stop - 1))
    && (stop == 1 && skip ==>
         todo == BelowAfter(h, TableAt(h, root, va, level), level, va) + After(h, root, va, level))
    && (stop == 1 && !skip ==>
         va % Span(level) == 0 && todo == Below(h, TableAt(h, root, va, level), level, va) + After(h, root, va, level))
  }

  /** Past the page just visited, what is left is what the loop looks for when it skips the current entry. */
  lemma Resume(h: Heap, root: nat, va: nat, level: nat, todo: seq<Visit>)
    requires 1 <= level <= 3 && WellFormed(h, root, 3) && OnPath(h, root, va, level) && OnPath(h, root, va, level - 1)
    requires todo == After(h, root, va, level - 1)
    ensures todo != [] && Todo(h, root, va, level, true, 1, todo[1..])
  {
    var v := Visit(TableAt(h, root, va, level - 1), level - 1, Base(va, level));
    var b, r := BelowAfter(h, TableAt(h, root, va, level), level, va), After(h, root, va, level);
    assert todo == [v] + b + r == [v] + (b + r);
  }

  lemma Beginning(h: Heap, root: nat, va: nat, level: nat)
    requires WellFormed(h, root, 3) && va == 0 && level == 3
    ensures OnPath(h, root, va, level) && TableAt(h, root, va, level) == root && Index(va, level) == 0
    ensures Todo(h, root, va, level, false, 1, Below(h, root, level, va))
  {
    var b := Below(h, root, level, va);
    assert After(h, root, va, level) == [];
    assert b + [] == b;
  }

  /** A round of the loop that goes down into a page, or stops at it. */
  lemma StepInto(h: Heap, root: nat, va: nat, level: nat, stop: nat, todo: seq<Visit>)
    requires 1 <= level <= 3 && WellFormed(h, root, 3) && OnPath(h, root, va, level)
    requires Todo(h, root, va, level, false, stop, todo) && EntryAt(h, root, va, level).IsTable()
    ensures OnPath(h, root, va, level - 1)
    ensures level == stop ==> todo == After(h, root, va, level - 1)
    ensures level != stop ==> level > 1 && Todo(h, root, va, level - 1, false, stop, todo)
  {
    if stop > 1 {
      OnPathAbove(h, root, va, stop - 1, level - 1);
    } else if level == stop {
      StopAtLeaf(h, root, va, level);
    } else {
      Descend(h, root, va, level);
    }
  }

  /** The page at `level` is exhausted: nothing is left, or the page itself is next and is found from the root. */
  ghost predicate Exhausted(h: Heap, root: nat, va: nat, level: nat, todo: seq<Visit>)
    requires 1 <= level <= 3 && WellFormed(h, root, 3)
  {
    if level == 3 then todo == [] else OnPath(h, root, va, 3) && Todo(h, root, va, 3, false, level + 1, todo)
  }

  lemma AfterExhausts(h: Heap, root: nat, va: nat, level: nat)
    requires 1 <= level <= 3 && WellFormed(h, root, 3) && OnPath(h, root, va, level)
    ensures Exhausted(h, root, va, level, After(h, root, va, level))
  {
  }

  /** A round of the loop that moves to the next entry, starts back from the root, or finishes. */
  lemma StepPast(h: Heap, root: nat, va: nat, level: nat, skip: bool, stop: nat, todo: seq<Visit>)
    requires 1 <= level <= 3 && WellFormed(h, root, 3) && OnPath(h, root, va, level)
    requires Todo(h, root, va, level, skip, stop, todo) && (skip || !EntryAt(h, root, va, level).IsTable())
    ensures stop == 1
    ensures NextVa(va, level) / Span(level + 1) != va / Span(level + 1) ==> Exhausted(h, root, va, level, todo)
    ensures NextVa(va, level) / Span(level + 1) == va / Span(level + 1) ==>
      var n := NextVa(va, level);
      OnPath(h, root, n, level) && Todo(h, root, n, level, false, 1, todo) &&
      TableAt(h, root, n, level) == TableAt(h, root, va, level) && Index(n, level) == Index(va, level) + 1
  {
    if stop > 1 {
      OnPathAbove(h, root, va, stop - 1, level);
    }
    var t := TableAt(h, root, va, level);
    if !skip {
      assert Below(h, t, level, va) == [] + BelowAfter(h, t, level, va) == BelowAfter(h, t, level, va);
    }
    Advance(h, root, va, level);
    NextCrosses(va, level);
    AfterExhausts(h, root, va, level);
  }

  /** Staying inside a page stays inside the address space. */
  lemma InSpace(va: nat, n: nat, level: nat)
    requires level <= 3 && va < VA_SPACE && n / Span(level + 1) == va / Span(level + 1)
    ensures n < VA_SPACE
    decreases 3 - level
  {
    if level < 3 {
      DivDiv(va, level + 1);
      DivDiv(n, level + 1);
      InSpace(va, n, level + 1);
    }
  }

  /** A page whose visit is still to come is among the visits to come. */
  lemma {:induction false} InAfter(h: Heap, root: nat, va: nat, level: nat, m: nat)
    requires level <= m < 3 && WellFormed(h, root, 3) && OnPath(h, root, va, level)
    ensures OnPath(h, root, va, m) && Visit(TableAt(h, root, va, m), m, Base(va, m + 1)) in After(h, root, va, level)
    decreases 3 - level
  {
    if level < m {
      InAfter(h, root, va, level + 1, m);
    }
  }
}
