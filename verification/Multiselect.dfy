/** Many range selections over one column: the column is cut into chunks, every chunk and selection make a task, and
    the tasks run in any interleaving on the thread pool. */
module Multiselect {
  import opened Columns
  import opened Counting
  import opened Numbers
  import opened Sequences

  // ----- chunks -----

  const MAX_COLUMN_PARTITION_SIZE: nat := 256
  const MIN_COLUMN_PARTITION_CHUNK_SIZE: nat := 128 * 4096
  const SIZE_OF_INT: nat := 4

  datatype Chunk = Chunk(start: nat, end: nat)

  /** The chunks join up and end at n. */
  predicate TilesTo(chunks: seq<Chunk>, n: nat) {
    && chunks != []
    && chunks[0].start == 0 && chunks[|chunks| - 1].end == n
    && (forall i :: 0 <= i < |chunks| ==> chunks[i].start <= chunks[i].end <= n)
    && (forall i :: 0 < i < |chunks| ==> chunks[i].start == chunks[i - 1].end)
  }

  /** Cuts a column of this size into chunks. */
  method PartitionColumn(size: nat) returns (chunks: seq<Chunk>)
    ensures TilesTo(chunks, size)
    ensures size > 0 ==> AllNonEmpty(chunks)
    ensures forall i :: 0 <= i < |chunks| - 1 ==>
      chunks[i].end - chunks[i].start >= size / 256 && chunks[i].end - chunks[i].start >= Min(size, 128 * 1024)
  {
    var chunkSize := ChunkSize(size);
    chunks := [];
    var start, end := 0, Min(chunkSize, size);
    while end <= size
      invariant 0 <= start <= end <= size && (size > 0 ==> start < end)
      invariant TiledTo(chunks, start) && (size > 0 ==> AllNonEmpty(chunks)) && end == Min(start + chunkSize, size)
      invariant forall i :: 0 <= i < |chunks| ==> chunks[i].end - chunks[i].start == chunkSize
      decreases size - end
    {
      ChunkAdded(chunks, start, end);
      chunks := chunks + [Chunk(start, end)];
      if end == size {
        break;
      }
      start := end;
      end := Min(start + chunkSize, size);
    }
  }

  predicate AllNonEmpty(chunks: seq<Chunk>) {
    forall i :: 0 <= i < |chunks| ==> chunks[i].start < chunks[i].end
  }

  predicate TiledTo(chunks: seq<Chunk>, n: nat) {
    if chunks == [] then n == 0 else TilesTo(chunks, n)
  }

  lemma ChunkAdded(chunks: seq<Chunk>, start: nat, end: nat)
    requires TiledTo(chunks, start) && start <= end
    ensures TilesTo(chunks + [Chunk(start, end)], end)
    ensures AllNonEmpty(chunks) && start < end ==> AllNonEmpty(chunks + [Chunk(start, end)])
  {
  }

  /** The entries of a chunk: at most 256 chunks of at least 512 kB, so at least one entry if there are any. */
  method ChunkSize(size: nat) returns (chunkSize: nat)
    ensures size > 0 ==> chunkSize > 0
    ensures chunkSize >= size / 256 && chunkSize >= Min(size, 128 * 1024)
  {
    var numberOfChunks := Max(Min(SIZE_OF_INT * size / MIN_COLUMN_PARTITION_CHUNK_SIZE, MAX_COLUMN_PARTITION_SIZE), 1);
    chunkSize := size / numberOfChunks;
    assert size > 0 ==> numberOfChunks <= size;
    AtLeastOne(size, numberOfChunks);
    SharesAreLarge(size, numberOfChunks);
  }

  /** A share of n is at least m if the shares are no more than n / m. */
  lemma ShareAtLeast(n: nat, d: nat, m: nat)
    requires 0 < d && m * d <= n
    ensures n / d >= m
  {
    var q := n / d;
    assert n < d * (q + 1);
    assert q + 1 <= m ==> d * (q + 1) <= d * m;
  }

  lemma SharesAreLarge(size: nat, d: nat)
    requires 0 < d <= 256 && (d > 1 ==> 131072 * d <= size)
    ensures size / d >= size / 256 && size / d >= Min(size, 131072)
  {
    assert 256 * (size / 256) <= size;
    assert (size / 256) * d <= (size / 256) * 256;
    ShareAtLeast(size, d, size / 256);
    if d > 1 {
      ShareAtLeast(size, d, 131072);
    }
  }

  lemma AtLeastOne(n: nat, d: nat)
    requires 0 < d
    ensures d <= n ==> n / d >= 1
  {
  }

  // ----- tasks -----

  /** A task, for one chunk and one selection: not handed to the pool yet, in it, looking at position `next` of its
      chunk, counted off the selection, and counted off the shared arrays. */
  datatype Phase = Waiting | Added | Selecting(next: nat) | Merged | Released

  /** One selection: its filter, which task variant it uses, the tasks it still waits for, the intermediate results,
      how often those were freed, what was selected, and (history) the order in which the chunks were counted off. */
  datatype Row = Row(filter: FullFilter, inverse: bool, direct: bool, remaining: int, slots: seq<seq<int>>,
                     slotFrees: nat, out: seq<int>, log: seq<nat>, phase: seq<Phase>)

  /** All selections, the reference count of the shared arrays, and how often the arrays were freed. */
  datatype State = State(rows: seq<Row>, count: int, frees: nat)

  datatype Job = Job(data: seq<int>, chunks: seq<Chunk>)

  datatype Step =
    | Add(i: nat, j: nat)       // the caller reads no_block and hands it over
    | Start(i: nat, j: nat)     // allocates the intermediate result
    | Examine(i: nat, j: nat)   // one round of internal_select
    | Merge(i: nat, j: nat)     // the section under the selection's lock
    | Direct(i: nat, j: nat)    // the variant without intermediates: the whole selection under the lock
    | Release(i: nat, j: nat)   // free_arc

  ghost predicate Shaped(job: Job, row: Row) {
    && TilesTo(job.chunks, |job.data|)
    && |row.slots| == |row.phase| == |job.chunks|
    && forall i :: 0 <= i < |row.phase| && row.phase[i].Selecting? ==>
         job.chunks[i].start <= row.phase[i].next <= job.chunks[i].end
  }

  ghost predicate RowEnabled(job: Job, row: Row, s: Step)
    requires Shaped(job, row)
  {
    && s.i < |row.phase|
    && var now := row.phase[s.i];
       match s
       case Add(_, _) => now.Waiting?
       case Start(_, _) => now.Added? && !row.direct
       case Examine(i, _) => now.Selecting? && now.next < job.chunks[i].end
       case Merge(i, _) => now.Selecting? && now.next == job.chunks[i].end
       case Direct(_, _) => now.Added? && row.direct
       case Release(_, _) => now.Merged?
  }

  function Piece(job: Job, row: Row, i: nat): seq<int>
    requires i < |job.chunks| && job.chunks[i].start <= job.chunks[i].end <= |job.data|
  {
    Selected(job.data, job.chunks[i].start, job.chunks[i].end, row.filter, row.inverse)
  }

  ghost function RowNext(job: Job, row: Row, s: Step): (row': Row)
    requires Shaped(job, row) && RowEnabled(job, row, s)
    ensures Shaped(job, row')
  {
    match s
    case Add(i, _) => row.(phase := row.phase[i := Added])
    case Start(i, _) => row.(phase := row.phase[i := Selecting(job.chunks[i].start)], slots := row.slots[i := []])
    case Examine(i, _) =>
      var k := row.phase[i].next;
      row.(phase := row.phase[i := Selecting(k + 1)],
           slots := row.slots[i := row.slots[i] + if Chosen(job.data[k], row.filter, row.inverse) then [k] else []])
    case Merge(i, _) =>
      row.(phase := row.phase[i := Merged], remaining := row.remaining - 1, log := row.log + [i],
           out := if row.remaining - 1 == 0 then row.out + Flatten(row.slots) else row.out,
           slotFrees := if row.remaining - 1 == 0 then row.slotFrees + 1 else row.slotFrees)
    case Direct(i, _) =>
      row.(phase := row.phase[i := Merged], remaining := row.remaining - 1, log := row.log + [i],
           out := row.out + Piece(job, row, i),
           slotFrees := if row.remaining - 1 == 0 then row.slotFrees + 1 else row.slotFrees)
    case Release(i, _) => row.(phase := row.phase[i := Released])
  }

  ghost predicate Enabled(job: Job, st: State, s: Step) {
    s.j < |st.rows| && Shaped(job, st.rows[s.j]) && RowEnabled(job, st.rows[s.j], s)
  }

  ghost function Next(job: Job, st: State, s: Step): State
    requires Enabled(job, st, s)
  {
    var rows := st.rows[s.j := RowNext(job, st.rows[s.j], s)];
    if s.Release? then State(rows, st.count - 1, if st.count - 1 == 0 then st.frees + 1 else st.frees)
    else st.(rows := rows)
  }

  // ----- counting tasks -----

  predicate CountedOff(p: Phase) {
    p.Merged? || p.Released?
  }

  /** Tasks the selection still waits for. */
  function Unmerged(phase: seq<Phase>): nat {
    if phase == [] then 0 else Unmerged(phase[..|phase| - 1]) + One(!CountedOff(phase[|phase| - 1]))
  }

  /** Tasks that may still use the shared arrays. */
  function Users(phase: seq<Phase>): nat {
    if phase == [] then 0 else Users(phase[..|phase| - 1]) + One(!phase[|phase| - 1].Released?)
  }

  function AllUsers(rows: seq<Row>): nat {
    if rows == [] then 0 else AllUsers(rows[..|rows| - 1]) + Users(rows[|rows| - 1].phase)
  }

  lemma {:induction false} PhaseChanged(phase: seq<Phase>, i: nat, x: Phase)
    requires i < |phase|
    ensures Unmerged(phase[i := x]) == Unmerged(phase) - One(!CountedOff(phase[i])) + One(!CountedOff(x))
    ensures Users(phase[i := x]) == Users(phase) - One(!phase[i].Released?) + One(!x.Released?)
    decreases |phase|
  {
    var n := |phase| - 1;
    if i < n {
      PhaseChanged(phase[..n], i, x);
      assert phase[i := x][..n] == phase[..n][i := x];
    } else {
      assert phase[i := x][..n] == phase[..n];
    }
  }

  lemma {:induction false} RowChanged(rows: seq<Row>, j: nat, row: Row)
    requires j < |rows|
    ensures AllUsers(rows[j := row]) == AllUsers(rows) - Users(rows[j].phase) + Users(row.phase)
    ensures AllUsers(rows) >= Users(rows[j].phase)
    decreases |rows|
  {
    var n := |rows| - 1;
    if j < n {
      RowChanged(rows[..n], j, row);
      assert rows[j := row][..n] == rows[..n][j := row];
    } else {
      assert rows[j := row][..n] == rows[..n];
    }
  }

  lemma {:induction false} CountsAtZero(phase: seq<Phase>, i: nat)
    requires i < |phase|
    ensures Unmerged(phase) == 0 ==> CountedOff(phase[i])
    ensures Users(phase) == 0 ==> phase[i].Released?
    decreases |phase|
  {
    if i < |phase| - 1 {
      CountsAtZero(phase[..|phase| - 1], i);
    }
  }

  // ----- what the selections hold -----

  /** The pieces of the chunks in the order they were counted off. */
  function Pieces(job: Job, row: Row, log: seq<nat>): seq<int>
    requires TilesTo(job.chunks, |job.data|) && forall k :: 0 <= k < |log| ==> log[k] < |job.chunks|
  {
    if log == [] then [] else Pieces(job, row, log[..|log| - 1]) + Piece(job, row, log[|log| - 1])
  }

  ghost predicate SlotOk(job: Job, row: Row, i: nat)
    requires Shaped(job, row) && i < |row.phase|
  {
    && (row.phase[i].Selecting? ==>
          && !row.direct
          && row.slots[i] == Selected(job.data, job.chunks[i].start, row.phase[i].next, row.filter, row.inverse))
    && (CountedOff(row.phase[i]) && !row.direct ==> row.slots[i] == Piece(job, row, i))
    && Times(row.log, i) == One(CountedOff(row.phase[i]))
  }

  /** What every selection satisfies in every state of every run. */
  ghost predicate RowOk(job: Job, row: Row) {
    && Shaped(job, row)
    && (forall i :: 0 <= i < |row.phase| ==> SlotOk(job, row, i))
    && (forall k :: 0 <= k < |row.log| ==> row.log[k] < |job.chunks|)
    && row.remaining == Unmerged(row.phase)
    && row.slotFrees == One(row.remaining == 0)
    && row.out == if row.direct then Pieces(job, row, row.log)
                  else if row.remaining == 0 then Selected(job.data, 0, |job.data|, row.filter, row.inverse)
                  else []
  }

  /** The intermediate results, joined in chunk order, are the selection over the whole column. */
  lemma {:induction false} JoinedIsSelected(job: Job, row: Row, n: nat)
    requires Shaped(job, row) && 0 < n <= |job.chunks|
    requires forall i :: 0 <= i < n ==> row.slots[i] == Piece(job, row, i)
    ensures Flatten(row.slots[..n]) == Selected(job.data, 0, job.chunks[n - 1].end, row.filter, row.inverse)
    decreases n
  {
    assert row.slots[..n][..n - 1] == row.slots[..n - 1];
    if n > 1 {
      JoinedIsSelected(job, row, n - 1);
      SelectedSplit(job.data, 0, job.chunks[n - 1].start, job.chunks[n - 1].end, row.filter, row.inverse);
    }
  }

  ghost predicate SameSelection(row: Row, row': Row) {
    row'.filter == row.filter && row'.inverse == row.inverse && row'.direct == row.direct
  }

  /** Pieces depend on the filter only. */
  lemma {:induction false} PiecesSame(job: Job, row: Row, row': Row, log: seq<nat>)
    requires TilesTo(job.chunks, |job.data|) && SameSelection(row, row')
    requires forall k :: 0 <= k < |log| ==> log[k] < |job.chunks|
    ensures Pieces(job, row', log) == Pieces(job, row, log)
    decreases |log|
  {
    if log != [] {
      PiecesSame(job, row, row', log[..|log| - 1]);
    }
  }

  /** A step on one chunk's task leaves the others as they were. */
  lemma OtherSlotsKept(job: Job, row: Row, row': Row, c: nat)
    requires Shaped(job, row) && Shaped(job, row') && SameSelection(row, row')
    requires forall i :: 0 <= i < |row.phase| ==> SlotOk(job, row, i)
    requires forall i: nat :: i < |row.phase| && i != c ==>
      row'.phase[i] == row.phase[i] && row'.slots[i] == row.slots[i] && Times(row'.log, i) == Times(row.log, i)
    ensures forall i :: 0 <= i < |row.phase| && i != c ==> SlotOk(job, row', i)
  {
    forall i: nat | i < |row.phase| && i != c
      ensures SlotOk(job, row', i)
    {
      assert SlotOk(job, row, i);
      assert row'.phase[i] == row.phase[i];
    }
  }

  lemma StartKeeps(job: Job, row: Row, s: Step)
    requires RowOk(job, row) && RowEnabled(job, row, s) && s.Start?
    ensures RowOk(job, RowNext(job, row, s))
  {
    var row' := RowNext(job, row, s);
    PhaseChanged(row.phase, s.i, row'.phase[s.i]);
    PiecesSame(job, row, row', row.log);
    OtherSlotsKept(job, row, row', s.i);
    assert SlotOk(job, row, s.i);
  }

  lemma ExamineKeeps(job: Job, row: Row, s: Step)
    requires RowOk(job, row) && RowEnabled(job, row, s) && s.Examine?
    ensures RowOk(job, RowNext(job, row, s))
  {
    var row' := RowNext(job, row, s);
    PhaseChanged(row.phase, s.i, row'.phase[s.i]);
    PiecesSame(job, row, row', row.log);
    ExamineSlots(job, row, s);
  }

  lemma HandOverKeeps(job: Job, row: Row, s: Step)
    requires RowOk(job, row) && RowEnabled(job, row, s) && (s.Add? || s.Release?)
    ensures RowOk(job, RowNext(job, row, s))
  {
    var row' := RowNext(job, row, s);
    PhaseChanged(row.phase, s.i, row'.phase[s.i]);
    PiecesSame(job, row, row', row.log);
    OtherSlotsKept(job, row, row', s.i);
    assert SlotOk(job, row, s.i);
  }

  /** Counting a task off completes its intermediate result, and its chunk enters the history. */
  lemma CountOffSlots(job: Job, row: Row, s: Step)
    requires RowOk(job, row) && RowEnabled(job, row, s) && (s.Merge? || s.Direct?)
    ensures forall i :: 0 <= i < |row.phase| ==> SlotOk(job, RowNext(job, row, s), i)
  {
    var row' := RowNext(job, row, s);
    TimesPush(row.log, s.i);
    assert SlotOk(job, row, s.i);
    OtherSlotsKept(job, row, row', s.i);
    assert SlotOk(job, row', s.i);
  }

  lemma ExamineSlots(job: Job, row: Row, s: Step)
    requires RowOk(job, row) && RowEnabled(job, row, s) && s.Examine?
    ensures forall i :: 0 <= i < |row.phase| ==> SlotOk(job, RowNext(job, row, s), i)
  {
    var row' := RowNext(job, row, s);
    assert SlotOk(job, row, s.i);
    OtherSlotsKept(job, row, row', s.i);
    assert SlotOk(job, row', s.i);
  }

  lemma MergeKeeps(job: Job, row: Row, s: Step)
    requires RowOk(job, row) && RowEnabled(job, row, s) && s.Merge?
    ensures RowOk(job, RowNext(job, row, s))
  {
    var row' := RowNext(job, row, s);
    PhaseChanged(row.phase, s.i, Merged);
    CountOffSlots(job, row, s);
    assert SlotOk(job, row, s.i);
    if row'.remaining == 0 {
      LastMergeSelects(job, row');
    }
  }

  /** When the last task is counted off, every intermediate result is complete. */
  lemma LastMergeSelects(job: Job, row: Row)
    requires Shaped(job, row) && !row.direct && Unmerged(row.phase) == 0
    requires forall i :: 0 <= i < |row.phase| ==> SlotOk(job, row, i)
    ensures Flatten(row.slots) == Selected(job.data, 0, |job.data|, row.filter, row.inverse)
  {
    var m := |job.chunks|;
    forall i: nat | i < m
      ensures row.slots[i] == Piece(job, row, i)
    {
      CountsAtZero(row.phase, i);
      assert SlotOk(job, row, i);
    }
    JoinedIsSelected(job, row, m);
    assert row.slots[..m] == row.slots;
  }

  lemma DirectKeeps(job: Job, row: Row, s: Step)
    requires RowOk(job, row) && RowEnabled(job, row, s) && s.Direct?
    ensures RowOk(job, RowNext(job, row, s))
  {
    var row' := RowNext(job, row, s);
    PhaseChanged(row.phase, s.i, Merged);
    CountOffSlots(job, row, s);
    assert row.direct && SameSelection(row, row') && row'.log == row.log + [s.i];
    OneMorePiece(job, row, row', s.i);
    assert row'.out == Pieces(job, row', row'.log);
  }

  lemma OneMorePiece(job: Job, row: Row, row': Row, i: nat)
    requires TilesTo(job.chunks, |job.data|) && SameSelection(row, row') && i < |job.chunks|
    requires forall k :: 0 <= k < |row.log| ==> row.log[k] < |job.chunks|
    ensures Pieces(job, row', row.log + [i]) == Pieces(job, row, row.log) + Piece(job, row, i)
  {
    assert (row.log + [i])[..|row.log|] == row.log;
    PiecesSame(job, row, row', row.log);
  }

  // ----- the whole state -----

  /** What every state of every run satisfies. */
  ghost predicate Invariant(job: Job, st: State) {
    && TilesTo(job.chunks, |job.data|)
    && RowsOk(job, st.rows)
    && st.count == AllUsers(st.rows)
    && st.frees == One(st.count == 0 && st.rows != [])
  }

  /** A task that has not given up its reference keeps the shared arrays alive. */
  lemma UserKeepsAlive(job: Job, st: State, i: nat, j: nat)
    requires Invariant(job, st) && j < |st.rows| && i < |job.chunks|
    requires Shaped(job, st.rows[j]) && !st.rows[j].phase[i].Released?
    ensures st.count > 0 && st.frees == 0
  {
    CountsAtZero(st.rows[j].phase, i);
    RowChanged(st.rows, j, st.rows[j]);
  }

  /** No step touches the shared arrays after they were freed, nor intermediate results after those were. */
  lemma NothingUsedAfterFree(job: Job, st: State, s: Step)
    requires Invariant(job, st) && Enabled(job, st, s)
    ensures st.frees == 0
    ensures !s.Release? ==> st.rows[s.j].slotFrees == 0
  {
    UserKeepsAlive(job, st, s.i, s.j);
    CountsAtZero(st.rows[s.j].phase, s.i);
  }

  lemma RowStepKeeps(job: Job, row: Row, s: Step)
    requires RowOk(job, row) && RowEnabled(job, row, s)
    ensures RowOk(job, RowNext(job, row, s))
    ensures Users(RowNext(job, row, s).phase) == Users(row.phase) - One(s.Release?)
  {
    PhaseChanged(row.phase, s.i, RowNext(job, row, s).phase[s.i]);
    match s
    case Merge(_, _) => MergeKeeps(job, row, s);
    case Direct(_, _) => DirectKeeps(job, row, s);
    case Start(_, _) => StartKeeps(job, row, s);
    case Examine(_, _) => ExamineKeeps(job, row, s);
    case _ => HandOverKeeps(job, row, s);
  }

  ghost predicate RowsOk(job: Job, rows: seq<Row>) {
    forall j :: 0 <= j < |rows| ==> RowOk(job, rows[j])
  }

  lemma OneRowReplaced(job: Job, rows: seq<Row>, j: nat, row: Row)
    requires RowsOk(job, rows) && j < |rows| && RowOk(job, row)
    ensures RowsOk(job, rows[j := row])
  {
  }

  /** The reference count after a step. */
  lemma CountAfter(job: Job, st: State, s: Step, row: Row)
    requires Invariant(job, st) && s.j < |st.rows| && Users(row.phase) == Users(st.rows[s.j].phase) - One(s.Release?)
    requires st.count > 0
    ensures st.count - One(s.Release?) == AllUsers(st.rows[s.j := row])
  {
    RowChanged(st.rows, s.j, row);
  }

  lemma StepKeeps(job: Job, st: State, s: Step)
    requires Invariant(job, st) && Enabled(job, st, s)
    ensures Invariant(job, Next(job, st, s))
  {
    var row := st.rows[s.j];
    assert RowOk(job, row);
    RowStepKeeps(job, row, s);
    UserKeepsAlive(job, st, s.i, s.j);
    var row' := RowNext(job, row, s);
    CountAfter(job, st, s, row');
    OneRowReplaced(job, st.rows, s.j, row');
  }

  /** The state multiselect sets up before it hands out the tasks. */
  ghost predicate Initial(job: Job, st: State) {
    && TilesTo(job.chunks, |job.data|)
    && st.count == |job.chunks| * |st.rows| && st.frees == 0
    && forall j :: 0 <= j < |st.rows| ==> InitialRow(job, st.rows[j])
  }

  ghost predicate InitialRow(job: Job, row: Row) {
    && |row.slots| == |row.phase| == |job.chunks| == row.remaining && row.slotFrees == 0
    && row.out == [] && row.log == []
    && forall i :: 0 <= i < |row.phase| ==> row.phase[i] == Waiting
  }

  lemma {:induction false} AllWaiting(phase: seq<Phase>)
    requires forall i :: 0 <= i < |phase| ==> phase[i] == Waiting
    ensures Unmerged(phase) == Users(phase) == |phase|
    decreases |phase|
  {
    if phase != [] {
      AllWaiting(phase[..|phase| - 1]);
    }
  }

  lemma {:induction false} AllUsersInitially(rows: seq<Row>, m: nat)
    requires forall j :: 0 <= j < |rows| ==> Users(rows[j].phase) == m
    ensures AllUsers(rows) == m * |rows|
    decreases |rows|
  {
    if rows != [] {
      AllUsersInitially(rows[..|rows| - 1], m);
    }
  }

  lemma InitialInvariant(job: Job, st: State)
    requires Initial(job, st)
    ensures Invariant(job, st)
  {
    forall j | 0 <= j < |st.rows|
      ensures RowOk(job, st.rows[j]) && Users(st.rows[j].phase) == |job.chunks|
    {
      assert InitialRow(job, st.rows[j]);
      AllWaiting(st.rows[j].phase);
    }
    AllUsersInitially(st.rows, |job.chunks|);
    if st.rows != [] {
      RowChanged(st.rows, 0, st.rows[0]);
    }
  }

  ghost predicate Run(job: Job, st: State, steps: seq<Step>, last: State)
    decreases |steps|
  {
    if steps == [] then last == st
    else Enabled(job, st, steps[0]) && Run(job, Next(job, st, steps[0]), steps[1..], last)
  }

  lemma SelectionsStay(job: Job, st: State, s: Step)
    requires Enabled(job, st, s)
    ensures |Next(job, st, s).rows| == |st.rows|
    ensures forall j :: 0 <= j < |st.rows| ==> SameSelection(st.rows[j], Next(job, st, s).rows[j])
  {
    assert SameSelection(st.rows[s.j], RowNext(job, st.rows[s.j], s));
  }

  lemma {:induction false} RunKeeps(job: Job, st: State, steps: seq<Step>, last: State)
    requires Invariant(job, st) && Run(job, st, steps, last)
    ensures Invariant(job, last)
    ensures |last.rows| == |st.rows|
    ensures forall j :: 0 <= j < |st.rows| ==> SameSelection(st.rows[j], last.rows[j])
    decreases |steps|
  {
    if steps != [] {
      StepKeeps(job, st, steps[0]);
      SelectionsStay(job, st, steps[0]);
      var next := Next(job, st, steps[0]);
      RunKeeps(job, next, steps[1..], last);
    }
  }

  /** Every task has given up its reference. */
  ghost predicate Finished(job: Job, st: State) {
    forall j :: 0 <= j < |st.rows| ==> AllReleased(st.rows[j])
  }

  predicate AllReleased(row: Row) {
    forall i :: 0 <= i < |row.phase| ==> row.phase[i].Released?
  }

  lemma {:induction false} ReleasedCounts(phase: seq<Phase>)
    requires forall i :: 0 <= i < |phase| ==> phase[i].Released?
    ensures Unmerged(phase) == Users(phase) == 0
    decreases |phase|
  {
    if phase != [] {
      ReleasedCounts(phase[..|phase| - 1]);
    }
  }

  /** How often position p is in the pieces: as often as its chunk was counted off, if the filter chooses it. */
  lemma {:induction false} PieceCounts(job: Job, row: Row, log: seq<nat>, c: nat, p: nat)
    requires TilesTo(job.chunks, |job.data|) && forall k :: 0 <= k < |log| ==> log[k] < |job.chunks|
    requires c < |job.chunks| && job.chunks[c].start <= p < job.chunks[c].end
    ensures Times(Pieces(job, row, log), p)
         == if Chosen(job.data[p], row.filter, row.inverse) then Times(log, c) else 0
    decreases |log|
  {
    if log != [] {
      var n := |log| - 1;
      PieceCounts(job, row, log[..n], c, p);
      TimesSplit(Pieces(job, row, log[..n]), Piece(job, row, log[n]), p);
      ChunksApart(job.chunks, |job.data|, c, log[n], p);
      SelectedTimes(job.data, job.chunks[log[n]].start, job.chunks[log[n]].end, row.filter, row.inverse, p);
    }
  }

  /** A position lies in one chunk only. */
  lemma ChunksApart(chunks: seq<Chunk>, n: nat, c: nat, d: nat, p: nat)
    requires TilesTo(chunks, n) && c < |chunks| && d < |chunks|
    ensures c != d && chunks[c].start <= p < chunks[c].end ==> !(chunks[d].start <= p < chunks[d].end)
  {
    if c < d {
      Ordered(chunks, n, c, d);
    } else if d < c {
      Ordered(chunks, n, d, c);
    }
  }

  lemma {:induction false} Ordered(chunks: seq<Chunk>, n: nat, c: nat, d: nat)
    requires TilesTo(chunks, n) && c < d < |chunks|
    ensures chunks[c].end <= chunks[d].start
    decreases d
  {
    if c < d - 1 {
      Ordered(chunks, n, c, d - 1);
    }
  }

  lemma {:induction false} SelectedTimes(data: seq<int>, start: nat, end: nat, f: FullFilter, inverse: bool, p: int)
    requires start <= end <= |data|
    ensures Times(Selected(data, start, end, f, inverse), p)
         == One(start <= p < end && Chosen(data[p], f, inverse))
    decreases end
  {
    if start < end {
      SelectedTimes(data, start, end - 1, f, inverse, p);
      if Chosen(data[end - 1], f, inverse) {
        TimesPush(Selected(data, start, end - 1, f, inverse), end - 1);
      }
    }
  }

  /** Every position lies in some chunk. */
  lemma {:induction false} FindChunk(chunks: seq<Chunk>, n: nat, p: nat, k: nat) returns (c: nat)
    requires TilesTo(chunks, n) && k < |chunks| && p < chunks[k].end
    ensures c < |chunks| && chunks[c].start <= p < chunks[c].end
    decreases k
  {
    if chunks[k].start <= p {
      c := k;
    } else {
      c := FindChunk(chunks, n, p, k - 1);
    }
  }

  lemma {:induction false} NothingElse(job: Job, row: Row, log: seq<nat>, p: int)
    requires TilesTo(job.chunks, |job.data|) && forall k :: 0 <= k < |log| ==> log[k] < |job.chunks|
    requires p < 0 || p >= |job.data|
    ensures Times(Pieces(job, row, log), p) == 0
    decreases |log|
  {
    if log != [] {
      var n := |log| - 1;
      NothingElse(job, row, log[..n], p);
      TimesSplit(Pieces(job, row, log[..n]), Piece(job, row, log[n]), p);
      SelectedTimes(job.data, job.chunks[log[n]].start, job.chunks[log[n]].end, row.filter, row.inverse, p);
    }
  }

  /** A finished selection holds what one pass over the column selects: the very list if the last task merged the
      intermediate results, the same positions in some order if the tasks appended under the lock. */
  lemma FinishedRow(job: Job, row: Row)
    requires RowOk(job, row) && AllReleased(row)
    ensures row.slotFrees == 1
    ensures !row.direct ==> row.out == Selected(job.data, 0, |job.data|, row.filter, row.inverse)
    ensures forall p :: Times(row.out, p) == Times(Selected(job.data, 0, |job.data|, row.filter, row.inverse), p)
  {
    ReleasedCounts(row.phase);
    if row.direct {
      forall p
        ensures Times(row.out, p) == Times(Selected(job.data, 0, |job.data|, row.filter, row.inverse), p)
      {
        SelectedTimes(job.data, 0, |job.data|, row.filter, row.inverse, p);
        if 0 <= p < |job.data| {
          var c := FindChunk(job.chunks, |job.data|, p, |job.chunks| - 1);
          PieceCounts(job, row, row.log, c, p);
          assert SlotOk(job, row, c);
        } else {
          NothingElse(job, row, row.log, p);
        }
      }
    }
  }

  /** Every finished run has filled every selection as one sequential pass would, and freed the arrays exactly once. */
  lemma EveryRunSelectsRightly(job: Job, st: State, steps: seq<Step>, last: State)
    requires Initial(job, st) && Run(job, st, steps, last) && Finished(job, last)
    ensures |last.rows| == |st.rows| && last.frees == if st.rows != [] then 1 else 0
    ensures forall j :: 0 <= j < |st.rows| ==> Filled(job, st.rows[j], last.rows[j].out)
    ensures forall j :: 0 <= j < |st.rows| ==> HoldsSelection(job.data, st.rows[j], last.rows[j].out)
  {
    InitialInvariant(job, st);
    RunKeeps(job, st, steps, last);
    forall j | 0 <= j < |last.rows|
      ensures Users(last.rows[j].phase) == 0 && Filled(job, st.rows[j], last.rows[j].out)
      ensures HoldsSelection(job.data, st.rows[j], last.rows[j].out)
    {
      assert AllReleased(last.rows[j]);
      ReleasedCounts(last.rows[j].phase);
      FinishedRow(job, last.rows[j]);
      FilledMeans(job, st.rows[j], last.rows[j].out);
    }
    AllUsersInitially(last.rows, 0);
  }

  ghost predicate Filled(job: Job, row: Row, out: seq<int>) {
    var whole := Selected(job.data, 0, |job.data|, row.filter, row.inverse);
    (!row.direct ==> out == whole) && forall p :: Times(out, p) == Times(whole, p)
  }

  /** The positions whose values lie in the filter's range, or outside it for an inverse selection, each once; in
      ascending order unless the tasks appended under the lock. */
  ghost predicate HoldsSelection(data: seq<int>, row: Row, out: seq<int>) {
    && (forall p :: p in out <==> 0 <= p < |data| && (row.filter.low <= data[p] < row.filter.high) != row.inverse)
    && (forall i, j :: 0 <= i < j < |out| ==> out[i] != out[j] && (row.direct || out[i] < out[j]))
  }

  lemma FilledMeans(job: Job, row: Row, out: seq<int>)
    requires Filled(job, row, out)
    ensures HoldsSelection(job.data, row, out)
  {
    var whole := Selected(job.data, 0, |job.data|, row.filter, row.inverse);
    SelectedExactly(job.data, 0, |job.data|, row.filter, row.inverse);
    forall p
      ensures p in out <==> p in whole
    {
      AbsentNever(out, p);
      AbsentNever(whole, p);
    }
    forall i, j | 0 <= i < j < |out|
      ensures out[i] != out[j]
    {
      SelectedTimes(job.data, 0, |job.data|, row.filter, row.inverse, out[i]);
      OnceMeansDistinct(out, i, j);
    }
  }

  // ----- progress -----

  /** Steps a task still has to take, at most. */
  function LeftOf(p: Phase, c: Chunk): nat {
    match p
    case Waiting => 4 + if c.start <= c.end then c.end - c.start else 0
    case Added => 3 + if c.start <= c.end then c.end - c.start else 0
    case Selecting(next) => 2 + if next <= c.end then c.end - next else 0
    case Merged => 1
    case Released => 0
  }

  function LeftOfRow(chunks: seq<Chunk>, phase: seq<Phase>): nat
    requires |phase| == |chunks|
  {
    if phase == [] then 0
    else
      var n := |phase| - 1;
      LeftOfRow(chunks[..n], phase[..n]) + LeftOf(phase[n], chunks[n])
  }

  ghost function LeftAll(job: Job, rows: seq<Row>): nat
    requires AllShaped(job, rows)
  {
    if rows == [] then 0
    else LeftAll(job, rows[..|rows| - 1]) + LeftOfRow(job.chunks, rows[|rows| - 1].phase)
  }

  lemma {:induction false} LeftOfRowChanged(chunks: seq<Chunk>, phase: seq<Phase>, i: nat, x: Phase)
    requires i < |phase| == |chunks|
    ensures LeftOfRow(chunks, phase[i := x])
         == LeftOfRow(chunks, phase) - LeftOf(phase[i], chunks[i]) + LeftOf(x, chunks[i])
    decreases |phase|
  {
    var n := |phase| - 1;
    if i < n {
      LeftOfRowChanged(chunks[..n], phase[..n], i, x);
      assert phase[i := x][..n] == phase[..n][i := x];
    } else {
      assert phase[i := x][..n] == phase[..n];
    }
  }

  lemma {:induction false} LeftAllChanged(job: Job, rows: seq<Row>, j: nat, row: Row)
    requires j < |rows| && |row.phase| == |job.chunks| && AllShaped(job, rows)
    ensures LeftAll(job, rows[j := row])
         == LeftAll(job, rows) - LeftOfRow(job.chunks, rows[j].phase) + LeftOfRow(job.chunks, row.phase)
    decreases |rows|
  {
    var n := |rows| - 1;
    if j < n {
      LeftAllChanged(job, rows[..n], j, row);
      assert rows[j := row][..n] == rows[..n][j := row];
    } else {
      assert rows[j := row][..n] == rows[..n];
    }
  }

  /** Every step brings the end of the run closer. */
  lemma StepProgresses(job: Job, st: State, s: Step)
    requires Invariant(job, st) && Enabled(job, st, s)
    ensures Invariant(job, Next(job, st, s)) && AllShaped(job, st.rows) && AllShaped(job, Next(job, st, s).rows)
    ensures LeftAll(job, Next(job, st, s).rows) < LeftAll(job, st.rows)
  {
    StepKeeps(job, st, s);
    assert AllShaped(job, st.rows) by {
      assert forall k :: 0 <= k < |st.rows| ==> RowOk(job, st.rows[k]);
    }
    RowProgresses(job, st.rows[s.j], s);
    LeftAllChanged(job, st.rows, s.j, RowNext(job, st.rows[s.j], s));
  }

  predicate AllShaped(job: Job, rows: seq<Row>) {
    forall k :: 0 <= k < |rows| ==> |rows[k].phase| == |job.chunks|
  }

  lemma RowProgresses(job: Job, row: Row, s: Step)
    requires Shaped(job, row) && RowEnabled(job, row, s)
    ensures LeftOfRow(job.chunks, RowNext(job, row, s).phase) < LeftOfRow(job.chunks, row.phase)
  {
    var row' := RowNext(job, row, s);
    PhaseProgresses(job, row, s);
    assert row'.phase == row.phase[s.i := row'.phase[s.i]];
    LeftOfRowChanged(job.chunks, row.phase, s.i, row'.phase[s.i]);
  }

  lemma PhaseProgresses(job: Job, row: Row, s: Step)
    requires Shaped(job, row) && RowEnabled(job, row, s)
    ensures LeftOf(RowNext(job, row, s).phase[s.i], job.chunks[s.i]) < LeftOf(row.phase[s.i], job.chunks[s.i])
  {
    assert job.chunks[s.i].start <= job.chunks[s.i].end;
  }

  /** So no run takes more steps than its tasks and entries allow. */
  lemma {:induction false} RunsAreBounded(job: Job, st: State, steps: seq<Step>, last: State)
    requires Invariant(job, st) && Run(job, st, steps, last)
    ensures Invariant(job, last) && AllShaped(job, st.rows) && AllShaped(job, last.rows)
    ensures |steps| + LeftAll(job, last.rows) <= LeftAll(job, st.rows)
    decreases |steps|
  {
    assert forall k :: 0 <= k < |st.rows| ==> RowOk(job, st.rows[k]);
    if steps != [] {
      StepProgresses(job, st, steps[0]);
      RunsAreBounded(job, Next(job, st, steps[0]), steps[1..], last);
    }
  }

  /** Until every task has given up its reference, some task can take a step. */
  lemma NeverStuck(job: Job, st: State) returns (s: Step)
    requires Invariant(job, st) && !Finished(job, st)
    ensures Enabled(job, st, s)
  {
    var j: nat :| j < |st.rows| && !AllReleased(st.rows[j]);
    var row := st.rows[j];
    assert RowOk(job, row);
    var i: nat :| i < |row.phase| && !row.phase[i].Released?;
    match row.phase[i]
    case Waiting => s := Add(i, j);
    case Added => s := if row.direct then Direct(i, j) else Start(i, j);
    case Selecting(next) => s := if next < job.chunks[i].end then Examine(i, j) else Merge(i, j);
    case Merged => s := Release(i, j);
  }
}
