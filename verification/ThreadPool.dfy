/** The thread pool as a state machine.  Every section under work_mutex is one step; a condition variable may also
    wake a thread that nobody signalled. */
module ThreadPool {
  import opened Counting

  /** A worker is about to take the mutex, asleep on work_cond, or running a task. */
  datatype Worker<T> = Ready | Asleep | Running(task: T)

  /** A caller of wait_thread_pool: about to look at the pool, blocked on working_cond, or returned. */
  datatype Waiter = Checking | Blocked | Returned

  /** The pool, with the history of the tasks handed in, started and done. */
  datatype Pool<T> = Pool(queue: seq<T>, workers: seq<Worker<T>>, workingCnt: int, waiters: seq<Waiter>,
                          submitted: seq<T>, started: seq<T>, done: seq<T>)

  datatype Step<T> =
    | Add(task: T)              // add_task_thread_pool
    | Look(worker: nat)         // a worker looks at the queue: takes the first task, or falls asleep
    | Finish(worker: nat, signalled: nat)  // a task ends; `signalled` is the waiter woken if working_cond is signalled
    | Wait                      // wait_thread_pool is called
    | Check(waiter: nat)        // a caller looks whether it may return
    | StirWorker(worker: nat)   // a worker wakes unsignalled
    | StirWaiter(waiter: nat)   // a waiter wakes unsignalled

  /** The broadcast on work_cond. */
  function Awake<T>(ws: seq<Worker<T>>): (r: seq<Worker<T>>)
    ensures |r| == |ws| && forall i :: 0 <= i < |ws| ==> r[i] == if ws[i].Asleep? then Ready else ws[i]
  {
    seq(|ws|, i requires 0 <= i < |ws| => if ws[i].Asleep? then Ready else ws[i])
  }

  predicate Signals<T>(p: Pool<T>) {
    p.workingCnt - 1 == 0 && p.queue == []
  }

  predicate Enabled<T>(p: Pool<T>, s: Step<T>) {
    match s
    case Add(_) => true
    case Look(w) => w < |p.workers| && p.workers[w].Ready?
    case Finish(w, k) =>
      && w < |p.workers| && p.workers[w].Running?
      && (Signals(p) && Blocked in p.waiters ==> k < |p.waiters| && p.waiters[k].Blocked?)
    case Wait => true
    case Check(k) => k < |p.waiters| && p.waiters[k].Checking?
    case StirWorker(w) => w < |p.workers| && p.workers[w].Asleep?
    case StirWaiter(k) => k < |p.waiters| && p.waiters[k].Blocked?
  }

  function Next<T>(p: Pool<T>, s: Step<T>): Pool<T>
    requires Enabled(p, s)
  {
    match s
    case Add(t) => p.(queue := p.queue + [t], workers := Awake(p.workers), submitted := p.submitted + [t])
    case Look(w) =>
      if p.queue == [] then p.(workers := p.workers[w := Asleep])
      else p.(queue := p.queue[1..], workers := p.workers[w := Running(p.queue[0])],
              workingCnt := p.workingCnt + 1, started := p.started + [p.queue[0]])
    case Finish(w, k) =>
      p.(workers := p.workers[w := Ready], workingCnt := p.workingCnt - 1, done := p.done + [p.workers[w].task],
         waiters := if Signals(p) && Blocked in p.waiters then p.waiters[k := Checking] else p.waiters)
    case Wait => p.(waiters := p.waiters + [Checking])
    case Check(k) => p.(waiters := p.waiters[k := if p.queue != [] || p.workingCnt != 0 then Blocked else Returned])
    case StirWorker(w) => p.(workers := p.workers[w := Ready])
    case StirWaiter(k) => p.(waiters := p.waiters[k := Checking])
  }

  /** new_thread_pool: 0 threads asked for means 2. */
  function New<T>(num: nat): (p: Pool<T>)
    ensures |p.workers| > 0
  {
    Pool([], seq(if num == 0 then 2 else num, _ => Ready), 0, [], [], [], [])
  }

  predicate NobodyRuns<T>(ws: seq<Worker<T>>) {
    forall w :: 0 <= w < |ws| ==> !ws[w].Running?
  }

  /** How many workers run task t. */
  function Held<T(==)>(ws: seq<Worker<T>>, t: T): nat {
    if ws == [] then 0 else Held(ws[..|ws| - 1], t) + One(ws[|ws| - 1] == Running(t))
  }

  /** How many workers run a task. */
  function Runners<T>(ws: seq<Worker<T>>): nat {
    if ws == [] then 0 else Runners(ws[..|ws| - 1]) + One(ws[|ws| - 1].Running?)
  }

  lemma {:induction false} WorkerChanged<T>(ws: seq<Worker<T>>, w: nat, x: Worker<T>)
    requires w < |ws|
    ensures Runners(ws[w := x]) == Runners(ws) - One(ws[w].Running?) + One(x.Running?)
    ensures forall t :: Held(ws[w := x], t) == Held(ws, t) - One(ws[w] == Running(t)) + One(x == Running(t))
    decreases |ws|
  {
    var n := |ws| - 1;
    if w < n {
      WorkerChanged(ws[..n], w, x);
      assert ws[w := x][..n] == ws[..n][w := x];
    } else {
      assert ws[w := x][..n] == ws[..n];
    }
  }

  lemma {:induction false} AwakeRunSame<T>(ws: seq<Worker<T>>)
    ensures Runners(Awake(ws)) == Runners(ws)
    ensures forall t :: Held(Awake(ws), t) == Held(ws, t)
    decreases |ws|
  {
    if ws != [] {
      AwakeRunSame(ws[..|ws| - 1]);
      assert Awake(ws)[..|ws| - 1] == Awake(ws[..|ws| - 1]);
    }
  }

  lemma {:induction false} NoRunners<T>(ws: seq<Worker<T>>)
    ensures Runners(ws) == 0 <==> NobodyRuns(ws)
    ensures Runners(ws) == 0 ==> forall t :: Held(ws, t) == 0
    decreases |ws|
  {
    if ws != [] {
      var rest := ws[..|ws| - 1];
      NoRunners(rest);
      assert NobodyRuns(ws) ==> NobodyRuns(rest);
      assert forall w :: 0 <= w < |rest| ==> ws[w] == rest[w];
    }
  }

  /** What every state of every run satisfies: tasks start first in, first out; the tasks started are the tasks done
      and the tasks running; workingCnt counts the running ones; nobody sleeps while the queue has work. */
  ghost predicate Invariant<T(!new)>(p: Pool<T>) {
    && |p.workers| > 0
    && p.submitted == p.started + p.queue
    && (forall t :: Times(p.started, t) == Times(p.done, t) + Held(p.workers, t))
    && |p.started| == |p.done| + p.workingCnt
    && p.workingCnt == Runners(p.workers)
    && (p.queue != [] ==> forall w :: 0 <= w < |p.workers| ==> !p.workers[w].Asleep?)
  }

  lemma NewIsInvariant<T(!new)>(num: nat)
    ensures Invariant(New<T>(num)) && Quiescent(New<T>(num)) && New<T>(num).waiters == []
    ensures |New<T>(num).workers| == if num == 0 then 2 else num
  {
    NoRunners(New<T>(num).workers);
  }

  lemma LookKeeps<T(!new)>(p: Pool<T>, w: nat)
    requires Invariant(p) && Enabled(p, Look(w))
    ensures Invariant(Next(p, Look(w)))
  {
    var p' := Next(p, Look(w));
    WorkerChanged(p.workers, w, p'.workers[w]);
    if p.queue != [] {
      assert p.queue == [p.queue[0]] + p.queue[1..];
      TimesPush(p.started, p.queue[0]);
    }
  }

  lemma StepKeeps<T(!new)>(p: Pool<T>, s: Step<T>)
    requires Invariant(p) && Enabled(p, s)
    ensures Invariant(Next(p, s))
  {
    var p' := Next(p, s);
    match s
    case Add(t) =>
      AwakeRunSame(p.workers);
    case Look(w) =>
      LookKeeps(p, w);
    case Finish(w, k) =>
      WorkerChanged(p.workers, w, Ready);
      TimesPush(p.done, p.workers[w].task);
    case Wait =>
    case Check(k) =>
    case StirWorker(w) =>
      WorkerChanged(p.workers, w, Ready);
    case StirWaiter(k) =>
  }

  /** Everything handed in is queued, running or done, in numbers and task by task. */
  lemma Conservation<T(!new)>(p: Pool<T>)
    requires Invariant(p)
    ensures |p.submitted| == |p.queue| + p.workingCnt + |p.done|
    ensures forall t :: Times(p.submitted, t) == Times(p.queue, t) + Held(p.workers, t) + Times(p.done, t)
  {
    forall t
      ensures Times(p.submitted, t) == Times(p.queue, t) + Held(p.workers, t) + Times(p.done, t)
    {
      TimesSplit(p.started, p.queue, t);
    }
  }

  /** wait_thread_pool returns only when every task handed in is done. */
  lemma ReturnsOnlyWhenDone<T(!new)>(p: Pool<T>, k: nat)
    requires Invariant(p) && Enabled(p, Check(k)) && Next(p, Check(k)).waiters[k].Returned?
    ensures |p.done| == |p.submitted| && forall t :: Times(p.done, t) == Times(p.submitted, t)
    ensures Quiescent(p)
  {
    NoRunners(p.workers);
    assert p.submitted == p.started;
  }

  /** Nothing is queued and nothing runs. */
  predicate Quiescent<T>(p: Pool<T>) {
    p.queue == [] && NobodyRuns(p.workers)
  }

  /** A look lets its caller return exactly when nothing is queued and nothing runs, and blocks it otherwise. */
  lemma CheckReturnsExactly<T(!new)>(p: Pool<T>, k: nat)
    requires Invariant(p) && Enabled(p, Check(k))
    ensures Next(p, Check(k)).waiters[k] == if Quiescent(p) then Returned else Blocked
    ensures Next(p, Check(k)) == p.(waiters := p.waiters[k := Next(p, Check(k)).waiters[k]])
  {
    NoRunners(p.workers);
  }

  /** How far the pool is from having done everything: two steps for a queued task, one for a running one. */
  function Work<T>(p: Pool<T>): nat {
    2 * |p.queue| + Runners(p.workers)
  }

  /** Taking a task and finishing one come closer to the end; only handing in a task leads away from it. */
  lemma WorkShrinks<T(!new)>(p: Pool<T>, s: Step<T>)
    requires Invariant(p) && Enabled(p, s)
    ensures Work(Next(p, s)) == match s
      case Add(_) => Work(p) + 2
      case Look(_) => if p.queue == [] then Work(p) else Work(p) - 1
      case Finish(_, _) => Work(p) - 1
      case _ => Work(p)
    ensures Work(p) == 0 <==> Quiescent(p)
  {
    NoRunners(p.workers);
    match s
    case Add(_) =>
      AwakeRunSame(p.workers);
    case Look(w) =>
      WorkerChanged(p.workers, w, Next(p, s).workers[w]);
    case Finish(w, _) =>
      WorkerChanged(p.workers, w, Ready);
    case StirWorker(w) =>
      WorkerChanged(p.workers, w, Ready);
    case _ =>
  }

  /** While there is work, some worker can take a step without being woken. */
  lemma WorkersNeverStuck<T(!new)>(p: Pool<T>) returns (s: Step<T>)
    requires Invariant(p) && !Quiescent(p)
    ensures Enabled(p, s) && ((s.Look? && p.queue != []) || s.Finish?)
  {
    if w: nat :| w < |p.workers| && p.workers[w].Running? {
      var k: nat := 0;
      if Blocked in p.waiters {
        var b: nat :| b < |p.waiters| && p.waiters[b] == Blocked;
        k := b;
      }
      s := Finish(w, k);
    } else {
      s := Look(0);
    }
  }

  // ----- callers that wait -----

  /** A waiter is blocked only while something is queued or running. */
  ghost predicate WaiterServed<T>(p: Pool<T>) {
    Blocked in p.waiters ==> p.queue != [] || p.workingCnt != 0
  }

  /** How many callers of wait_thread_pool have not returned. */
  function Waiting(waiters: seq<Waiter>): nat {
    if waiters == [] then 0 else Waiting(waiters[..|waiters| - 1]) + One(!waiters[|waiters| - 1].Returned?)
  }

  /** At most one caller waits. */
  predicate OneWaiter(waiters: seq<Waiter>) {
    forall i, j :: 0 <= i < j < |waiters| ==> waiters[i].Returned? || waiters[j].Returned?
  }

  lemma {:induction false} NobodyWaits(waiters: seq<Waiter>)
    requires Waiting(waiters) == 0
    ensures forall i :: 0 <= i < |waiters| ==> waiters[i].Returned?
  {
    if waiters != [] {
      NobodyWaits(waiters[..|waiters| - 1]);
    }
  }

  lemma {:induction false} OneWaits(waiters: seq<Waiter>)
    requires Waiting(waiters) <= 1
    ensures OneWaiter(waiters)
  {
    if waiters != [] {
      var n := |waiters| - 1;
      OneWaits(waiters[..n]);
      if !waiters[n].Returned? {
        NobodyWaits(waiters[..n]);
      }
    }
  }

  /** With one caller waiting, the signal of the last task does not miss it. */
  lemma OneWaiterIsServed<T(!new)>(p: Pool<T>, s: Step<T>)
    requires Invariant(p) && Enabled(p, s) && OneWaiter(p.waiters) && WaiterServed(p)
    ensures WaiterServed(Next(p, s))
  {
    var p' := Next(p, s);
    if Blocked in p'.waiters {
      var b :| 0 <= b < |p'.waiters| && p'.waiters[b] == Blocked;
      match s
      case Look(w) =>
        WorkerChanged(p.workers, w, p'.workers[w]);
        assert p.waiters[b] == Blocked;
      case Finish(w, k) =>
        assert p.waiters[b] == Blocked;
      case StirWaiter(k) =>
        assert p.waiters[b] == Blocked;
      case _ =>
    }
  }

  ghost predicate Run<T>(p: Pool<T>, steps: seq<Step<T>>, last: Pool<T>)
    decreases |steps|
  {
    if steps == [] then last == p else Enabled(p, steps[0]) && Run(Next(p, steps[0]), steps[1..], last)
  }

  /** Every run of the pool satisfies the invariant throughout. */
  lemma {:induction false} RunKeeps<T(!new)>(p: Pool<T>, steps: seq<Step<T>>, last: Pool<T>)
    requires Invariant(p) && Run(p, steps, last)
    ensures Invariant(last)
    decreases |steps|
  {
    if steps != [] {
      StepKeeps(p, steps[0]);
      RunKeeps(Next(p, steps[0]), steps[1..], last);
    }
  }

  /** A run in which at most k callers wait at any time. */
  ghost predicate BoundedRun<T>(p: Pool<T>, steps: seq<Step<T>>, last: Pool<T>, k: nat)
    decreases |steps|
  {
    && Waiting(p.waiters) <= k
    && if steps == [] then last == p else Enabled(p, steps[0]) && BoundedRun(Next(p, steps[0]), steps[1..], last, k)
  }

  /** With at most one caller waiting at any time no caller is blocked when all work is done. */
  lemma {:induction false} SoloRunLeavesNobodyBlocked<T(!new)>(p: Pool<T>, steps: seq<Step<T>>, last: Pool<T>)
    requires Invariant(p) && WaiterServed(p) && BoundedRun(p, steps, last, 1)
    ensures Invariant(last)
    ensures Quiescent(last) ==> Blocked !in last.waiters
    decreases |steps|
  {
    if steps != [] {
      StepKeeps(p, steps[0]);
      OneWaits(p.waiters);
      OneWaiterIsServed(p, steps[0]);
      SoloRunLeavesNobodyBlocked(Next(p, steps[0]), steps[1..], last);
    } else if Quiescent(last) {
      NoRunners(last.workers);
    }
  }

  /** A caller that waits alone returns with its next look once everything is done. */
  lemma AloneReturns<T(!new)>(num: nat, steps: seq<Step<T>>, last: Pool<T>, k: nat)
    requires BoundedRun(New(num), steps, last, 1) && Quiescent(last)
    requires k < |last.waiters| && last.waiters[k] != Returned
    ensures Enabled(last, Check(k)) && Next(last, Check(k)).waiters[k] == Returned
  {
    NewIsInvariant<T>(num);
    SoloRunLeavesNobodyBlocked(New(num), steps, last);
    assert last.waiters[k] in last.waiters;
    CheckReturnsExactly(last, k);
  }

  /** The workers alone can always bring the pool to have done everything, in as many steps as there is work. */
  lemma {:induction false} Drains<T(!new)>(p: Pool<T>) returns (steps: seq<Step<T>>, last: Pool<T>)
    requires Invariant(p)
    ensures Run(p, steps, last) && Quiescent(last) && |steps| == Work(p)
    ensures forall i :: 0 <= i < |steps| ==> steps[i].Look? || steps[i].Finish?
    decreases Work(p)
  {
    NoRunners(p.workers);
    if Quiescent(p) {
      steps, last := [], p;
    } else {
      var s := WorkersNeverStuck(p);
      StepKeeps(p, s);
      WorkShrinks(p, s);
      var rest;
      rest, last := Drains(Next(p, s));
      steps := [s] + rest;
      assert steps[1..] == rest;
    }
  }

  lemma {:induction false} FewerWaiting<T>(p: Pool<T>, steps: seq<Step<T>>, last: Pool<T>, k: nat, m: nat)
    requires BoundedRun(p, steps, last, k) && k <= m
    ensures BoundedRun(p, steps, last, m)
    decreases |steps|
  {
    if steps != [] {
      FewerWaiting(Next(p, steps[0]), steps[1..], last, k, m);
    }
  }

  /** Whatever a pool of this size does with at most k callers waiting at once, nobody is left blocked when all work is
      done. */
  ghost predicate NeverLeavesBlocked<T(!new)>(num: nat, k: nat) {
    forall steps: seq<Step<T>>, last: Pool<T> ::
      BoundedRun(New(num), steps, last, k) && Quiescent(last) ==> Blocked !in last.waiters
  }

  /** For every number of threads, this holds exactly when at most one caller waits at a time. */
  lemma BlockedExactlyBeyondOne<T(!new)>(num: nat, k: nat, t: T)
    ensures NeverLeavesBlocked<T>(num, k) <==> k <= 1
  {
    if k <= 1 {
      forall steps: seq<Step<T>>, last: Pool<T> | BoundedRun(New(num), steps, last, k) && Quiescent(last)
        ensures Blocked !in last.waiters
      {
        NewIsInvariant<T>(num);
        FewerWaiting(New(num), steps, last, k, 1);
        SoloRunLeavesNobodyBlocked(New(num), steps, last);
      }
    } else {
      var steps, last := TwoWaitersCanBlock(num, t);
      FewerWaiting(New(num), steps, last, 2, k);
    }
  }

  /** Two callers at once: the single signal can leave the second blocked after all work is done, however many threads
      there are. */
  lemma TwoWaitersCanBlock<T(!new)>(num: nat, t: T) returns (steps: seq<Step<T>>, last: Pool<T>)
    ensures BoundedRun(New(num), steps, last, 2)
    ensures Quiescent(last) && Blocked in last.waiters
  {
    var p0: Pool<T> := New(num);
    var p1 := Next(p0, Add(t));
    var p2 := Next(p1, Look(0));
    var p3 := Next(p2, Wait);
    var p4 := Next(p3, Wait);
    assert p3.waiters == [Checking];
    assert p4.waiters == [Checking, Checking];
    var s4;
    s4, last := OneSignalForTwo(p4, t);
    var s3 := [Wait] + s4;
    RunStep(p3, Wait, s4, last);
    var s2 := [Wait] + s3;
    RunStep(p2, Wait, s3, last);
    var s1 := [Look(0)] + s2;
    RunStep(p1, Look(0), s2, last);
    steps := [Add(t)] + s1;
    RunStep(p0, Add(t), s1, last);
  }

  /** Two callers look while the last task runs, and block; its end wakes the first. */
  lemma OneSignalForTwo<T(!new)>(p: Pool<T>, t: T) returns (steps: seq<Step<T>>, last: Pool<T>)
    requires p.waiters == [Checking, Checking] && p.queue == [] && p.workingCnt == 1
    requires p.workers != [] && p.workers[0] == Running(t) && NobodyRuns(p.workers[1..])
    ensures BoundedRun(p, steps, last, 2)
    ensures Quiescent(last) && Blocked in last.waiters
  {
    var p1 := Next(p, Check(0));
    var p2 := Next(p1, Check(1));
    assert p1.waiters == [Blocked, Checking];
    assert p2.waiters == [Blocked, Blocked] && p2.waiters[0] == Blocked;
    last := Next(p2, Finish(0, 0));
    assert last.waiters == [Checking, Blocked] && last.waiters[1] == Blocked;
    assert last.workers[1..] == p.workers[1..];
    assert forall w :: 0 < w < |last.workers| ==> last.workers[w] == last.workers[1..][w - 1];
    WaitersAtMost(last.waiters);
    var s2 := [Finish(0, 0)];
    RunStep(p2, Finish(0, 0), [], last);
    var s1 := [Check(1)] + s2;
    RunStep(p1, Check(1), s2, last);
    steps := [Check(0)] + s1;
    RunStep(p, Check(0), s1, last);
  }

  lemma {:induction false} WaitersAtMost(waiters: seq<Waiter>)
    ensures Waiting(waiters) <= |waiters|
  {
    if waiters != [] {
      WaitersAtMost(waiters[..|waiters| - 1]);
    }
  }

  lemma RunStep<T>(p: Pool<T>, s: Step<T>, rest: seq<Step<T>>, last: Pool<T>)
    requires |p.waiters| <= 2 && Enabled(p, s) && BoundedRun(Next(p, s), rest, last, 2)
    ensures BoundedRun(p, [s] + rest, last, 2)
  {
    WaitersAtMost(p.waiters);
    assert ([s] + rest)[1..] == rest;
  }
}
