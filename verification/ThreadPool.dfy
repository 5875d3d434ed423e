/**
 The thread pool as interleaved steps. A step is one critical section of the
 tasks mutex, one call on the condition variable, the end of a task, or one join
 of the destructor.
 */
module ThreadPool {
  import opened Options

  /** A worker: about to look at the queue, asleep in the wait, running the i-th task started, or returned. */
  datatype Worker = Ready | Asleep | Running(i: nat) | Exited

  /** The destructor: not called, before notify_all, joining the k-th thread, or returned. */
  datatype Closer = Open | Stopped | Joining(k: nat) | Closed

  /**
   `owed` counts the calls of notify_one that submitters still have to make.
   The tasks accepted, those started and the positions of those finished are history.
   */
  datatype Pool<T> = Pool(queue: seq<T>, stop: bool, workers: seq<Worker>, owed: nat, closer: Closer,
                          accepted: seq<T>, started: seq<T>, finished: set<nat>)

  datatype Action<T> =
    | Submit(task: T)
    | NotifyOne(w: nat)
    | NotifyNobody
    | WakeUp(w: nat)
    | Enter(w: nat)
    | Finish(w: nat)
    | SetStop
    | NotifyAll
    | Join

  function Initial<T>(size: nat): Pool<T> {
    Pool([], false, seq(size, _ => Ready), 0, Open, [], [], {})
  }

  predicate Is<T>(s: Pool<T>, w: nat, worker: Worker) {
    w < |s.workers| && s.workers[w] == worker
  }

  /** All sleeping workers wake. */
  function WokenAll(workers: seq<Worker>): (r: seq<Worker>)
    ensures |r| == |workers|
    ensures forall w :: 0 <= w < |r| ==> r[w] == if workers[w] == Asleep then Ready else workers[w]
  {
    seq(|workers|, w requires 0 <= w < |workers| => if workers[w] == Asleep then Ready else workers[w])
  }

  /** A worker's critical section: wait, return, or take the first task. */
  function Entered<T>(s: Pool<T>, w: nat): Pool<T>
    requires Is(s, w, Ready)
  {
    if !s.stop && s.queue == [] then s.(workers := s.workers[w := Asleep])
    else if s.stop && s.queue == [] then s.(workers := s.workers[w := Exited])
    else s.(queue := s.queue[1..], workers := s.workers[w := Running(|s.started|)], started := s.started + [s.queue[0]])
  }

  /**
   What a step leads to; nothing when it is not enabled. A submission to a stopped
   pool throws and changes nothing.
   */
  function Next<T>(s: Pool<T>, a: Action<T>): Option<Pool<T>> {
    match a
    case Submit(task) =>
      if s.stop then Some(s)
      else Some(s.(queue := s.queue + [task], accepted := s.accepted + [task], owed := s.owed + 1))
    case NotifyOne(w) =>
      if s.owed > 0 && Is(s, w, Asleep) then Some(s.(owed := s.owed - 1, workers := s.workers[w := Ready])) else None
    case NotifyNobody =>
      if s.owed > 0 && Asleep !in s.workers then Some(s.(owed := s.owed - 1)) else None
    case WakeUp(w) =>
      if Is(s, w, Asleep) then Some(s.(workers := s.workers[w := Ready])) else None
    case Enter(w) =>
      if Is(s, w, Ready) then Some(Entered(s, w)) else None
    case Finish(w) =>
      if w < |s.workers| && s.workers[w].Running?
      then Some(s.(workers := s.workers[w := Ready], finished := s.finished + {s.workers[w].i})) else None
    case SetStop =>
      if s.closer == Open then Some(s.(stop := true, closer := Stopped)) else None
    case NotifyAll =>
      if s.closer == Stopped then Some(s.(workers := WokenAll(s.workers), closer := Joining(0))) else None
    case Join =>
      if !s.closer.Joining? then None
      else if s.closer.k >= |s.workers| then Some(s.(closer := Closed))
      else if s.workers[s.closer.k] == Exited then Some(s.(closer := Joining(s.closer.k + 1)))
      else None
  }

  /** The state after a run, if every step of it was enabled. */
  function Run<T>(s: Pool<T>, run: seq<Action<T>>): Option<Pool<T>>
    decreases |run|
  {
    if run == [] then Some(s)
    else
      match Next(s, run[0])
      case None => None
      case Some(next) => Run(next, run[1..])
  }

  // ---------------------------------------------------------------- counting workers

  function Total(f: Worker -> nat, workers: seq<Worker>): nat
    decreases |workers|
  {
    if workers == [] then 0 else f(workers[0]) + Total(f, workers[1..])
  }

  lemma {:induction false} TotalUpdate(f: Worker -> nat, workers: seq<Worker>, w: nat, x: Worker)
    requires w < |workers|
    ensures Total(f, workers[w := x]) + f(workers[w]) == Total(f, workers) + f(x)
    decreases |workers|
  {
    if w == 0 {
      assert workers[w := x][1..] == workers[1..];
    } else {
      TotalUpdate(f, workers[1..], w - 1, x);
      assert workers[w := x][1..] == workers[1..][w - 1 := x];
    }
  }

  const ReadyOnes: Worker -> nat := (w: Worker) => if w == Ready then 1 else 0
  const RunningOnes: Worker -> nat := (w: Worker) => if w.Running? then 1 else 0
  const Rank: Worker -> nat := (w: Worker) => match w case Exited => 0 case Ready => 1 case _ => 2

  // ---------------------------------------------------------------- what every step keeps

  /** Accepted tasks are those started, in order, and those queued; the started ones are finished or running, once. */
  ghost predicate Conserved<T>(s: Pool<T>) {
    && s.accepted == s.started + s.queue
    && (forall i :: i in s.finished ==> i < |s.started|)
    && (forall w :: 0 <= w < |s.workers| && s.workers[w].Running? ==>
          s.workers[w].i < |s.started| && s.workers[w].i !in s.finished)
    && (forall v, w :: 0 <= v < w < |s.workers| && s.workers[v].Running? ==> s.workers[v] != s.workers[w])
    && (forall i: nat :: i < |s.started| && i !in s.finished ==> Running(i) in s.workers)
    && |s.started| == |s.finished| + Total(RunningOnes, s.workers)
    && (|s.workers| == 0 ==> s.started == [])
  }

  /** While a worker sleeps, every queued task has a notification or a worker on its way. */
  ghost predicate Covered<T>(s: Pool<T>) {
    Asleep in s.workers ==> |s.queue| <= s.owed + Total(ReadyOnes, s.workers)
  }

  ghost predicate Closing<T>(s: Pool<T>) {
    && (s.stop <==> s.closer != Open)
    && (s.closer.Joining? || s.closer == Closed ==> Asleep !in s.workers)
    && (Exited in s.workers ==> s.stop && s.queue == [])
    && (s.closer.Joining? ==> s.closer.k <= |s.workers| && forall j :: 0 <= j < s.closer.k ==> s.workers[j] == Exited)
    && (s.closer == Closed ==> forall j :: 0 <= j < |s.workers| ==> s.workers[j] == Exited)
  }

  lemma {:induction false} SubmitConserves<T>(s: Pool<T>, task: T)
    requires Conserved(s)
    ensures Conserved(Next(s, Submit(task)).value)
  {
    assert s.started + s.queue + [task] == s.started + (s.queue + [task]);
  }

  /** A step that starts and ends no task. */
  lemma {:induction false} SameRunning<T>(s: Pool<T>, next: Pool<T>)
    requires Conserved(s) && |next.workers| == |s.workers|
    requires next.queue == s.queue && next.accepted == s.accepted
    requires next.started == s.started && next.finished == s.finished
    requires Total(RunningOnes, next.workers) == Total(RunningOnes, s.workers)
    requires forall w :: 0 <= w < |s.workers| ==>
      next.workers[w] == s.workers[w] || (!next.workers[w].Running? && !s.workers[w].Running?)
    ensures Conserved(next)
  {
    forall i: nat | i < |s.started| && i !in s.finished
      ensures Running(i) in next.workers
    {
      var w :| 0 <= w < |s.workers| && s.workers[w] == Running(i);
      assert next.workers[w] == Running(i);
    }
  }

  lemma {:induction false} TotalWoken(workers: seq<Worker>)
    ensures Total(RunningOnes, WokenAll(workers)) == Total(RunningOnes, workers)
    ensures Total(Rank, WokenAll(workers)) <= Total(Rank, workers)
    decreases |workers|
  {
    if workers != [] {
      assert WokenAll(workers)[1..] == WokenAll(workers[1..]);
      TotalWoken(workers[1..]);
    }
  }

  lemma {:induction false} WakingConserves<T>(s: Pool<T>, w: nat, next: Pool<T>)
    requires Conserved(s) && Is(s, w, Asleep)
    requires next == s.(owed := next.owed, workers := s.workers[w := Ready])
    ensures Conserved(next)
  {
    TotalUpdate(RunningOnes, s.workers, w, Ready);
    SameRunning(s, next);
  }

  lemma {:induction false} WakingAllConserves<T>(s: Pool<T>, next: Pool<T>)
    requires Conserved(s) && next == s.(closer := next.closer, workers := WokenAll(s.workers))
    ensures Conserved(next)
  {
    TotalWoken(s.workers);
    SameRunning(s, next);
  }

  lemma {:induction false} EnterConserves<T>(s: Pool<T>, w: nat)
    requires Conserved(s) && Is(s, w, Ready)
    ensures Conserved(Entered(s, w))
  {
    var next := Entered(s, w);
    TotalUpdate(RunningOnes, s.workers, w, next.workers[w]);
    if s.queue == [] {
      SameRunning(s, next);
    } else {
      StartConserves(s, w);
    }
  }

  lemma {:induction false} StartConserves<T>(s: Pool<T>, w: nat)
    requires Conserved(s) && Is(s, w, Ready) && s.queue != []
    requires Total(RunningOnes, Entered(s, w).workers) == Total(RunningOnes, s.workers) + 1
    ensures Conserved(Entered(s, w))
  {
    var next := Entered(s, w);
    assert s.started + s.queue == next.started + next.queue;
    forall i: nat | i < |next.started| && i !in next.finished
      ensures Running(i) in next.workers
    {
      if i == |s.started| {
        assert next.workers[w] == Running(i);
      } else {
        var v :| 0 <= v < |s.workers| && s.workers[v] == Running(i);
        assert next.workers[v] == Running(i);
      }
    }
  }

  lemma {:induction false} FinishConserves<T>(s: Pool<T>, w: nat)
    requires Conserved(s) && w < |s.workers| && s.workers[w].Running?
    ensures Conserved(s.(workers := s.workers[w := Ready], finished := s.finished + {s.workers[w].i}))
  {
    var next := s.(workers := s.workers[w := Ready], finished := s.finished + {s.workers[w].i});
    TotalUpdate(RunningOnes, s.workers, w, Ready);
    forall i: nat | i < |next.started| && i !in next.finished
      ensures Running(i) in next.workers
    {
      var v :| 0 <= v < |s.workers| && s.workers[v] == Running(i);
      assert v != w;
      assert next.workers[v] == Running(i);
    }
  }

  lemma {:induction false} StepConserves<T>(s: Pool<T>, a: Action<T>, next: Pool<T>)
    requires Conserved(s) && Next(s, a) == Some(next)
    ensures Conserved(next)
  {
    match a
    case Enter(w) => EnterConserves(s, w);
    case Finish(w) => FinishConserves(s, w);
    case NotifyOne(w) => WakingConserves(s, w, next);
    case WakeUp(w) => WakingConserves(s, w, next);
    case NotifyAll => WakingAllConserves(s, next);
    case Submit(task) => SubmitConserves(s, task);
    case _ => SameRunning(s, next);
  }

  lemma {:induction false} StepCovers<T>(s: Pool<T>, a: Action<T>, next: Pool<T>)
    requires Covered(s) && Next(s, a) == Some(next)
    ensures Covered(next)
  {
    if a.NotifyOne? || a.WakeUp? || a.Enter? || a.Finish? {
      TotalUpdate(ReadyOnes, s.workers, a.w, next.workers[a.w]);
      if Asleep in next.workers {
        var v :| 0 <= v < |next.workers| && next.workers[v] == Asleep;
        assert v != a.w ==> s.workers[v] == Asleep;
      }
    }
  }

  lemma {:induction false} StepCloses<T>(s: Pool<T>, a: Action<T>, next: Pool<T>)
    requires Closing(s) && Next(s, a) == Some(next)
    ensures Closing(next)
  {
  }

  /** What holds of every reachable state. */
  ghost predicate Inv<T>(s: Pool<T>) {
    Conserved(s) && Covered(s) && Closing(s)
  }

  ghost predicate Reachable<T(!new)>(s: Pool<T>) {
    exists size, run :: Run(Initial<T>(size), run) == Some(s)
  }

  lemma {:induction false} TotalOfReady(f: Worker -> nat, size: nat)
    requires f(Ready) == 0
    ensures Total(f, seq(size, _ => Ready)) == 0
  {
    if size > 0 {
      assert seq(size, _ => Ready)[1..] == seq(size - 1, _ => Ready);
      TotalOfReady(f, size - 1);
    }
  }

  lemma {:induction false} StepKeepsInv<T>(s: Pool<T>, a: Action<T>, next: Pool<T>)
    requires Inv(s) && Next(s, a) == Some(next)
    ensures Inv(next) && |next.workers| == |s.workers|
  {
    StepConserves(s, a, next);
    StepCovers(s, a, next);
    StepCloses(s, a, next);
  }

  lemma {:induction false} RunKeepsInv<T>(s: Pool<T>, run: seq<Action<T>>)
    requires Inv(s) && Run(s, run).Some?
    ensures Inv(Run(s, run).value) && |Run(s, run).value.workers| == |s.workers|
    decreases |run|
  {
    if run != [] {
      var next := Next(s, run[0]).value;
      StepKeepsInv(s, run[0], next);
      RunKeepsInv(next, run[1..]);
    }
  }

  lemma {:induction false} ReachableKeepsInv<T(!new)>(s: Pool<T>)
    requires Reachable(s)
    ensures Inv(s)
  {
    var size, run :| Run(Initial<T>(size), run) == Some(s);
    TotalOfReady(RunningOnes, size);
    RunKeepsInv(Initial<T>(size), run);
  }

  // ---------------------------------------------------------------- the main results

  /**
   In every reachable state the tasks were started in the order of acceptance,
   each accepted task is finished, running on exactly one worker, or queued, and
   the numbers add up.
   */
  lemma {:induction false} TasksAreConserved<T(!new)>(s: Pool<T>)
    requires Reachable(s)
    ensures s.accepted == s.started + s.queue
    ensures |s.accepted| == |s.finished| + Total(RunningOnes, s.workers) + |s.queue|
    ensures forall i: nat :: i < |s.started| ==> (i in s.finished <==> Running(i) !in s.workers)
    ensures forall v, w :: 0 <= v < w < |s.workers| && s.workers[v].Running? ==> s.workers[v] != s.workers[w]
  {
    ReachableKeepsInv(s);
  }

  /** No wakeup is lost: with a task queued or the pool stopping, no sleep is left that nothing will end. */
  lemma {:induction false} NoLostWakeup<T(!new)>(s: Pool<T>)
    requires Reachable(s) && Asleep in s.workers
    ensures s.queue != [] ==> s.owed > 0 || Ready in s.workers
    ensures |s.queue| <= s.owed + Total(ReadyOnes, s.workers)
    ensures s.stop ==> s.closer == Stopped
  {
    ReachableKeepsInv(s);
    if Ready !in s.workers {
      NoReady(s.workers);
    }
  }

  lemma {:induction false} NoReady(workers: seq<Worker>)
    requires Ready !in workers
    ensures Total(ReadyOnes, workers) == 0
    decreases |workers|
  {
    if workers != [] {
      NoReady(workers[1..]);
    }
  }

  /** What is left to do after `stop_`. */
  function Measure<T>(s: Pool<T>): nat {
    3 * |s.queue| + Total(Rank, s.workers) + s.owed +
    match s.closer
    case Open => |s.workers| + 3
    case Stopped => |s.workers| + 2
    case Joining(k) => if k <= |s.workers| then |s.workers| + 1 - k else 0
    case Closed => 0
  }

  lemma {:induction false} WorkerAdvances<T>(s: Pool<T>, a: Action<T>, next: Pool<T>)
    requires s.stop && (a.NotifyOne? || a.WakeUp? || a.Enter? || a.Finish?) && Next(s, a) == Some(next)
    ensures next.stop && Measure(next) < Measure(s)
  {
    TotalUpdate(Rank, s.workers, a.w, next.workers[a.w]);
  }

  /** In a stopping pool every step that changes anything comes closer to the end. */
  lemma {:induction false} StoppingAdvances<T>(s: Pool<T>, a: Action<T>, next: Pool<T>)
    requires Inv(s) && s.stop && Next(s, a) == Some(next)
    ensures next.stop && (if a.Submit? then next == s else Measure(next) < Measure(s))
  {
    if a.NotifyOne? || a.WakeUp? || a.Enter? || a.Finish? {
      WorkerAdvances(s, a, next);
    } else if a.NotifyAll? {
      TotalWoken(s.workers);
    }
  }

  /** In a stopping pool that has not closed some step other than a submission is enabled. */
  lemma {:induction false} StoppingGoesOn<T>(s: Pool<T>) returns (a: Action<T>)
    requires Inv(s) && s.stop && s.closer != Closed
    ensures !a.Submit? && Next(s, a).Some?
  {
    if s.closer == Stopped {
      return NotifyAll;
    }
    var k := s.closer.k;
    if k >= |s.workers| || s.workers[k] == Exited {
      return Join;
    }
    match s.workers[k]
    case Ready => return Enter(k);
    case Running(_) => return Finish(k);
  }

  /** Every run of a stopping pool is finite but for refused submissions, and can be continued until it closes. */
  lemma {:induction false} StoppingRunIsBounded<T>(s: Pool<T>, run: seq<Action<T>>)
    requires Inv(s) && s.stop && Run(s, run).Some?
    requires forall i :: 0 <= i < |run| ==> !run[i].Submit?
    ensures |run| + Measure(Run(s, run).value) <= Measure(s)
    decreases |run|
  {
    if run != [] {
      var next := Next(s, run[0]).value;
      StoppingAdvances(s, run[0], next);
      StepKeepsInv(s, run[0], next);
      StoppingRunIsBounded(next, run[1..]);
    }
  }

  lemma {:induction false} StoppingCloses<T>(s: Pool<T>) returns (run: seq<Action<T>>)
    requires Inv(s) && s.stop
    ensures Run(s, run).Some? && Run(s, run).value.closer == Closed
    decreases Measure(s)
  {
    if s.closer == Closed {
      return [];
    }
    var a := StoppingGoesOn(s);
    var next := Next(s, a).value;
    StoppingAdvances(s, a, next);
    StepKeepsInv(s, a, next);
    run := StoppingCloses(next);
    run := [a] + run;
  }

  ghost predicate AllRan<T>(s: Pool<T>) {
    forall i: nat :: i < |s.accepted| ==> i in s.finished
  }

  /** When the destructor returns, every accepted task has run, exactly if there was a worker or nothing to run. */
  lemma {:induction false} ClosedMeansDone<T(!new)>(s: Pool<T>)
    requires Reachable(s) && s.closer == Closed
    ensures AllRan(s) <==> |s.workers| > 0 || s.accepted == []
    ensures AllRan(s) ==> s.queue == []
  {
    ReachableKeepsInv(s);
    if |s.workers| > 0 {
      assert s.workers[0] == Exited;
      assert s.queue == [];
      forall i: nat | i < |s.started|
        ensures i in s.finished
      {
        assert Running(i) !in s.workers;
      }
    } else {
      assert s.accepted != [] ==> 0 !in s.finished;
    }
  }

  /** A pool without workers closes with a task that never ran. */
  lemma {:induction false} NoWorkersNothingRuns<T(!new)>(task: T)
    ensures var run := [Submit(task), SetStop, NotifyAll, Join];
      var s := Run(Initial<T>(0), run);
      s.Some? && Reachable(s.value) && s.value.closer == Closed && !AllRan(s.value)
  {
    var s0 := Initial<T>(0);
    var s1 := Next(s0, Submit(task)).value;
    var s2 := Next(s1, SetStop).value;
    var s3 := Next(s2, NotifyAll).value;
    var s4 := Next(s3, Join).value;
    var run := [Submit(task), SetStop, NotifyAll, Join];
    assert run[1..] == [SetStop, NotifyAll, Join] && run[1..][1..] == [NotifyAll, Join];
    assert [NotifyAll, Join][1..] == [Action<T>.Join] && [Action<T>.Join][1..] == [];
    assert Run(s3, [Action<T>.Join]) == Some(s4);
    assert Run(s2, [NotifyAll, Join]) == Some(s4);
    assert Run(s1, [SetStop, NotifyAll, Join]) == Some(s4);
    assert Run(s0, run) == Some(s4);
    assert s4.accepted == [task] && 0 !in s4.finished;
  }

  // ---------------------------------------------------------------- the shared fields

  /** What a worker's critical section tells it to do. */
  datatype Section<T> = Wait | Return | Take(task: T)

  /** The fields the threads share, changed in place by the critical sections. */
  class Shared<T> {
    var tasks: seq<T>
    var stop: bool
    ghost var pool: Pool<T>

    ghost predicate Valid()
      reads this
    {
      pool.queue == tasks && pool.stop == stop
    }

    constructor (ghost size: nat)
      ensures Valid() && pool == Initial(size)
    {
      tasks, stop, pool := [], false, Initial(size);
    }

    /** False stands for the exception on a stopped pool. */
    method Add(task: T) returns (ok: bool)
      requires Valid()
      modifies this
      ensures Valid() && pool == Next(old(pool), Submit(task)).value
      ensures ok == !old(stop) && tasks == if ok then old(tasks) + [task] else old(tasks)
    {
      pool := Next(pool, Submit(task)).value;
      if stop {
        return false;
      }
      tasks := tasks + [task];
      return true;
    }

    /** What worker w does under the mutex. */
    method Critical(ghost w: nat) returns (section: Section<T>)
      requires Valid() && Is(pool, w, Ready)
      modifies this
      ensures Valid() && pool == Next(old(pool), Enter(w)).value
      ensures section == Wait <==> Is(pool, w, Asleep)
      ensures section == Return <==> Is(pool, w, Exited)
      ensures section.Take? ==>
        pool.started == old(pool.started) + [section.task] && old(tasks) == [section.task] + tasks
    {
      pool := Next(pool, Enter(w)).value;
      if !(stop || |tasks| > 0) {
        return Wait;
      }
      if stop && |tasks| == 0 {
        return Return;
      }
      var task := tasks[0];
      tasks := tasks[1..];
      return Take(task);
    }

    /** The destructor's first step. */
    method SetStop()
      requires Valid() && pool.closer == Open
      modifies this
      ensures Valid() && pool == Next(old(pool), Action<T>.SetStop).value && stop
    {
      pool := Next(pool, Action<T>.SetStop).value;
      stop := true;
    }
  }
}
