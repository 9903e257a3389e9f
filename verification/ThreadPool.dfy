/** The thread pool as a protocol: one client thread and any number of workers that share a queue under one
    mutex, a condition variable, and a stop token. Every step below is one critical section, one notification,
    or one piece of work outside the mutex; a run is any interleaving of such steps. */
module ThreadPool {

  /** A task is known by its ticket, the number of tasks accepted before it. */
  type Ticket = nat

  /** `Checking`: about to take the mutex and look at the queue. `Waiting`: asleep on the condition variable. */
  datatype Worker = Checking | Waiting | Running(task: Ticket) | Exited

  /** `Notifying`: between unlocking after a push and `notify_one`. `Stopping`: the stop flag is set, the sleepers
      have not been woken yet. `Joining`: waiting for the worker with this index. */
  datatype Client = Idle | Notifying | Stopping | Joining(next: nat)

  /** `log` records the tickets in the order in which workers took them. */
  datatype State = State(queue: seq<Ticket>, workers: seq<Worker>, client: Client, stopped: bool,
                         accepted: nat, log: seq<Ticket>, completed: set<Ticket>)

  datatype Step =
    | Push
    | Reject
    | NotifyOne(w: nat)
    | NotifyNobody
    | RequestStop
    | NotifyAll
    | Join
    | Return
    | Check(w: nat)
    | Finish(w: nat)
    | WakeSpuriously(w: nat)

  function Initial(n: nat): State {
    State([], seq(n, i => Checking), Idle, false, 0, [], {})
  }

  predicate Enabled(s: State, step: Step) {
    match step
    case Push => s.client.Idle? && !s.stopped
    case Reject => s.client.Idle? && s.stopped
    case NotifyOne(w) => s.client.Notifying? && w < |s.workers| && s.workers[w].Waiting?
    case NotifyNobody => s.client.Notifying? && forall w :: 0 <= w < |s.workers| ==> !s.workers[w].Waiting?
    case RequestStop => s.client.Idle?
    case NotifyAll => s.client.Stopping?
    case Join => s.client.Joining? && s.client.next < |s.workers| && s.workers[s.client.next].Exited?
    case Return => s.client.Joining? && s.client.next == |s.workers|
    case Check(w) => w < |s.workers| && s.workers[w].Checking?
    case Finish(w) => w < |s.workers| && s.workers[w].Running?
    case WakeSpuriously(w) => w < |s.workers| && s.workers[w].Waiting?
  }

  function Wake(w: Worker): Worker {
    if w.Waiting? then Checking else w
  }

  /** What a worker does with the mutex: take the first task, or leave when stopped, or go to sleep. */
  function Look(s: State, w: nat): State
    requires w < |s.workers|
  {
    if s.queue != [] then
      s.(queue := s.queue[1..], workers := s.workers[w := Running(s.queue[0])], log := s.log + [s.queue[0]])
    else if s.stopped then
      s.(workers := s.workers[w := Exited])
    else
      s.(workers := s.workers[w := Waiting])
  }

  function Next(s: State, step: Step): State
    requires Enabled(s, step)
  {
    match step
    case Push => s.(queue := s.queue + [s.accepted], accepted := s.accepted + 1, client := Notifying)
    case Reject => s
    case NotifyOne(w) => s.(workers := s.workers[w := Checking], client := Idle)
    case NotifyNobody => s.(client := Idle)
    case RequestStop => s.(stopped := true, client := Stopping)
    case NotifyAll =>
      s.(workers := seq(|s.workers|, i requires 0 <= i < |s.workers| => Wake(s.workers[i])), client := Joining(0))
    case Join => s.(client := Joining(s.client.next + 1))
    case Return => s.(client := Idle)
    case Check(w) => Look(s, w)
    case Finish(w) => s.(workers := s.workers[w := Checking], completed := s.completed + {s.workers[w].task})
    case WakeSpuriously(w) => s.(workers := s.workers[w := Checking])
  }

  // ----- sums over the workers

  ghost function Sum(ws: seq<Worker>, weight: Worker -> nat): nat {
    if ws == [] then 0 else weight(ws[0]) + Sum(ws[1..], weight)
  }

  lemma {:induction false} SumUpdate(ws: seq<Worker>, weight: Worker -> nat, i: nat, w: Worker)
    requires i < |ws|
    ensures Sum(ws[i := w], weight) + weight(ws[i]) == Sum(ws, weight) + weight(w)
  {
    if i == 0 {
      assert ws[0 := w][1..] == ws[1..];
    } else {
      assert ws[i := w][1..] == ws[1..][i - 1 := w];
      SumUpdate(ws[1..], weight, i - 1, w);
    }
  }

  lemma {:induction false} SumBounds(ws: seq<Worker>, weight: Worker -> nat, least: nat, most: nat)
    requires forall i :: 0 <= i < |ws| ==> least <= weight(ws[i]) <= most
    ensures least * |ws| <= Sum(ws, weight) <= most * |ws|
  {
    if ws != [] {
      SumBounds(ws[1..], weight, least, most);
      assert most * |ws| == most * |ws[1..]| + most;
      assert least * |ws| == least * |ws[1..]| + least;
    }
  }

  /** Waking everybody adds at most one for each worker. */
  lemma {:induction false} SumWoken(ws: seq<Worker>, woken: seq<Worker>, weight: Worker -> nat)
    requires |woken| == |ws| && forall i :: 0 <= i < |ws| ==> weight(ws[i]) <= weight(woken[i]) <= weight(ws[i]) + 1
    ensures Sum(ws, weight) <= Sum(woken, weight) <= Sum(ws, weight) + |ws|
  {
    if ws != [] {
      SumWoken(ws[1..], woken[1..], weight);
    }
  }

  // ----- the invariant

  /** The workers that will look at the queue again without being notified. */
  ghost function Awake(s: State): nat {
    Sum(s.workers, AwakeWeight())
  }

  ghost function Pending(s: State): nat {
    if s.client.Notifying? then 1 else 0
  }

  ghost function Min(a: nat, b: nat): nat {
    if a < b then a else b
  }

  /** Each accepted ticket is taken once and in order, and is then with exactly one worker or completed. */
  ghost predicate TicketsExact(s: State) {
    && s.log + s.queue == seq(s.accepted, i => i)
    && (forall t :: t in s.completed ==> t in s.log)
    && (forall w :: 0 <= w < |s.workers| && s.workers[w].Running? ==>
         s.workers[w].task in s.log && s.workers[w].task !in s.completed)
    && (forall v, w :: 0 <= v < w < |s.workers| && s.workers[v].Running? && s.workers[w].Running? ==>
         s.workers[v].task != s.workers[w].task)
    && (forall t :: t in s.log && t !in s.completed ==> exists w :: 0 <= w < |s.workers| && s.workers[w] == Running(t))
  }

  /** Before a stop, enough workers are awake, or about to be woken, for the tasks in the queue. */
  ghost predicate NoLostWakeup(s: State) {
    !s.stopped ==> Awake(s) + Pending(s) >= Min(|s.queue|, |s.workers|)
  }

  ghost predicate StopInOrder(s: State) {
    && (s.client.Notifying? ==> !s.stopped)
    && (s.client.Stopping? || s.client.Joining? ==> s.stopped)
    && (forall w :: 0 <= w < |s.workers| && s.workers[w].Exited? ==> s.stopped && s.queue == [])
    && (s.stopped && !s.client.Stopping? ==> forall w :: 0 <= w < |s.workers| ==> !s.workers[w].Waiting?)
    && (s.client.Joining? ==>
         s.client.next <= |s.workers| && forall w :: 0 <= w < s.client.next ==> s.workers[w].Exited?)
  }

  ghost predicate Inv(s: State) {
    |s.workers| > 0 && TicketsExact(s) && NoLostWakeup(s) && StopInOrder(s)
  }

  /** The pool starts with `n` workers, all about to look at the queue, and with nothing to do. */
  lemma InitialInv(n: nat)
    requires n > 0
    ensures Inv(Initial(n)) && |Initial(n).workers| == n
    ensures forall w :: 0 <= w < n ==> Initial(n).workers[w].Checking?
    ensures Initial(n).queue == [] && Initial(n).client.Idle? && !Initial(n).stopped && Initial(n).accepted == 0
  {
    assert [] + [] == seq(0, i => i);
  }

  lemma TicketNumbers(s: State)
    requires TicketsExact(s)
    ensures forall t: Ticket :: t in s.log <==> t < |s.log|
    ensures |s.log| + |s.queue| == s.accepted && forall i :: 0 <= i < |s.queue| ==> s.queue[i] == |s.log| + i
  {
    var all := s.log + s.queue;
    assert |all| == s.accepted && forall i :: 0 <= i < |all| ==> all[i] == i;
    assert forall i :: 0 <= i < |s.log| ==> s.log[i] == all[i];
    forall t: Ticket
      ensures t in s.log <==> t < |s.log|
    {
      if t < |s.log| { assert s.log[t] == t; }
    }
    assert forall i :: 0 <= i < |s.queue| ==> s.queue[i] == all[|s.log| + i];
  }

  /** The running tasks, worker by worker, are the same. */
  ghost predicate SameTasks(ws: seq<Worker>, ws': seq<Worker>) {
    |ws| == |ws'| && forall i :: 0 <= i < |ws| ==> (ws[i].Running? || ws'[i].Running? ==> ws[i] == ws'[i])
  }

  lemma TicketsKeptBySameTasks(s: State, s': State)
    requires TicketsExact(s) && SameTasks(s.workers, s'.workers)
    requires s'.queue == s.queue && s'.log == s.log && s'.accepted == s.accepted && s'.completed == s.completed
    ensures TicketsExact(s')
  {
    forall t | t in s'.log && t !in s'.completed
      ensures exists w :: 0 <= w < |s'.workers| && s'.workers[w] == Running(t)
    {
      var w :| 0 <= w < |s.workers| && s.workers[w] == Running(t);
      assert s'.workers[w] == Running(t);
    }
  }

  lemma TicketsKeptByPush(s: State)
    requires TicketsExact(s)
    ensures TicketsExact(s.(queue := s.queue + [s.accepted], accepted := s.accepted + 1, client := Notifying))
  {
    assert s.log + (s.queue + [s.accepted]) == (s.log + s.queue) + [s.accepted] == seq(s.accepted + 1, i => i);
  }

  lemma TicketsKeptByTaking(s: State, w: nat)
    requires TicketsExact(s) && w < |s.workers| && s.workers[w].Checking? && s.queue != []
    ensures TicketsExact(Look(s, w))
  {
    var s' := Look(s, w);
    TicketNumbers(s);
    assert s'.log + s'.queue == s.log + s.queue;
    forall t | t in s'.log && t !in s'.completed
      ensures exists v :: 0 <= v < |s'.workers| && s'.workers[v] == Running(t)
    {
      if t == s.queue[0] {
        assert s'.workers[w] == Running(t);
      } else {
        var v :| 0 <= v < |s.workers| && s.workers[v] == Running(t);
        assert s'.workers[v] == Running(t);
      }
    }
  }

  lemma TicketsKeptByFinishing(s: State, w: nat)
    requires TicketsExact(s) && w < |s.workers| && s.workers[w].Running?
    ensures TicketsExact(Next(s, Finish(w)))
  {
    var s' := Next(s, Finish(w));
    forall t | t in s'.log && t !in s'.completed
      ensures exists v :: 0 <= v < |s'.workers| && s'.workers[v] == Running(t)
    {
      var v :| 0 <= v < |s.workers| && s.workers[v] == Running(t);
      assert s'.workers[v] == Running(t);
    }
  }

  lemma TicketsKept(s: State, step: Step)
    requires TicketsExact(s) && Enabled(s, step)
    ensures TicketsExact(Next(s, step))
  {
    match step
    case Push => TicketsKeptByPush(s);
    case Finish(w) => TicketsKeptByFinishing(s, w);
    case Check(w) =>
      if s.queue != [] { TicketsKeptByTaking(s, w); } else { TicketsKeptBySameTasks(s, Next(s, step)); }
    case _ => TicketsKeptBySameTasks(s, Next(s, step));
  }

  ghost function AwakeWeight(): Worker -> nat {
    (w: Worker) => if w.Checking? || w.Running? then 1 else 0
  }

  lemma WakeupsKept(s: State, step: Step)
    requires Inv(s) && Enabled(s, step)
    ensures NoLostWakeup(Next(s, step))
  {
    var s', f := Next(s, step), AwakeWeight();
    match step
    case NotifyOne(w) => SumUpdate(s.workers, f, w, Checking);
    case NotifyNobody =>
      if !s.stopped { SumBounds(s.workers, f, 1, 1); }
    case Check(w) =>
      SumUpdate(s.workers, f, w, s'.workers[w]);
    case Finish(w) => SumUpdate(s.workers, f, w, Checking);
    case WakeSpuriously(w) => SumUpdate(s.workers, f, w, Checking);
    case _ =>
  }

  lemma StopKept(s: State, step: Step)
    requires Inv(s) && Enabled(s, step)
    ensures StopInOrder(Next(s, step))
  {
  }

  /** Every step of every thread keeps the invariant. */
  lemma InvKept(s: State, step: Step)
    requires Inv(s) && Enabled(s, step)
    ensures Inv(Next(s, step))
  {
    TicketsKept(s, step);
    WakeupsKept(s, step);
    StopKept(s, step);
  }

  // ----- runs

  ghost predicate IsRun(states: seq<State>, steps: seq<Step>) {
    && |states| == |steps| + 1
    && forall i :: 0 <= i < |steps| ==> Enabled(states[i], steps[i]) && states[i + 1] == Next(states[i], steps[i])
  }

  /** Runs are what comes from a state by any number of enabled steps. */
  lemma RunsGrow(states: seq<State>, steps: seq<Step>, step: Step)
    requires IsRun(states, steps) && Enabled(states[|steps|], step)
    ensures IsRun([states[0]], []) && IsRun(states + [Next(states[|steps|], step)], steps + [step])
  {
  }

  /** In every interleaving from the start, every state satisfies the invariant. */
  lemma {:induction false} RunsKeepInv(states: seq<State>, steps: seq<Step>, k: nat)
    requires IsRun(states, steps) && |states[0].workers| > 0 && states[0] == Initial(|states[0].workers|)
    requires k < |states|
    ensures Inv(states[k])
  {
    if k == 0 {
      InitialInv(|states[0].workers|);
    } else {
      RunsKeepInv(states, steps, k - 1);
      InvKept(states[k - 1], steps[k - 1]);
    }
  }

  /** Tasks start in the order in which they were accepted, and no worker takes from an empty queue. */
  lemma TakenInOrder(s: State, w: nat)
    requires Inv(s) && Enabled(s, Check(w)) && Next(s, Check(w)).workers[w].Running?
    ensures s.queue != [] && Next(s, Check(w)).workers[w].task == |s.log| < s.accepted
    ensures forall v :: 0 <= v < |s.workers| && s.workers[v].Running? ==> s.workers[v].task < |s.log|
  {
    TicketNumbers(s);
  }

  ghost predicate AllCompleted(s: State) {
    s.queue == [] && (forall w :: 0 <= w < |s.workers| ==> !s.workers[w].Running?) &&
    forall t: Ticket :: t in s.completed <==> t < s.accepted
  }

  lemma NothingRunning(s: State)
    requires Inv(s) && s.queue == [] && forall w :: 0 <= w < |s.workers| ==> !s.workers[w].Running?
    ensures AllCompleted(s)
  {
    TicketNumbers(s);
    assert forall t: Ticket :: t < s.accepted <==> t in s.log;
  }

  /** When `Shutdown` returns, the queue is empty, every worker has exited and every accepted task is completed. */
  lemma ShutdownDrains(s: State)
    requires Inv(s) && Enabled(s, Return)
    ensures AllCompleted(s) && forall w :: 0 <= w < |s.workers| ==> s.workers[w].Exited?
  {
    assert s.workers[0].Exited?;
    NothingRunning(s);
  }

  // ----- progress

  /** Steps that happen by themselves: neither a new call by the client nor a spurious wakeup. */
  predicate Internal(step: Step) {
    !step.Push? && !step.Reject? && !step.RequestStop? && !step.WakeSpuriously?
  }

  /** No reachable state with work left is stuck: when no internal step is possible, the client is idle, every accepted
      task is completed, and after a stop every worker has exited. */
  lemma StuckMeansDone(s: State)
    requires Inv(s) && forall step :: Internal(step) ==> !Enabled(s, step)
    ensures s.client.Idle? && AllCompleted(s)
    ensures s.stopped ==> forall w :: 0 <= w < |s.workers| ==> s.workers[w].Exited?
  {
    assert !Enabled(s, NotifyAll) && !Enabled(s, Join) && !Enabled(s, Return) && !Enabled(s, NotifyNobody);
    forall w | 0 <= w < |s.workers|
      ensures s.workers[w].Waiting? || s.workers[w].Exited?
      ensures !(s.client.Notifying? && s.workers[w].Waiting?)
    {
      assert !Enabled(s, Check(w)) && !Enabled(s, Finish(w)) && !Enabled(s, NotifyOne(w));
    }
    assert !s.client.Notifying?;
    if !s.stopped {
      SumBounds(s.workers, AwakeWeight(), 0, 0);
    } else {
      assert forall w :: 0 <= w < |s.workers| ==> s.workers[w].Exited?;
      assert s.workers[0].Exited?;
    }
    NothingRunning(s);
  }

  /** While a task is unfinished and the client does not hold up the pool, some worker can go on. */
  lemma SomeoneWorks(s: State, t: Ticket)
    requires Inv(s) && s.client.Idle? && t < s.accepted && t !in s.completed
    ensures exists w :: 0 <= w < |s.workers| && (s.workers[w].Checking? || s.workers[w].Running?)
  {
    if forall w :: 0 <= w < |s.workers| ==> !s.workers[w].Checking? && !s.workers[w].Running? {
      assert forall step :: Internal(step) ==> !Enabled(s, step);
      StuckMeansDone(s);
    }
  }

  /** How many internal steps are left at most. */
  ghost function Work(s: State): nat {
    2 * |s.queue| + Sum(s.workers, WorkWeight()) +
    match s.client
    case Idle => 0
    case Notifying => 2
    case Stopping => 2 * |s.workers| + 2
    case Joining(k) => if k <= |s.workers| then |s.workers| - k + 1 else 0
  }

  ghost function WorkWeight(): Worker -> nat {
    (w: Worker) => if w.Running? then 2 else if w.Checking? then 1 else 0
  }

  /** Every internal step uses up work, so whatever the schedule, the pool comes to rest after at most `Work(s)` of
      them. */
  lemma InternalStepsEnd(s: State, step: Step)
    requires Inv(s) && Enabled(s, step) && Internal(step)
    ensures Work(Next(s, step)) < Work(s)
  {
    var s', f := Next(s, step), WorkWeight();
    match step
    case NotifyOne(w) => SumUpdate(s.workers, f, w, Checking);
    case NotifyAll => SumWoken(s.workers, s'.workers, f);
    case Check(w) => SumUpdate(s.workers, f, w, s'.workers[w]);
    case Finish(w) => SumUpdate(s.workers, f, w, Checking);
    case _ =>
  }

  /** And that is at most two steps for each task in the queue and four for each worker, and two more. */
  lemma WorkIsBounded(s: State)
    requires Inv(s)
    ensures Work(s) <= 2 * |s.queue| + 4 * |s.workers| + 2
  {
    SumBounds(s.workers, WorkWeight(), 0, 2);
  }

  /** A spurious wakeup makes at most one more look at the queue necessary. */
  lemma SpuriousWakeupsCost(s: State, w: nat)
    requires Inv(s) && Enabled(s, WakeSpuriously(w))
    ensures Work(Next(s, WakeSpuriously(w))) == Work(s) + 1
  {
    SumUpdate(s.workers, WorkWeight(), w, Checking);
  }

  /** How many steps of a run are spurious wakeups. */
  function Spurious(steps: seq<Step>): nat {
    if steps == [] then 0 else (if steps[0].WakeSpuriously? then 1 else 0) + Spurious(steps[1..])
  }

  lemma {:induction false} SpuriousPush(steps: seq<Step>, step: Step)
    ensures Spurious(steps + [step]) == Spurious(steps) + if step.WakeSpuriously? then 1 else 0
  {
    if steps != [] {
      assert (steps + [step])[1..] == steps[1..] + [step];
      SpuriousPush(steps[1..], step);
    }
  }

  lemma {:induction false} SpuriousIsCount(steps: seq<Step>)
    ensures Spurious(steps) == |set i | 0 <= i < |steps| && steps[i].WakeSpuriously?|
  {
    var all := set i | 0 <= i < |steps| && steps[i].WakeSpuriously?;
    if steps == [] {
      assert all == {};
    } else {
      var n := |steps| - 1;
      SpuriousIsCount(steps[..n]);
      SpuriousPush(steps[..n], steps[n]);
      assert steps == steps[..n] + [steps[n]];
      var before := set i | 0 <= i < |steps[..n]| && steps[..n][i].WakeSpuriously?;
      assert all == before + if steps[n].WakeSpuriously? then {n} else {};
    }
  }

  /** Left alone by its client, the pool comes to rest under every schedule, with every accepted task completed: a run
      of internal steps and of k spurious wakeups has at most `Work + 2k` steps, and when no internal step is left,
      there is nothing to do. */
  lemma {:induction false} InternalRunsDrain(states: seq<State>, steps: seq<Step>)
    requires IsRun(states, steps) && Inv(states[0])
    requires forall i :: 0 <= i < |steps| ==> Internal(steps[i]) || steps[i].WakeSpuriously?
    ensures |steps| <= Work(states[0]) + 2 * Spurious(steps)
    ensures (forall step :: Internal(step) ==> !Enabled(states[|steps|], step)) ==> AllCompleted(states[|steps|])
  {
    if steps == [] {
      if forall step :: Internal(step) ==> !Enabled(states[0], step) { StuckMeansDone(states[0]); }
    } else {
      InvKept(states[0], steps[0]);
      if Internal(steps[0]) {
        InternalStepsEnd(states[0], steps[0]);
      } else {
        SpuriousWakeupsCost(states[0], steps[0].w);
      }
      InternalRunsDrain(states[1..], steps[1..]);
    }
  }
}
