/** The thread pool as an object whose fields its threads update. Each method below is code of one thread; between two
    of its critical sections it calls `Others`, which lets the other threads run, in any order and for any time. */
module WorkerPool {
  import opened Options
  import opened ThreadPool

  /** No pool has no workers: the source throws. */
  method Create<R>(workers: nat) returns (r: Option<Pool<R>>)
    ensures r.Some? <==> workers > 0
    ensures r.Some? ==> fresh(r.value) && r.value.Valid() && r.value.View() == Initial(workers)
    ensures r.Some? ==> |r.value.threads| == workers
    ensures r.Some? ==> forall w :: 0 <= w < workers ==> r.value.threads[w].Checking?
  {
    if workers == 0 {
      return None;
    }
    var pool := new Pool<R>(workers);
    return Some(pool);
  }

  /** The queue holds tickets; `tasks` are the accepted tasks by ticket, and `results` the futures that are ready. */
  class Pool<R> {
    var workQueue: seq<Ticket>
    var threads: seq<Worker>
    var client: Client
    var stopRequested: bool
    var tasks: seq<() -> R>
    var results: map<Ticket, R>
    ghost var log: seq<Ticket>

    ghost function View(): State
      reads this
    {
      State(workQueue, threads, client, stopRequested, |tasks|, log, results.Keys)
    }

    /** A future that is ready holds what its own task returns. */
    ghost predicate Valid()
      reads this
    {
      Inv(View()) && forall t :: t in results ==> t < |tasks| && results[t] == tasks[t]()
    }

    constructor (workers: nat)
      requires workers > 0
      ensures Valid() && View() == Initial(workers) && |threads| == workers
      ensures forall w :: 0 <= w < workers ==> threads[w].Checking?
      ensures workQueue == [] && tasks == [] && client.Idle? && !stopRequested
    {
      workQueue, threads, client, stopRequested := [], seq(workers, i => Checking), Idle, false;
      tasks, results, log := [], map[], [];
      new;
      InitialInv(workers);
      assert View() == Initial(workers);
    }

    /** One round of `WorkerThread`: with the mutex, wait, leave or take the first task; without it, run the task. */
    method WorkerThread(w: nat)
      requires Valid() && w < |threads| && (threads[w].Checking? || threads[w].Running?)
      modifies this
      ensures Valid() && View() == Next(old(View()), if old(threads[w]).Checking? then Check(w) else Finish(w))
      ensures Work(View()) < old(Work(View())) && tasks == old(tasks)
    {
      ghost var s := View();
      if threads[w].Checking? {
        InvKept(s, Check(w));
        InternalStepsEnd(s, Check(w));
        if workQueue == [] && !stopRequested {
          threads := threads[w := Waiting];
        } else if stopRequested && workQueue == [] {
          threads := threads[w := Exited];
        } else {
          var task := workQueue[0];
          workQueue, log := workQueue[1..], log + [task];
          threads := threads[w := Running(task)];
        }
      } else {
        InvKept(s, Finish(w));
        InternalStepsEnd(s, Finish(w));
        var task := threads[w].task;
        TicketNumbers(s);
        results := results[task := tasks[task]()];
        threads := threads[w := Checking];
        assert results.Keys == s.completed + {task};
      }
    }

    /** A waiting thread wakes up for no reason. */
    method WakeUp(w: nat)
      requires Valid() && w < |threads| && threads[w].Waiting?
      modifies this`threads
      ensures Valid() && View() == Next(old(View()), WakeSpuriously(w)) && Work(View()) == old(Work(View())) + 1
    {
      InvKept(View(), WakeSpuriously(w));
      SpuriousWakeupsCost(View(), w);
      threads := threads[w := Checking];
    }

    /** The client's part of the state, which the workers leave alone. */
    twostate predicate ClientKept()
      reads this
    {
      client == old(client) && stopRequested == old(stopRequested) && tasks == old(tasks) && |threads| == |old(threads)|
    }

    /** The workers run, and may wake up for no reason, any number of times and in any order. */
    method Others()
      requires Valid()
      modifies this
      ensures Valid() && ClientKept()
    {
      var rounds: nat :| true;
      for i := 0 to rounds
        invariant Valid() && ClientKept()
      {
        var w: nat :| true;
        if w < |threads| {
          match threads[w]
          case Waiting => WakeUp(w);
          case Exited =>
          case _ => WorkerThread(w);
        }
      }
    }

    /** The client queues a task, unlocks, and notifies one waiting thread if there is any; the ticket stands for the
        future. A stopped pool refuses: the source throws. */
    method Enqueue(task: () -> R) returns (r: Option<Ticket>)
      requires Valid() && client.Idle?
      modifies this
      ensures Valid() && client.Idle? && stopRequested == old(stopRequested)
      ensures r == if old(stopRequested) then None else Some(|old(tasks)|)
      ensures tasks == if old(stopRequested) then old(tasks) else old(tasks) + [task]
    {
      if stopRequested {
        return None;
      }
      r := Some(|tasks|);
      Others();
      InvKept(View(), Push);
      workQueue, tasks, client := workQueue + [|tasks|], tasks + [task], Notifying;
      Others();
      NotifyOne();
    }

    /** `future::get`: waits while the threads go on in any order, with any number of spurious wakeups, and delivers
        what the task returns. */
    method Get(t: Ticket) returns (r: R)
      requires Valid() && client.Idle? && t < |tasks|
      modifies this
      ensures Valid() && ClientKept()
      ensures r == tasks[t]()
    {
      hide Work, TicketsExact, NoLostWakeup, StopInOrder;
      Others();
      var spurious: nat :| true;
      while t !in results
        invariant Valid() && ClientKept()
        decreases Work(View()) + 2 * spurious
      {
        SomeoneWorks(View(), t);
        var w: nat :|
          w < |threads| && (threads[w].Checking? || threads[w].Running? || (threads[w].Waiting? && spurious > 0));
        if threads[w].Waiting? {
          WakeUp(w);
          spurious := spurious - 1;
        } else {
          WorkerThread(w);
        }
      }
      r := results[t];
    }

    method NotifyOne()
      requires Valid() && client.Notifying?
      modifies this`client, this`threads
      ensures Valid() && client.Idle? && |threads| == |old(threads)|
      ensures (Enabled(old(View()), NotifyNobody) && View() == Next(old(View()), NotifyNobody)) ||
              exists w: nat :: Enabled(old(View()), Step.NotifyOne(w)) && View() == Next(old(View()), Step.NotifyOne(w))
    {
      ghost var s := View();
      if w: nat :| w < |threads| && threads[w].Waiting? {
        InvKept(s, Step.NotifyOne(w));
        threads, client := threads[w := Checking], Idle;
        assert View() == Next(s, Step.NotifyOne(w));
      } else {
        InvKept(s, NotifyNobody);
        client := Idle;
      }
    }

    /** It returns, and by then the queue is empty, every accepted task is completed and every thread has exited. */
    method Shutdown()
      requires Valid() && client.Idle?
      modifies this
      ensures Valid() && client.Idle? && stopRequested && tasks == old(tasks) && workQueue == []
      ensures AllCompleted(View()) && (forall t: Ticket :: t < |tasks| ==> t in results)
      ensures forall w :: 0 <= w < |threads| ==> threads[w].Exited?
    {
      Others();
      InvKept(View(), RequestStop);
      stopRequested, client := true, Stopping;
      Others();
      NotifyAll();
      JoinAllThreads();
    }

    /** The stop callback of the condition variable. */
    method NotifyAll()
      requires Valid() && client.Stopping?
      modifies this`client, this`threads
      ensures Valid() && client == Joining(0) && View() == Next(old(View()), Step.NotifyAll)
    {
      ghost var s := View();
      InvKept(s, Step.NotifyAll);
      threads := seq(|threads|, i requires 0 <= i < |threads| reads this => Wake(threads[i]));
      client := Joining(0);
      assert View() == Next(s, Step.NotifyAll);
    }

    /** Waiting for a thread lets the threads run until it has exited, which they cannot put off for ever. */
    method JoinAllThreads()
      requires Valid() && client == Joining(0)
      modifies this
      ensures Valid() && client.Idle? && stopRequested && tasks == old(tasks) && workQueue == []
      ensures AllCompleted(View()) && (forall t: Ticket :: t < |tasks| ==> t in results)
      ensures forall w :: 0 <= w < |threads| ==> threads[w].Exited?
    {
      hide Work, TicketsExact, NoLostWakeup;
      for t := 0 to |threads|
        invariant Valid() && client == Joining(t) && tasks == old(tasks) && |threads| == |old(threads)|
      {
        while !threads[t].Exited?
          invariant Valid() && client == Joining(t) && tasks == old(tasks) && |threads| == |old(threads)|
          decreases Work(View())
        {
          var w: nat :| w < |threads| && (threads[w].Checking? || threads[w].Running?);
          WorkerThread(w);
        }
        InvKept(View(), Join);
        client := Joining(t + 1);
      }
      ShutdownDrains(View());
      assert forall t: Ticket :: t < |tasks| <==> t in View().completed;
      InvKept(View(), Return);
      client := Idle;
    }
  }
}
