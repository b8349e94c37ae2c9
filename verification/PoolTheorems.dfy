/** What threadpool.c promises over whole runs, in every interleaving. */
module PoolTheorems {
  import opened PoolQueue
  import opened PoolMachine
  import opened PoolProofs

  /** While a worker sleeps, those woken and still to look at the queue are at least as many as the
      queued tasks; while a submitter sleeps, those woken are at least as many as the free slots. So
      one signal for each task and for each slot is enough. */
  lemma NoLostWakeup(r: Run, i: nat)
    requires IsRun(r) && i < |r.states|
    ensures var s := r.states[i];
            && s.q.Valid() && |s.q.Contents()| == s.q.size
            && ((exists w | 0 <= w < |s.workers| :: s.workers[w].mode.Asleep?) ==> AwakeCount(s.workers) >= s.q.size)
            && ((exists c | 0 <= c < |s.clients| :: s.clients[c].mode.Asleep?) ==> AwakeCount(s.clients) >= s.q.Capacity() - s.q.size)
            && (s.q.shutdown ==> NoneAsleep(s.workers) && NoneAsleep(s.clients))
  {
    RunInv(r, i);
  }

  /** The accepted tasks are those dequeued followed by those queued, in the order of acceptance; and
      every dequeued task has been run to the end or is being run. */
  lemma FirstInFirstOut(r: Run, i: nat)
    requires IsRun(r) && i < |r.states|
    ensures var s := r.states[i];
            && s.q.Valid() && Accepted(s.results) == s.taken + s.q.Contents()
            && multiset(s.taken) == multiset(s.ran) + Running(s.workers)
  {
    RunInv(r, i);
  }

  // ----- what single critical sections answer

  /** threadpool_submit answers -1 exactly after shutdown; it waits exactly while the queue is full and the
      pool is not shut down; otherwise it answers 0 and its task is queued. */
  lemma SubmitAnswers(s: State, c: nat, woken: set<nat>)
    requires s.q.Valid() && Exec(s, Submit(c, woken)).Next?
    ensures c < |s.clients|
    ensures var s', task := Exec(s, Submit(c, woken)).s, s.clients[c].task;
            && s'.q.Valid() && |s'.clients| == |s.clients|
            && if s.q.shutdown then
                 s'.results == s.results + [Return(task, -1)] && s'.clients[c].mode.Outside? && s'.q == s.q
               else if |s.q.Contents()| == s.q.Capacity() then
                 s'.results == s.results && s'.clients[c].mode.Asleep? && s'.q == s.q
               else
                 && s'.results == s.results + [Return(task, 0)] && s'.clients[c].mode.Outside?
                 && s'.q.Contents() == s.q.Contents() + [task]
  {
    SubmitAppends(s.q, s.clients[c].task);
  }

  /** A worker takes the oldest task if there is one; otherwise it returns exactly after shutdown, and
      waits before. */
  lemma WorkAnswers(s: State, w: nat, woken: set<nat>)
    requires s.q.Valid() && Exec(s, Work(w, woken)).Next?
    ensures w < |s.workers|
    ensures var s' := Exec(s, Work(w, woken)).s;
            && s'.q.Valid() && |s'.workers| == |s.workers|
            && if s.q.Contents() != [] then
                 && s'.taken == s.taken + [s.q.Contents()[0]] && s'.q.Contents() == s.q.Contents()[1..]
                 && s'.workers[w] == Thread(Outside, s.q.Contents()[0])
               else
                 && s'.taken == s.taken && s'.q == s.q
                 && s'.workers[w].mode == if s.q.shutdown then Gone else Asleep
  {
    WorkerTakesOldest(s.q);
  }

  /** Nothing but a critical section of threadpool_submit makes a result, and nothing but one of a worker
      takes a task or ends a worker. */
  lemma OnlySections(s: State, e: Event)
    requires s.q.Valid() && Exec(s, e).Next?
    ensures var s' := Exec(s, e).s;
            && (!e.Submit? ==> s'.results == s.results)
            && (!e.Work? ==> s'.taken == s.taken && |s'.workers| == |s.workers|
                             && forall w | 0 <= w < |s.workers| && s'.workers[w].mode.Gone? :: s.workers[w].mode.Gone?)
  {}

  /** In every run a result is 0 or -1, and it is -1 if and only if the pool has been shut down by then. */
  lemma {:induction false} ResultsTell(r: Run, i: nat)
    requires IsRun(r) && i < |r.events|
    ensures var s, s' := r.states[i], r.states[i + 1];
            && s.results <= s'.results
            && forall k | |s.results| <= k < |s'.results| ::
                 s'.results[k].code == (if s.q.shutdown then -1 else 0) && r.events[i].Submit?
  {
    RunInv(r, i);
    var s, e := r.states[i], r.events[i];
    assert Exec(s, e) == Next(r.states[i + 1]);
    InvValid(s);
    hide IsRun, Inv, Exec;
    OnlySections(s, e);
    if e.Submit? { SubmitAnswers(s, e.c, e.woken); }
  }

  /** threadpool_create refuses exactly the sizes that are not positive, and otherwise makes an empty pool
      of that many workers and slots, all of them about to work. */
  lemma CreateExactly(numThreads: int, queueCapacity: int, clients: nat)
    ensures var p := Create(numThreads, queueCapacity, clients);
            if p.Null? then numThreads <= 0 || queueCapacity <= 0
            else
              && |p.s.workers| == numThreads > 0 && p.s.q.Capacity() == queueCapacity > 0 && |p.s.clients| == clients
              && p.s.q.Valid() && p.s.q.Contents() == [] && !p.s.q.shutdown && p.s.destroy.NotCalled?
              && (forall w | 0 <= w < |p.s.workers| :: AtLock(p.s.workers[w]))
              && p.s.results == [] && p.s.taken == [] && p.s.ran == []
  {}

  // ----- shutdown

  lemma RefusedStep(s: State, e: Event)
    requires s.q.Valid() && s.q.shutdown && Exec(s, e).Next?
    ensures var s' := Exec(s, e).s;
            s'.q.shutdown && s.results <= s'.results && Accepted(s'.results) == Accepted(s.results)
  {
    match e
    case Submit(c, woken) => AcceptedNext(s.results, Return(s.clients[c].task, -1));
    case _ =>
  }

  /** Nothing is accepted after shutdown: every later call of threadpool_submit returns -1. */
  lemma {:induction false} NothingAfterShutdown(r: Run, i: nat, j: nat)
    requires IsRun(r) && i <= j < |r.states| && r.states[i].q.shutdown
    ensures r.states[j].q.shutdown && r.states[i].results <= r.states[j].results
    ensures Accepted(r.states[j].results) == Accepted(r.states[i].results)
    ensures forall k | |r.states[i].results| <= k < |r.states[j].results| :: r.states[j].results[k].code == -1
  {
    if i < j {
      NothingAfterShutdown(r, i, j - 1);
      assert Exec(r.states[j - 1], r.events[j - 1]) == Next(r.states[j]);
      RefusedStep(r.states[j - 1], r.events[j - 1]);
      ResultStep(r.states[j - 1], r.events[j - 1]);
    }
  }

  lemma ResultStep(s: State, e: Event)
    requires s.q.Valid() && s.q.shutdown && Exec(s, e).Next?
    ensures var s' := Exec(s, e).s;
            forall k | |s.results| <= k < |s'.results| :: s'.results[k].code == -1
  {}

  predicate AllGone(s: State) {
    forall w | 0 <= w < |s.workers| :: s.workers[w].mode.Gone?
  }

  /** Once all workers have returned, and so when threadpool_destroy frees the pool, the queue is
      empty and exactly the accepted tasks have been dequeued, in order, and run. */
  lemma Drained(r: Run, i: nat)
    requires IsRun(r) && i < |r.states| && (AllGone(r.states[i]) || r.states[i].destroy.Freed?)
    ensures var s := r.states[i];
            && s.q.Valid() && s.q.Contents() == [] && s.q.shutdown
            && s.taken == Accepted(s.results) && multiset(s.ran) == multiset(Accepted(s.results))
  {
    RunInv(r, i);
    var s := r.states[i];
    assert s.workers[0].mode.Gone?;
    NoneRunning(s.workers);
  }

  // ----- progress

  predicate Enabled(s: State, e: Event)
    requires s.q.Valid()
  {
    Exec(s, e).Next?
  }

  predicate OfWorker(e: Event, w: nat) { (e.Work? && e.w == w) || (e.Finish? && e.w == w) }

  /** A worker that neither sleeps nor has returned can always go on. */
  lemma WorkerGoesOn(s: State, w: nat) returns (e: Event)
    requires Inv(s) && !s.destroy.Freed? && w < |s.workers| && !s.workers[w].mode.Asleep? && !s.workers[w].mode.Gone?
    ensures OfWorker(e, w) && s.q.Valid() && Enabled(s, e)
  {
    if s.workers[w].mode.Outside? {
      e := Finish(w);
    } else {
      var woken := if WorkerSection(s.q).0.Go? then Sleepers(s.clients) else {};
      SleepersSignal(s.clients);
      e := Work(w, woken);
    }
  }

  function Sleepers(ts: seq<Thread>): (r: set<nat>) {
    set i: nat | i < |ts| && ts[i].mode.Asleep?
  }

  lemma SleepersSignal(ts: seq<Thread>)
    ensures Signals(ts, Sleepers(ts))
  {
    if i :| 0 <= i < |ts| && ts[i].mode.Asleep? { assert i in Sleepers(ts); }
  }

  /** A client that is about to take the mutex can always do so, until the pool is freed. */
  lemma ClientGoesOn(s: State, c: nat) returns (e: Event)
    requires s.q.Valid() && !s.destroy.Freed? && c < |s.clients| && AtLock(s.clients[c])
    ensures e.Submit? && e.c == c && Enabled(s, e)
  {
    var woken := if SubmitSection(s.q, s.clients[c].task).0.Go? then Sleepers(s.workers) else {};
    SleepersSignal(s.workers);
    e := Submit(c, woken);
  }

  lemma {:induction false} SomeAwake(ts: seq<Thread>) returns (i: nat)
    requires AwakeCount(ts) > 0
    ensures i < |ts| && ts[i].mode.Awake?
  {
    var n := |ts| - 1;
    if ts[n].mode.Awake? { i := n; } else { i := SomeAwake(ts[..n]); }
  }

  lemma FreedEmpty(s: State)
    requires Inv(s) && s.destroy.Freed?
    ensures s.q.size == 0
  {
    assert s.workers[0].mode.Gone?;
  }

  /** While tasks are queued, some worker can go on: the pool never stalls with work to do. */
  lemma WorkIsDone(r: Run, k: nat) returns (w: nat, e: Event)
    requires IsRun(r) && k < |r.states| && r.states[k].q.size > 0
    ensures OfWorker(e, w) && r.states[k].q.Valid() && Enabled(r.states[k], e)
  {
    var s := r.states[k];
    RunInv(r, k);
    if NoneAsleep(s.workers) {
      w := 0;
    } else {
      w := SomeAwake(s.workers);
    }
    if s.destroy.Freed? { FreedEmpty(s); }
    e := WorkerGoesOn(s, w);
  }

  /** While a submitter sleeps, another submitter that has been woken, or a worker, can go on. */
  lemma SubmittersAreServed(r: Run, k: nat) returns (e: Event)
    requires IsRun(r) && k < |r.states| && !NoneAsleep(r.states[k].clients)
    ensures r.states[k].q.Valid() && Enabled(r.states[k], e)
    ensures (exists w :: OfWorker(e, w)) || (e.Submit? && e.c < |r.states[k].clients| && r.states[k].clients[e.c].mode.Awake?)
  {
    var s := r.states[k];
    RunInv(r, k);
    if s.q.size > 0 {
      var w;
      w, e := WorkIsDone(r, k);
    } else {
      var c := SomeAwake(s.clients);
      SleepersSignal(s.workers);
      e := Submit(c, Sleepers(s.workers));
    }
  }

  // ----- threadpool_destroy returns

  function Weight(t: Thread): (r: nat) {
    match t.mode
    case Gone => 0
    case Outside => 2
    case _ => 1
  }

  function Weights(ts: seq<Thread>): (r: nat) {
    if ts == [] then 0 else Weights(ts[..|ts| - 1]) + Weight(ts[|ts| - 1])
  }

  /** A bound on the steps the workers still take after shutdown. */
  function Remaining(s: State): (r: nat) { 2 * s.q.size + Weights(s.workers) }

  predicate IsWorkerStep(e: Event) { e.Work? || e.Finish? }

  function WorkerSteps(es: seq<Event>): (r: nat) {
    if es == [] then 0 else WorkerSteps(es[..|es| - 1]) + One(IsWorkerStep(es[|es| - 1]))
  }

  lemma {:induction false} WeightsUpdate(ts: seq<Thread>, i: nat, t: Thread)
    requires i < |ts|
    ensures Weights(ts[i := t]) + Weight(ts[i]) == Weights(ts) + Weight(t)
  {
    var n := |ts| - 1;
    if i == n {
      assert ts[i := t][..n] == ts[..n];
    } else {
      assert ts[i := t][..n] == ts[..n][i := t];
      WeightsUpdate(ts[..n], i, t);
    }
  }

  lemma {:induction false} WeightsZero(ts: seq<Thread>)
    ensures Weights(ts) == 0 <==> forall i | 0 <= i < |ts| :: ts[i].mode.Gone?
  {
    if |ts| > 0 { WeightsZero(ts[..|ts| - 1]); }
  }

  lemma RemainingStep(s: State, e: Event)
    requires Inv(s) && s.q.shutdown && s.q.Valid() && Exec(s, e).Next?
    ensures Remaining(Exec(s, e).s) + One(IsWorkerStep(e)) <= Remaining(s)
  {
    hide Inv;
    if e.Work? {
      var task := s.q.slots[s.q.head];
      WeightsUpdate(s.workers, e.w, if s.q.size > 0 then Thread(Outside, task) else s.workers[e.w].(mode := Gone));
    } else if e.Finish? {
      WeightsUpdate(s.workers, e.w, s.workers[e.w].(mode := Enter));
    } else {
      assert NoneAsleep(s.workers) && !s.destroy.NotCalled? by { InvEnd(s); }
    }
  }

  lemma InvEnd(s: State)
    requires Inv(s) && s.q.shutdown
    ensures NoneAsleep(s.workers) && !s.destroy.NotCalled?
  {}

  /** After shutdown the workers take only boundedly many more steps, whatever the other threads do. */
  lemma {:induction false} ShutdownTerminates(r: Run, i: nat, j: nat)
    requires IsRun(r) && i <= j < |r.states| == |r.events| + 1 && r.states[i].q.shutdown
    ensures WorkerSteps(r.events[i..j]) + Remaining(r.states[j]) <= Remaining(r.states[i])
  {
    hide IsRun, Exec, Remaining, Inv;
    if i < j {
      ShutdownTerminates(r, i, j - 1);
      ShutdownStep(r, i, j - 1);
      WorkerStepsNext(r.events, i, j);
    }
  }

  lemma ShutdownStep(r: Run, i: nat, k: nat)
    requires IsRun(r) && i <= k < |r.events| && k + 1 < |r.states| && r.states[i].q.shutdown
    ensures Remaining(r.states[k + 1]) + One(IsWorkerStep(r.events[k])) <= Remaining(r.states[k])
  {
    NothingAfterShutdown(r, i, k);
    RunInv(r, k);
    assert Exec(r.states[k], r.events[k]) == Next(r.states[k + 1]);
    InvValid(r.states[k]);
    hide IsRun, Exec, Remaining, Inv, Accepted;
    RemainingStep(r.states[k], r.events[k]);
  }

  lemma WorkerStepsNext(es: seq<Event>, i: nat, j: nat)
    requires i < j <= |es|
    ensures WorkerSteps(es[i..j]) == WorkerSteps(es[i..j - 1]) + One(IsWorkerStep(es[j - 1]))
  {
    assert es[i..j][..j - 1 - i] == es[i..j - 1];
  }

  /** Until all workers have returned, each that has not can go on; then threadpool_destroy can. */
  lemma DestroyGoesOn(r: Run, k: nat, w: nat) returns (e: Event)
    requires IsRun(r) && k < |r.states| && r.states[k].destroy.Joining? && w < |r.states[k].workers|
    requires !r.states[k].workers[w].mode.Gone? || AllGone(r.states[k])
    ensures r.states[k].q.Valid() && Enabled(r.states[k], e)
    ensures if AllGone(r.states[k]) then e.Join? || e.Free? else OfWorker(e, w)
  {
    var s := r.states[k];
    RunInv(r, k);
    if AllGone(s) {
      e := if s.destroy.i < |s.workers| then Join else Free;
    } else {
      e := WorkerGoesOn(s, w);
    }
  }

  lemma RemainingZero(r: Run, k: nat)
    requires IsRun(r) && k < |r.states| && r.states[k].q.shutdown
    ensures Remaining(r.states[k]) == 0 <==> AllGone(r.states[k])
  {
    RunInv(r, k);
    WeightsZero(r.states[k].workers);
    if AllGone(r.states[k]) { assert r.states[k].workers[0].mode.Gone?; }
  }

  // ----- memory

  /** The pool is touched after it has been freed exactly when a thread that is still inside
      threadpool_submit then takes the mutex: never by a worker. */
  lemma FaultExactly(r: Run, k: nat, e: Event)
    requires IsRun(r) && k < |r.states|
    ensures var s := r.states[k];
            && s.q.Valid()
            && (Exec(s, e).Fault? <==> s.destroy.Freed? && e.Submit? && e.c < |s.clients| && AtLock(s.clients[e.c]))
  {
    RunInv(r, k);
  }

  predicate NobodyInSubmit(s: State) {
    forall c | 0 <= c < |s.clients| :: s.clients[c].mode.Outside?
  }

  lemma QuietStep(s: State, e: Event)
    requires s.q.Valid() && s.destroy.Freed? && NobodyInSubmit(s) && !e.Call? && Exec(s, e).Next?
    ensures var s' := Exec(s, e).s; s'.destroy.Freed? && NobodyInSubmit(s')
  {}

  /** If no submit call is in progress when the pool is freed and none starts later, nothing faults. */
  lemma {:induction false} QuietFree(r: Run, i: nat, j: nat)
    requires IsRun(r) && i <= j < |r.states| && r.states[i].destroy.Freed? && NobodyInSubmit(r.states[i])
    requires forall k | i <= k < j :: !r.events[k].Call?
    ensures r.states[j].destroy.Freed? && NobodyInSubmit(r.states[j])
    ensures forall e :: r.states[j].q.Valid() && !Exec(r.states[j], e).Fault?
  {
    if i < j {
      QuietFree(r, i, j - 1);
      assert Exec(r.states[j - 1], r.events[j - 1]) == Next(r.states[j]);
      QuietStep(r.states[j - 1], r.events[j - 1]);
    }
    var s := r.states[j];
    RunInv(r, j);
    forall e ensures !Exec(s, e).Fault? {
      FaultExactly(r, j, e);
      if e.Submit? && e.c < |s.clients| { assert s.clients[e.c].mode.Outside?; }
    }
  }

  /** Without a new call of threadpool_submit the pool can still be touched from here on after it has
      been freed. */
  ghost predicate FaultAhead(s: State) {
    exists r: Run, e: Event ::
      && Steps(r) && r.states[0] == s && (forall k | 0 <= k < |r.events| :: !r.events[k].Call?)
      && r.states[|r.events|].q.Valid() && Exec(r.states[|r.events|], e).Fault?
  }

  lemma {:induction false} StaysQuiet(r: Run, j: nat)
    requires Steps(r) && j < |r.states| && Inv(r.states[0]) && r.states[0].destroy.Freed? && NobodyInSubmit(r.states[0])
    requires forall k | 0 <= k < |r.events| :: !r.events[k].Call?
    ensures Inv(r.states[j]) && r.states[j].destroy.Freed? && NobodyInSubmit(r.states[j])
  {
    hide Inv, Exec;
    if j > 0 {
      StaysQuiet(r, j - 1);
      assert Exec(r.states[j - 1], r.events[j - 1]) == Next(r.states[j]);
      QuietStep(r.states[j - 1], r.events[j - 1]);
      StepKeeps(r.states[j - 1], r.events[j - 1]);
    }
  }

  lemma FaultsOnlyIn(s: State, e: Event)
    requires Inv(s) && s.q.Valid()
    ensures Exec(s, e).Fault? <==> s.destroy.Freed? && e.Submit? && e.c < |s.clients| && AtLock(s.clients[e.c])
  {}

  /** When the pool has just been freed, it can be touched later without a new call if and only if some
      client is still inside threadpool_submit. */
  lemma FaultAheadExactly(r: Run, i: nat)
    requires IsRun(r) && i < |r.states| && r.states[i].destroy.Freed?
    ensures FaultAhead(r.states[i]) <==> !NobodyInSubmit(r.states[i])
  {
    var s := r.states[i];
    RunInv(r, i);
    InvValid(s);
    if NobodyInSubmit(s) {
      forall p: Run, e: Event
        | Steps(p) && p.states[0] == s && (forall k | 0 <= k < |p.events| :: !p.events[k].Call?) && p.states[|p.events|].q.Valid()
        ensures !Exec(p.states[|p.events|], e).Fault?
      {
        StaysQuiet(p, |p.events|);
        FaultsOnlyIn(p.states[|p.events|], e);
      }
    } else {
      var c :| 0 <= c < |s.clients| && !s.clients[c].mode.Outside?;
      var p := Run([s], []);
      ClientsAwake(s, c);
      assert Steps(p) && Exec(p.states[|p.events|], Submit(c, {})).Fault?;
    }
  }

  /** A client that is inside threadpool_submit after shutdown is about to take the mutex. */
  lemma ClientsAwake(s: State, c: nat)
    requires Inv(s) && s.destroy.Freed? && c < |s.clients| && !s.clients[c].mode.Outside?
    ensures AtLock(s.clients[c])
  {}

  // ----- the submitters that threadpool_destroy does not wait for

  function RaceState(i: nat): (r: State) {
    var none, a, b := Task(0, 0), Task(1, 0), Task(2, 0);
    var ready, asleep := [Thread(Enter, none)], [Thread(Outside, a), Thread(Asleep, b)];
    var woken, done := [Thread(Outside, a), Thread(Awake, b)], [Return(a, 0)];
    match i
    case 0 => State(Shared([none], 0, 0, 0, false), ready, [Thread(Outside, none), Thread(Outside, none)], NotCalled, [], [], [])
    case 1 => State(Shared([none], 0, 0, 0, false), ready, [Thread(Enter, a), Thread(Outside, none)], NotCalled, [], [], [])
    case 2 => State(Shared([a], 0, 0, 1, false), ready, [Thread(Outside, a), Thread(Outside, none)], NotCalled, done, [], [])
    case 3 => State(Shared([a], 0, 0, 1, false), ready, [Thread(Outside, a), Thread(Enter, b)], NotCalled, done, [], [])
    case 4 => State(Shared([a], 0, 0, 1, false), ready, asleep, NotCalled, done, [], [])
    case 5 => State(Shared([a], 0, 0, 1, true), ready, woken, Joining(0), done, [], [])
    case 6 => State(Shared([a], 0, 0, 0, true), [Thread(Outside, a)], woken, Joining(0), done, [a], [])
    case 7 => State(Shared([a], 0, 0, 0, true), [Thread(Enter, a)], woken, Joining(0), done, [a], [a])
    case 8 => State(Shared([a], 0, 0, 0, true), [Thread(Gone, a)], woken, Joining(0), done, [a], [a])
    case 9 => State(Shared([a], 0, 0, 0, true), [Thread(Gone, a)], woken, Joining(1), done, [a], [a])
    case _ => State(Shared([a], 0, 0, 0, true), [Thread(Gone, a)], woken, Freed, done, [a], [a])
  }

  function RaceEvent(i: nat): (r: Event) {
    match i
    case 0 => Call(0, Task(1, 0))
    case 1 => Submit(0, {})
    case 2 => Call(1, Task(2, 0))
    case 3 => Submit(1, {})
    case 4 => Shutdown
    case 5 => Work(0, {})
    case 6 => Finish(0)
    case 7 => Work(0, {})
    case 8 => Join
    case 9 => Free
    case _ => Submit(1, {})
  }

  predicate RaceStepOk(i: nat) {
    RaceState(i).q.Valid() && Exec(RaceState(i), RaceEvent(i)) == Next(RaceState(i + 1))
  }

  lemma RaceSubmits()
    ensures RaceStepOk(1) && RaceStepOk(3)
  {
    assert Wake(RaceState(1).workers, {}) == RaceState(1).workers;
  }

  lemma RaceCalls()
    ensures RaceStepOk(0) && RaceStepOk(2)
  {}

  lemma RaceShutdown()
    ensures RaceStepOk(4)
  {
    var s := RaceState(4);
    assert WakeAll(s.workers) == s.workers && WakeAll(s.clients) == RaceState(5).clients;
  }

  lemma RaceWorks()
    ensures RaceStepOk(5) && RaceStepOk(7)
  {
    assert Wake(RaceState(5).clients, {}) == RaceState(5).clients;
  }

  lemma RaceEnds()
    ensures RaceStepOk(6) && RaceStepOk(8) && RaceStepOk(9)
  {}

  lemma RaceCreated()
    ensures exists n: int, m: int, clients: nat :: Create(n, m, clients) == Pool(RaceState(0))
  {
    var none := Task(0, 0);
    assert seq(1, _ => none) == [none];
    assert seq(1, _ => Thread(Enter, none)) == [Thread(Enter, none)];
    assert seq(2, _ => Thread(Outside, none)) == [Thread(Outside, none), Thread(Outside, none)];
    assert Create(1, 1, 2) == Pool(RaceState(0));
  }

  lemma RaceFaults()
    ensures RaceState(10).q.Valid() && Exec(RaceState(10), RaceEvent(10)).Fault?
    ensures RaceState(4).clients[1].mode.Asleep?
  {}

  function RaceRun(): (r: Run)
    ensures |r.states| == 11 && |r.events| == 10
    ensures forall i | 0 <= i < 11 :: r.states[i] == RaceState(i)
    ensures forall i | 0 <= i < 10 :: r.events[i] == RaceEvent(i)
  {
    Run(seq(11, i requires 0 <= i < 11 => RaceState(i)), seq(10, i requires 0 <= i < 10 => RaceEvent(i)))
  }

  lemma RaceSteps(r: Run)
    requires r == RaceRun()
    ensures Steps(r)
  {
    hide RaceState, RaceEvent, RaceRun, Exec;
    forall i | 0 <= i < |r.events|
      ensures r.states[i].q.Valid() && Exec(r.states[i], r.events[i]) == Next(r.states[i + 1])
    {
      RaceStep(i);
    }
  }

  lemma RaceStep(i: nat)
    requires i < 10
    ensures RaceStepOk(i)
  {
    hide RaceStepOk;
    RaceCalls();
    RaceSubmits();
    RaceShutdown();
    RaceWorks();
    RaceEnds();
  }

  /** threadpool_destroy does not wait for the submitters it wakes: here a client that slept in
      threadpool_submit takes the mutex of the freed pool, where it should have returned -1. */
  lemma DestroyRace() returns (r: Run, e: Event)
    ensures IsRun(r) && |r.states| == 11 && r.states[10].q.Valid() && Exec(r.states[10], e).Fault?
    ensures e.Submit? && e.c < |r.states[4].clients| && r.states[4].clients[e.c].mode.Asleep?
  {
    r, e := RaceRun(), RaceEvent(10);
    RaceSteps(r);
    RaceCreated();
    RaceFaults();
  }
}
