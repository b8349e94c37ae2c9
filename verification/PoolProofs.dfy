/** What every step of the thread pool keeps. */
module PoolProofs {
  import opened PoolQueue
  import opened PoolMachine

  // ----- counting threads

  function One(b: bool): (r: nat) { if b then 1 else 0 }

  /** The threads that have been woken and have not yet looked at the queue again. */
  function AwakeCount(ts: seq<Thread>): (r: nat) {
    if ts == [] then 0 else AwakeCount(ts[..|ts| - 1]) + One(ts[|ts| - 1].mode.Awake?)
  }

  /** The tasks that workers are running. */
  function Running(ts: seq<Thread>): (r: multiset<Task>) {
    if ts == [] then multiset{}
    else Running(ts[..|ts| - 1]) + RunBy(ts[|ts| - 1])
  }

  function RunBy(t: Thread): (r: multiset<Task>) {
    if t.mode.Outside? then multiset{t.task} else multiset{}
  }

  lemma {:induction false} AwakeUpdate(ts: seq<Thread>, i: nat, t: Thread)
    requires i < |ts|
    ensures AwakeCount(ts[i := t]) + One(ts[i].mode.Awake?) == AwakeCount(ts) + One(t.mode.Awake?)
  {
    var n := |ts| - 1;
    if i == n {
      assert ts[i := t][..n] == ts[..n];
    } else {
      assert ts[i := t][..n] == ts[..n][i := t];
      AwakeUpdate(ts[..n], i, t);
    }
  }

  lemma {:induction false} RunningUpdate(ts: seq<Thread>, i: nat, t: Thread)
    requires i < |ts|
    ensures Running(ts[i := t]) + RunBy(ts[i]) == Running(ts) + RunBy(t)
  {
    hide RunBy;
    var n := |ts| - 1;
    var ts' := ts[i := t];
    if i == n {
      assert ts'[..n] == ts[..n];
      Swap(Running(ts[..n]), RunBy(t), RunBy(ts[n]));
    } else {
      assert ts'[..n] == ts[..n][i := t];
      RunningUpdate(ts[..n], i, t);
      Push(Running(ts'[..n]), RunBy(ts[i]), Running(ts[..n]), RunBy(t), RunBy(ts[n]));
    }
  }

  lemma Swap(x: multiset<Task>, b: multiset<Task>, d: multiset<Task>)
    ensures x + b + d == x + d + b
  {}

  lemma Push(x': multiset<Task>, a: multiset<Task>, x: multiset<Task>, b: multiset<Task>, c: multiset<Task>)
    requires x' + a == x + b
    ensures x' + c + a == x + c + b
  {
    Swap(x', c, a);
    Swap(x, c, b);
  }

  /** Taking a task and running it to the end keep the balance of taken, run and running tasks. */
  lemma TakeOne(taken: seq<Task>, ran: seq<Task>, x: multiset<Task>, x': multiset<Task>, task: Task)
    requires multiset(taken) == multiset(ran) + x && x' == x + multiset{task}
    ensures multiset(taken + [task]) == multiset(ran) + x'
  {}

  lemma RunOne(taken: seq<Task>, ran: seq<Task>, x: multiset<Task>, x': multiset<Task>, task: Task)
    requires multiset(taken) == multiset(ran) + x && x' + multiset{task} == x
    ensures multiset(taken) == multiset(ran + [task]) + x'
  {}

  /** Waking threads only adds to the count, and waking one that slept adds at least one. */
  lemma {:induction false} AwakeMore(ts: seq<Thread>, ts': seq<Thread>)
    requires |ts| == |ts'| && forall i | 0 <= i < |ts| :: ts[i].mode.Awake? ==> ts'[i].mode.Awake?
    ensures AwakeCount(ts) <= AwakeCount(ts')
    ensures (exists i | 0 <= i < |ts| :: ts'[i].mode.Awake? && !ts[i].mode.Awake?) ==> AwakeCount(ts) < AwakeCount(ts')
  {
    if |ts| > 0 {
      var n := |ts| - 1;
      AwakeMore(ts[..n], ts'[..n]);
      if i :| 0 <= i < |ts| && ts'[i].mode.Awake? && !ts[i].mode.Awake? && i < n {
        assert ts'[..n][i].mode.Awake? && !ts[..n][i].mode.Awake?;
      }
    }
  }

  lemma {:induction false} SameRunning(ts: seq<Thread>, ts': seq<Thread>)
    requires |ts| == |ts'| && forall i | 0 <= i < |ts| :: RunBy(ts[i]) == RunBy(ts'[i])
    ensures Running(ts) == Running(ts')
  {
    if |ts| > 0 { SameRunning(ts[..|ts| - 1], ts'[..|ts| - 1]); }
  }

  lemma StillRunning(ts: seq<Thread>, i: nat, t: Thread)
    requires i < |ts| && !ts[i].mode.Outside? && !t.mode.Outside?
    ensures Running(ts[i := t]) == Running(ts)
  {
    SameRunning(ts[i := t], ts);
  }

  lemma StartsRunning(ts: seq<Thread>, i: nat, task: Task)
    requires i < |ts| && !ts[i].mode.Outside?
    ensures Running(ts[i := Thread(Outside, task)]) == Running(ts) + multiset{task}
  {
    RunningUpdate(ts, i, Thread(Outside, task));
  }

  // ----- the invariant

  /** No wakeup is lost: while somebody sleeps, those woken and still to look suffice for `n` items. */
  ghost predicate Covered(ts: seq<Thread>, n: int) {
    (exists i | 0 <= i < |ts| :: ts[i].mode.Asleep?) ==> AwakeCount(ts) >= n
  }

  ghost predicate NoneAsleep(ts: seq<Thread>) {
    forall i | 0 <= i < |ts| :: !ts[i].mode.Asleep?
  }

  /** The tasks whose submit returned 0, in the order in which they were accepted. */
  function Accepted(rs: seq<Return>): (r: seq<Task>) {
    if rs == [] then []
    else Accepted(rs[..|rs| - 1]) + if rs[|rs| - 1].code == 0 then [rs[|rs| - 1].task] else []
  }

  ghost predicate QueueInv(s: State) {
    && s.q.Valid()
    && Accepted(s.results) == s.taken + s.q.Contents()
    && multiset(s.taken) == multiset(s.ran) + Running(s.workers)
  }

  ghost predicate WakeInv(s: State) {
    && Covered(s.workers, s.q.size)
    && Covered(s.clients, s.q.Capacity() - s.q.size)
    && (s.q.shutdown ==> NoneAsleep(s.workers) && NoneAsleep(s.clients))
  }

  ghost predicate EndInv(s: State) {
    && (s.q.shutdown <==> !s.destroy.NotCalled?)
    && (forall i | 0 <= i < |s.workers| && s.workers[i].mode.Gone? :: s.q.shutdown && s.q.size == 0)
    && (s.destroy.Joining? ==> s.destroy.i <= |s.workers|)
    && (forall i | 0 <= i < |s.workers| && (s.destroy.Freed? || (s.destroy.Joining? && i < s.destroy.i)) :: s.workers[i].mode.Gone?)
    && (forall i | 0 <= i < |s.clients| :: !s.clients[i].mode.Gone?)
    && |s.workers| > 0 && s.q.Capacity() > 0
  }

  ghost predicate Inv(s: State) { QueueInv(s) && WakeInv(s) && EndInv(s) }

  // ----- single threads change

  lemma ToCovered(ts: seq<Thread>, i: nat, t: Thread, n: int, n': int)
    requires i < |ts| && Covered(ts, n)
    requires if t.mode.Asleep? then n' <= 0 else n' <= n + One(t.mode.Awake?) - One(ts[i].mode.Awake?)
    ensures Covered(ts[i := t], n')
  {
    AwakeUpdate(ts, i, t);
    var ts' := ts[i := t];
    if j :| 0 <= j < |ts'| && ts'[j].mode.Asleep? {
      if !t.mode.Asleep? { assert j != i && ts[j].mode.Asleep?; }
    }
  }

  /** A signal makes up for one more item. */
  lemma SignalCovered(ts: seq<Thread>, woken: set<nat>, n: int)
    requires Covered(ts, n) && Signals(ts, woken)
    ensures Covered(Wake(ts, woken), n + 1)
  {
    var ts' := Wake(ts, woken);
    AwakeMore(ts, ts');
    if j :| 0 <= j < |ts| && ts'[j].mode.Asleep? {
      assert ts[j].mode.Asleep?;
      var i :| i in woken;
      assert ts'[i].mode.Awake? && !ts[i].mode.Awake?;
    }
  }

  lemma WakeNone(ts: seq<Thread>, woken: set<nat>)
    requires Signals(ts, woken)
    ensures var ts' := Wake(ts, woken);
            && (NoneAsleep(ts) ==> ts' == ts)
            && Running(ts') == Running(ts)
            && (forall i | 0 <= i < |ts| :: ts'[i].mode.Gone? <==> ts[i].mode.Gone?)
  {
    if NoneAsleep(ts) { assert Wake(ts, woken) == ts; }
    SameRunning(ts, Wake(ts, woken));
  }

  lemma WakeAllFacts(ts: seq<Thread>)
    ensures NoneAsleep(WakeAll(ts)) && Running(WakeAll(ts)) == Running(ts)
    ensures forall i | 0 <= i < |ts| :: WakeAll(ts)[i].mode.Gone? <==> ts[i].mode.Gone?
  {
    var ts' := WakeAll(ts);
    forall i | 0 <= i < |ts| ensures RunBy(ts'[i]) == RunBy(ts[i]) {}
    hide Running, WakeAll, RunBy;
    SameRunning(ts', ts);
  }

  lemma NoneCovered(ts: seq<Thread>, n: int)
    requires NoneAsleep(ts)
    ensures Covered(ts, n)
  {}

  lemma AcceptedNext(rs: seq<Return>, r: Return)
    ensures Accepted(rs + [r]) == Accepted(rs) + if r.code == 0 then [r.task] else []
  {
    assert (rs + [r])[..|rs|] == rs;
  }

  lemma CreateInv(n: int, m: int, clients: nat)
    ensures var c := Create(n, m, clients); c.Pool? ==> Inv(c.s)
  {
    var c := Create(n, m, clients);
    if c.Pool? {
      NoneCovered(c.s.workers, 0);
      NoneRunning(c.s.workers);
    }
  }

  lemma {:induction false} NoneRunning(ts: seq<Thread>)
    requires forall i | 0 <= i < |ts| :: !ts[i].mode.Outside?
    ensures Running(ts) == multiset{}
  {
    if |ts| > 0 { NoneRunning(ts[..|ts| - 1]); }
  }

  // ----- each step keeps the invariant

  lemma SubmitQueue(s: State, c: nat, woken: set<nat>)
    requires QueueInv(s) && c < |s.clients| && DoSubmit(s, c, woken).Next?
    ensures QueueInv(DoSubmit(s, c, woken).s)
  {
    var task := s.clients[c].task;
    var (turn, q) := SubmitSection(s.q, task);
    SubmitAppends(s.q, task);
    hide Running, Accepted, Wake, Shared.Contents, Shared.Valid, SubmitSection, Signals;
    match turn
    case Wait =>
    case Quit => AcceptedNext(s.results, Return(task, -1));
    case Go(_) =>
      AcceptedNext(s.results, Return(task, 0));
      WakeNone(s.workers, woken);
      assert s.taken + (s.q.Contents() + [task]) == s.taken + s.q.Contents() + [task];
  }

  lemma SubmitWake(s: State, c: nat, woken: set<nat>)
    requires s.q.Valid() && WakeInv(s) && c < |s.clients| && DoSubmit(s, c, woken).Next?
    ensures WakeInv(DoSubmit(s, c, woken).s)
  {
    var n, s' := s.q.Capacity() - s.q.size, DoSubmit(s, c, woken).s;
    hide AwakeCount, Covered, Wake, Shared.Valid;
    match SubmitSection(s.q, s.clients[c].task).0
    case Wait =>
      ToCovered(s.clients, c, s.clients[c].(mode := Asleep), n, n);
    case Quit =>
      NoneCovered(s'.clients, n);
    case Go(_) =>
      SignalCovered(s.workers, woken, s.q.size);
      WakeNone(s.workers, woken);
      ToCovered(s.clients, c, s.clients[c].(mode := Outside), n, n - 1);
  }

  lemma SubmitEnd(s: State, c: nat, woken: set<nat>)
    requires s.q.Valid() && EndInv(s) && c < |s.clients| && DoSubmit(s, c, woken).Next?
    ensures EndInv(DoSubmit(s, c, woken).s)
  {
    if Signals(s.workers, woken) { WakeNone(s.workers, woken); }
    hide Wake, Running;
  }

  lemma WorkQueue(s: State, w: nat, woken: set<nat>)
    requires QueueInv(s) && w < |s.workers| && DoWork(s, w, woken).Next?
    ensures QueueInv(DoWork(s, w, woken).s)
  {
    WorkerTakesOldest(s.q);
    var (turn, q) := WorkerSection(s.q);
    hide Running, Accepted, Wake, Shared.Contents, Shared.Valid;
    match turn
    case Wait => StillRunning(s.workers, w, s.workers[w].(mode := Asleep));
    case Quit => StillRunning(s.workers, w, s.workers[w].(mode := Gone));
    case Go(task) =>
      StartsRunning(s.workers, w, task);
      TakeOne(s.taken, s.ran, Running(s.workers), Running(s.workers[w := Thread(Outside, task)]), task);
      assert s.taken + ([task] + q.Contents()) == (s.taken + [task]) + q.Contents();
  }

  lemma WorkWake(s: State, w: nat, woken: set<nat>)
    requires s.q.Valid() && WakeInv(s) && w < |s.workers| && DoWork(s, w, woken).Next?
    ensures WakeInv(DoWork(s, w, woken).s)
  {
    var n, s' := s.q.Capacity() - s.q.size, DoWork(s, w, woken).s;
    hide AwakeCount, Covered, Wake, Shared.Valid;
    match WorkerSection(s.q).0
    case Wait =>
      ToCovered(s.workers, w, s.workers[w].(mode := Asleep), 0, 0);
    case Quit =>
      NoneCovered(s'.workers, 0);
    case Go(task) =>
      ToCovered(s.workers, w, Thread(Outside, task), s.q.size, s.q.size - 1);
      SignalCovered(s.clients, woken, n);
      WakeNone(s.clients, woken);
  }

  lemma WorkEnd(s: State, w: nat, woken: set<nat>)
    requires s.q.Valid() && EndInv(s) && w < |s.workers| && DoWork(s, w, woken).Next?
    ensures EndInv(DoWork(s, w, woken).s)
  {
    if Signals(s.clients, woken) { WakeNone(s.clients, woken); }
    hide Wake, Running, Signals, Shared.Valid;
  }

  lemma FinishKeeps(s: State, w: nat)
    requires Inv(s) && Exec(s, Finish(w)).Next?
    ensures Inv(Exec(s, Finish(w)).s)
  {
    FinishQueue(s, w);
    var s', t := Exec(s, Finish(w)).s, s.workers[w].(mode := Enter);
    hide QueueInv, AwakeCount, Shared.Valid;
    ToCovered(s.workers, w, t, s.q.size, s.q.size);
    hide Covered;
  }

  lemma FinishQueue(s: State, w: nat)
    requires QueueInv(s) && Exec(s, Finish(w)).Next?
    ensures QueueInv(Exec(s, Finish(w)).s)
  {
    hide Running, Accepted, Shared.Contents, Shared.Valid;
    var t := s.workers[w].(mode := Enter);
    RunningUpdate(s.workers, w, t);
    RunOne(s.taken, s.ran, Running(s.workers), Running(s.workers[w := t]), s.workers[w].task);
  }

  lemma OtherKeeps(s: State, e: Event)
    requires Inv(s) && Exec(s, e).Next? && !e.Submit? && !e.Work? && !e.Finish?
    ensures Inv(Exec(s, e).s)
  {
    hide Running, AwakeCount, Accepted, Shared.Valid, Covered;
    var n := s.q.Capacity() - s.q.size;
    match e
    case Call(c, task) => ToCovered(s.clients, c, Thread(Enter, task), n, n);
    case WakeWorker(w) =>
      ToCovered(s.workers, w, s.workers[w].(mode := Awake), s.q.size, s.q.size);
      StillRunning(s.workers, w, s.workers[w].(mode := Awake));
    case WakeClient(c) => ToCovered(s.clients, c, s.clients[c].(mode := Awake), n, n);
    case Shutdown => ShutdownKeeps(s);
    case Join =>
    case Free =>
  }

  lemma ShutdownKeeps(s: State)
    requires Inv(s) && Exec(s, Shutdown).Next?
    ensures Inv(Exec(s, Shutdown).s)
  {
    hide AwakeCount, Running, Accepted, Covered, WakeAll;
    var s' := Exec(s, Shutdown).s;
    WakeAllFacts(s.workers);
    WakeAllFacts(s.clients);
    NoneCovered(s'.workers, s.q.size);
    NoneCovered(s'.clients, s.q.Capacity() - s.q.size);
    SameContents(s.q);
    hide Shared.Contents, Shared.Valid, NoneAsleep;
  }

  lemma SameContents(q: Shared)
    requires q.Valid()
    ensures var q' := q.(shutdown := true); q'.Valid() && q'.Contents() == q.Contents()
  {
    assert q.(shutdown := true).Contents() == q.Contents();
  }

  lemma InvValid(s: State)
    ensures Inv(s) ==> s.q.Valid()
  {}

  /** Every step of every thread keeps the invariant. */
  lemma StepKeeps(s: State, e: Event)
    requires s.q.Valid() && Inv(s) && Exec(s, e).Next?
    ensures Inv(Exec(s, e).s)
  {
    match e
    case Submit(c, woken) =>
      hide QueueInv, WakeInv, EndInv, DoSubmit;
      assert s.q.Valid() by { InvValid(s); }
      SubmitQueue(s, c, woken);
      SubmitWake(s, c, woken);
      SubmitEnd(s, c, woken);
    case Work(w, woken) =>
      hide QueueInv, WakeInv, EndInv, DoWork;
      assert s.q.Valid() by { InvValid(s); }
      WorkQueue(s, w, woken);
      WorkWake(s, w, woken);
      WorkEnd(s, w, woken);
    case Finish(w) => FinishKeeps(s, w);
    case _ => OtherKeeps(s, e);
  }

  lemma {:induction false} RunInv(r: Run, i: nat)
    requires IsRun(r) && i < |r.states|
    ensures Inv(r.states[i])
  {
    if i == 0 {
      var n, m, clients :| Create(n, m, clients) == Pool(r.states[0]);
      CreateInv(n, m, clients);
    } else {
      RunInv(r, i - 1);
      assert Exec(r.states[i - 1], r.events[i - 1]) == Next(r.states[i]);
      StepKeeps(r.states[i - 1], r.events[i - 1]);
    }
  }
}
