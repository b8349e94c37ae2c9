/** threadpool.c as a step system: workers, client threads that call threadpool_submit, and one
    thread that calls threadpool_destroy.

    Everything the threads share is read and written under pool->lock, so one critical section, from
    taking the mutex to releasing it or to waiting on a condition variable, is one step. Condition
    variables behave as POSIX.1 says: a signal wakes at least one of the threads waiting, if there
    are any; a broadcast wakes all; a waiting thread may also wake for no reason; a woken thread has
    to take the mutex again, and others may come first. */
module PoolMachine {
  import opened PoolQueue

  /** Outside: a worker running its task, or a client that is not in threadpool_submit.
      Enter: about to take the mutex. Asleep: waiting on the condition variable.
      Awake: woken, about to take the mutex again. Gone: a worker that has returned. */
  datatype Mode = Outside | Enter | Asleep | Awake | Gone

  datatype Thread = Thread(mode: Mode, task: Task)

  /** threadpool_destroy: not called; joining worker `i`; the pool is freed. */
  datatype Destroy = NotCalled | Joining(i: nat) | Freed

  /** What a call of threadpool_submit returned. */
  datatype Return = Return(task: Task, code: int)

  /** The pool and its threads; `results`, `taken` and `ran` record the submit calls that have
      returned, the tasks dequeued and the tasks run to the end, in that order. */
  datatype State = State(q: Shared, workers: seq<Thread>, clients: seq<Thread>, destroy: Destroy,
                         results: seq<Return>, taken: seq<Task>, ran: seq<Task>)

  datatype Event =
    | Call(c: nat, task: Task)             // a client calls threadpool_submit
    | Submit(c: nat, woken: set<nat>)      // its critical section, and the workers its signal wakes
    | Work(w: nat, woken: set<nat>)        // a worker's critical section, and the clients its signal wakes
    | Finish(w: nat)                       // a worker's task returns
    | WakeWorker(w: nat)                   // spurious wakeups
    | WakeClient(c: nat)
    | Shutdown                             // threadpool_destroy up to its unlock
    | Join                                 // it joins the next worker
    | Free                                 // it destroys the mutex and frees the pool

  datatype Outcome = Next(s: State) | Disabled | Fault

  predicate AtLock(t: Thread) { t.mode.Enter? || t.mode.Awake? }

  /** `woken` are the threads that one pthread_cond_signal may wake. */
  predicate Signals(ts: seq<Thread>, woken: set<nat>) {
    && (forall i | i in woken :: i < |ts| && ts[i].mode.Asleep?)
    && ((exists i | 0 <= i < |ts| :: ts[i].mode.Asleep?) ==> woken != {})
  }

  function Wake(ts: seq<Thread>, woken: set<nat>): (r: seq<Thread>)
    ensures |r| == |ts|
  {
    seq(|ts|, i requires 0 <= i < |ts| => if i in woken then ts[i].(mode := Awake) else ts[i])
  }

  function WakeAll(ts: seq<Thread>): (r: seq<Thread>)
    ensures |r| == |ts|
  {
    seq(|ts|, i requires 0 <= i < |ts| => if ts[i].mode.Asleep? then ts[i].(mode := Awake) else ts[i])
  }

  function To(ts: seq<Thread>, i: nat, mode: Mode): (r: seq<Thread>)
    requires i < |ts|
  {
    ts[i := ts[i].(mode := mode)]
  }

  function DoSubmit(s: State, c: nat, woken: set<nat>): (r: Outcome)
    requires c < |s.clients| && s.q.Valid()
  {
    if !AtLock(s.clients[c]) then Disabled
    else if s.destroy.Freed? then Fault
    else
      var task := s.clients[c].task;
      var (turn, q) := SubmitSection(s.q, task);
      match turn
      case Wait =>
        if woken != {} then Disabled else Next(s.(clients := To(s.clients, c, Asleep)))
      case Quit =>
        if woken != {} then Disabled
        else Next(s.(clients := To(s.clients, c, Outside), results := s.results + [Return(task, -1)]))
      case Go(_) =>
        if !Signals(s.workers, woken) then Disabled
        else Next(s.(q := q, clients := To(s.clients, c, Outside), workers := Wake(s.workers, woken),
                     results := s.results + [Return(task, 0)]))
  }

  function DoWork(s: State, w: nat, woken: set<nat>): (r: Outcome)
    requires w < |s.workers| && s.q.Valid()
  {
    if !AtLock(s.workers[w]) then Disabled
    else if s.destroy.Freed? then Fault
    else
      var (turn, q) := WorkerSection(s.q);
      match turn
      case Wait =>
        if woken != {} then Disabled else Next(s.(workers := To(s.workers, w, Asleep)))
      case Quit =>
        if woken != {} then Disabled else Next(s.(workers := To(s.workers, w, Gone)))
      case Go(task) =>
        if !Signals(s.clients, woken) then Disabled
        else Next(s.(q := q, workers := s.workers[w := Thread(Outside, task)], clients := Wake(s.clients, woken),
                     taken := s.taken + [task]))
  }

  function Exec(s: State, e: Event): (r: Outcome)
    requires s.q.Valid()
  {
    match e
    case Call(c, task) =>
      if c < |s.clients| && s.clients[c].mode.Outside? then Next(s.(clients := s.clients[c := Thread(Enter, task)]))
      else Disabled
    case Submit(c, woken) =>
      if c < |s.clients| then DoSubmit(s, c, woken) else Disabled
    case Work(w, woken) =>
      if w < |s.workers| then DoWork(s, w, woken) else Disabled
    case Finish(w) =>
      if w < |s.workers| && s.workers[w].mode.Outside? then
        Next(s.(workers := To(s.workers, w, Enter), ran := s.ran + [s.workers[w].task]))
      else Disabled
    case WakeWorker(w) =>
      if w < |s.workers| && s.workers[w].mode.Asleep? then
        if s.destroy.Freed? then Fault else Next(s.(workers := To(s.workers, w, Awake)))
      else Disabled
    case WakeClient(c) =>
      if c < |s.clients| && s.clients[c].mode.Asleep? then
        if s.destroy.Freed? then Fault else Next(s.(clients := To(s.clients, c, Awake)))
      else Disabled
    case Shutdown =>
      if s.destroy.NotCalled? then
        Next(s.(q := s.q.(shutdown := true), workers := WakeAll(s.workers), clients := WakeAll(s.clients), destroy := Joining(0)))
      else Disabled
    case Join =>
      if s.destroy.Joining? && s.destroy.i < |s.workers| && s.workers[s.destroy.i].mode.Gone? then
        Next(s.(destroy := Joining(s.destroy.i + 1)))
      else Disabled
    case Free =>
      if s.destroy.Joining? && s.destroy.i == |s.workers| then Next(s.(destroy := Freed)) else Disabled
  }

  datatype Created = Pool(s: State) | Null

  /** threadpool_create, with `clients` threads that may call threadpool_submit. */
  function Create(numThreads: int, queueCapacity: int, clients: nat): (r: Created) {
    if numThreads <= 0 || queueCapacity <= 0 then Null
    else
      var none := Task(0, 0);
      Pool(State(Shared(seq(queueCapacity, _ => none), 0, 0, 0, false), seq(numThreads, _ => Thread(Enter, none)),
                 seq(clients, _ => Thread(Outside, none)), NotCalled, [], [], []))
  }

  /** A run: consecutive states of a pool, each the outcome of one event. */
  datatype Run = Run(states: seq<State>, events: seq<Event>)

  ghost predicate Steps(r: Run) {
    && |r.states| == |r.events| + 1
    && forall i {:trigger r.events[i]} | 0 <= i < |r.events| ::
         r.states[i].q.Valid() && Exec(r.states[i], r.events[i]) == Next(r.states[i + 1])
  }

  ghost predicate IsRun(r: Run) {
    Steps(r) && exists n: int, m: int, clients: nat :: Create(n, m, clients) == Pool(r.states[0])
  }
}
