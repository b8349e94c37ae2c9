/** threadpool.c: the bounded ring of tasks behind the pool's mutex, and the critical sections of
    worker_thread, threadpool_submit and threadpool_destroy on it. */
module PoolQueue {
  datatype Task = Task(func: nat, arg: int)

  /** The fields of threadpool_t that the mutex protects. */
  datatype Shared = Shared(slots: seq<Task>, head: nat, tail: nat, size: nat, shutdown: bool) {
    function Capacity(): (r: nat) { |slots| }

    /** The slot `i` places after the head, going round at the end of the array. */
    function Index(i: nat): (r: int) {
      if head + i < Capacity() then head + i else head + i - Capacity()
    }

    predicate Valid() {
      head < Capacity() && tail < Capacity() && size <= Capacity() && tail == Index(size)
    }

    /** The queued tasks, oldest first. */
    function Contents(): (r: seq<Task>)
      requires Valid()
    {
      seq(size, i requires 0 <= i < size => slots[Index(i)])
    }
  }

  /** What a thread does at the end of its critical section. */
  datatype Turn = Wait | Quit | Go(task: Task)

  /** worker_thread, from holding the mutex to giving it up again. */
  function WorkerSection(q: Shared): (r: (Turn, Shared))
    requires q.Valid()
  {
    if q.size == 0 && !q.shutdown then (Wait, q)
    else if q.size == 0 && q.shutdown then (Quit, q)
    else (Go(q.slots[q.head]), q.(head := (q.head + 1) % q.Capacity(), size := q.size - 1))
  }

  /** threadpool_submit, from holding the mutex to giving it up again. */
  function SubmitSection(q: Shared, task: Task): (r: (Turn, Shared))
    requires q.Valid()
  {
    if q.size == q.Capacity() && !q.shutdown then (Wait, q)
    else if q.shutdown then (Quit, q)
    else
      (Go(task), q.(slots := q.slots[q.tail := task], tail := (q.tail + 1) % q.Capacity(), size := q.size + 1))
  }

  lemma Wrap(i: nat, n: nat)
    requires i < n
    ensures (i + 1) % n == if i + 1 < n then i + 1 else 0
  {
    if i + 1 == n { assert n == n * 1 + 0; }
  }

  /** The worker takes the oldest task. */
  lemma WorkerTakesOldest(q: Shared)
    requires q.Valid()
    ensures var (turn, q') := WorkerSection(q);
            && q'.Valid() && q'.Capacity() == q.Capacity() && q'.shutdown == q.shutdown
            && (turn.Wait? <==> q.Contents() == [] && !q.shutdown)
            && (turn.Quit? <==> q.Contents() == [] && q.shutdown)
            && q.Contents() == (if turn.Go? then [turn.task] else []) + q'.Contents()
  {
    var (turn, q') := WorkerSection(q);
    if turn.Go? {
      Wrap(q.head, q.Capacity());
      assert q.Contents() == [turn.task] + q'.Contents();
    }
  }

  /** A task that is accepted becomes the newest. */
  lemma SubmitAppends(q: Shared, task: Task)
    requires q.Valid()
    ensures var (turn, q') := SubmitSection(q, task);
            && q'.Valid() && q'.Capacity() == q.Capacity() && q'.shutdown == q.shutdown
            && (turn.Wait? <==> |q.Contents()| == q.Capacity() && !q.shutdown)
            && (turn.Quit? <==> q.shutdown)
            && (turn.Go? ==> turn.task == task)
            && q'.Contents() == q.Contents() + if turn.Go? then [task] else []
  {
    var (turn, q') := SubmitSection(q, task);
    if turn.Go? {
      Wrap(q.tail, q.Capacity());
      assert q'.Contents() == q.Contents() + [task];
    }
  }

  /** The pool's protected state, updated in place. */
  class Queue {
    const slots: array<Task>
    var head: nat
    var tail: nat
    var size: nat
    var shutdown: bool

    function View(): (r: Shared)
      reads this, slots
    {
      Shared(slots[..], head, tail, size, shutdown)
    }

    ghost predicate Valid()
      reads this, slots
    {
      View().Valid()
    }

    constructor (capacity: nat)
      requires capacity > 0
      ensures Valid() && fresh(slots) && slots.Length == capacity
      ensures View().Contents() == [] && !shutdown
    {
      slots := new Task[capacity](_ => Task(0, 0));
      head, tail, size, shutdown := 0, 0, 0, false;
      new;
    }

    method Work() returns (turn: Turn)
      requires Valid()
      modifies this
      ensures Valid() && (turn, View()) == WorkerSection(old(View()))
      ensures old(View().Contents()) == (if turn.Go? then [turn.task] else []) + View().Contents()
    {
      WorkerTakesOldest(View());
      if size == 0 && !shutdown { return Wait; }
      if size == 0 && shutdown { return Quit; }
      var task := slots[head];
      head := (head + 1) % slots.Length;
      size := size - 1;
      turn := Go(task);
    }

    method Submit(task: Task) returns (turn: Turn)
      requires Valid()
      modifies this, slots
      ensures Valid() && (turn, View()) == SubmitSection(old(View()), task)
      ensures View().Contents() == old(View().Contents()) + if turn.Go? then [task] else []
    {
      SubmitAppends(View(), task);
      if size == slots.Length && !shutdown { return Wait; }
      if shutdown { return Quit; }
      slots[tail] := task;
      tail := (tail + 1) % slots.Length;
      size := size + 1;
      turn := Go(task);
      assert slots[..] == old(slots[..])[old(tail) := task];
    }

    method Shutdown()
      requires Valid()
      modifies this
      ensures Valid() && View() == old(View()).(shutdown := true)
      ensures View().Contents() == old(View().Contents())
    {
      shutdown := true;
    }
  }
}
