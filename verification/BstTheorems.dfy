/** What follows for whole runs of the tree: linearizability, memory safety, absence of deadlock. */
module BstTheorems {
  import opened BstTree
  import opened BstEdits
  import opened BstMachine
  import opened BstInvariant
  import opened BstSteps
  import opened BstCases
  import opened BstDeletes

  // ----- runs

  lemma InitInv(s: State)
    requires Init(s)
    ensures Inv(s, Leaf)
  {}

  ghost predicate Explains(r: Run, trees: seq<Tree>) {
    && |r.states| == |r.who| + 1 && |r.choices| == |r.who| && |trees| == |r.states| && trees[0] == Leaf
    && (forall i | 0 <= i < |r.states| :: Inv(r.states[i], trees[i]))
    && (forall i {:trigger r.who[i]} | 0 <= i < |r.who| ::
          r.who[i] in r.states[i].threads
          && Kept(r.states[i], trees[i], r.who[i], Exec(r.states[i], r.who[i], r.choices[i]), trees[i + 1]))
  }

  function Prefix(r: Run): (res: Run)
    requires |r.who| > 0 && |r.states| == |r.who| + 1 && |r.choices| == |r.who|
  {
    Run(r.states[..|r.who|], r.who[..|r.who| - 1], r.choices[..|r.who| - 1])
  }

  lemma {:induction false} RunTrees(r: Run) returns (trees: seq<Tree>)
    requires IsRun(r)
    ensures Explains(r, trees)
    decreases |r.who|
  {
    hide Inv, Kept, Exec, Init;
    if |r.who| == 0 {
      InitInv(r.states[0]);
      trees := [Leaf];
    } else {
      var n := |r.who| - 1;
      var p := Prefix(r);
      assert r.who[n] in r.states[n].threads;
      forall i {:trigger p.who[i]} | 0 <= i < |p.who| ensures
        p.who[i] in p.states[i].threads && Exec(p.states[i], p.who[i], p.choices[i]) == Next(p.states[i + 1])
      {
        assert p.who[i] == r.who[i];
      }
      var before := RunTrees(p);
      var T' := StepKeeps(r.states[n], before[n], r.who[n], r.choices[n]);
      trees := before + [T'];
      KeptInv(r.states[n], before[n], r.who[n], Exec(r.states[n], r.who[n], r.choices[n]), T');
      forall i {:trigger r.who[i]} | 0 <= i < |r.who| ensures
        r.who[i] in r.states[i].threads
        && Kept(r.states[i], trees[i], r.who[i], Exec(r.states[i], r.who[i], r.choices[i]), trees[i + 1])
      {
        if i < n { assert p.who[i] == r.who[i]; }
      }
    }
  }

  lemma KeptInv(s: State, T: Tree, t: Tid, o: Outcome, T': Tree)
    requires t in s.threads && Kept(s, T, t, o, T') && o.Next?
    ensures Inv(o.s, T')
  {
    hide Inv;
  }

  // ----- linearizability

  /** The atomic map object: its contents, and where each thread stands with its operation. */
  datatype AState = AState(m: map<int, int>, status: map<Tid, Status>)

  ghost predicate AStep(a: AState, t: Tid, a': AState) {
    && t in a.status && t in a'.status && a'.status == a.status[t := a'.status[t]]
    && Effect(a.m, a.status[t], a'.m, a'.status[t])
  }

  ghost predicate IsAtomicRun(abs: seq<AState>, who: seq<Tid>) {
    && |abs| == |who| + 1 && abs[0].m == map[]
    && (forall t | t in abs[0].status :: abs[0].status[t] == Quiet)
    && (forall i {:trigger who[i]} | 0 <= i < |who| :: AStep(abs[i], who[i], abs[i + 1]))
  }

  function Abstract(s: State, T: Tree): (r: AState) {
    AState(Contents(T), map t | t in s.threads :: StatusOf(s.threads[t]))
  }

  /** Every run of the tree, whatever the interleaving, is step by step a run of the atomic map with
      the same calls, the same returns and the same results: statuses agree at every point. */
  lemma Linearizable(r: Run) returns (abs: seq<AState>, trees: seq<Tree>)
    requires IsRun(r)
    ensures IsAtomicRun(abs, r.who)
    ensures forall i, t | 0 <= i < |r.states| && t in r.states[i].threads ::
              t in abs[i].status && abs[i].status[t] == StatusOf(r.states[i].threads[t])
    ensures Explains(r, trees)
    ensures forall i | 0 <= i < |r.states| :: abs[i].m == Contents(trees[i])
  {
    hide Inv, Exec, Effect, StatusOf, Contents, Kept;
    trees := RunTrees(r);
    var ts := trees;
    abs := seq(|r.states|, i requires 0 <= i < |r.states| => Abstract(r.states[i], ts[i]));
    forall i {:trigger r.who[i]} | 0 <= i < |r.who| ensures AStep(abs[i], r.who[i], abs[i + 1]) {
      assert Exec(r.states[i], r.who[i], r.choices[i]) == Next(r.states[i + 1]);
      KeptAStep(r.states[i], trees[i], r.who[i], r.states[i + 1], trees[i + 1]);
    }
    LeafContents();
    IdleQuiet();
  }

  lemma LeafContents()
    ensures Contents(Leaf) == map[]
  {}

  lemma IdleQuiet()
    ensures StatusOf(Idle) == Quiet
  {}

  lemma KeptAStep(s: State, T: Tree, t: Tid, s': State, T': Tree)
    requires t in s.threads && Kept(s, T, t, Next(s'), T')
    ensures AStep(Abstract(s, T), t, Abstract(s', T'))
  {
    hide Inv, Effect, StatusOf, Contents;
    var a, a' := Abstract(s, T), Abstract(s', T');
    assert a'.status == a.status[t := a'.status[t]];
  }

  /** The sequential map as a function: what an operation answers and leaves, where `room` says whether
      malloc has memory for a new node. */
  function Apply(m: map<int, int>, op: Op, room: bool): (r: (Result, map<int, int>)) {
    match op
    case Insert(k, v) =>
      if k in m then (Duplicate, m) else if room then (Inserted, m[k := v]) else (NoMemory, m)
    case Lookup(k) => (if k in m then Hit(m[k]) else Missing, m)
    case Delete(k) => (if k in m then Deleted else Missing, m - {k})
  }

  /** An idle thread starts the operation that is asked for. An insertion answers that there is no memory
      only if malloc has failed, and that it was made only if malloc has not. */
  lemma AnswerOf(s: State, t: Tid, c: Choice)
    requires t in s.threads && Exec(s, t, c).Next?
    ensures t in Exec(s, t, c).s.threads
    ensures var a, a' := StatusOf(s.threads[t]), StatusOf(Exec(s, t, c).s.threads[t]);
            && (a.Quiet? ==> a' == Pending(c.op))
            && (a.Pending? && a'.Done? && a'.res.NoMemory? ==> c.alloc == NULL)
            && (a.Pending? && a'.Done? && a'.res.Inserted? ==> c.alloc != NULL)
  {}

  ghost predicate IsAnswer(a: AState, t: Tid, c: Choice, a': AState) {
    && t in a.status && t in a'.status
    && (a.status[t].Quiet? ==> a'.status[t] == Pending(c.op))
    && (a.status[t].Pending? && a'.status[t].Done? ==>
          (a'.status[t].res, a'.m) == Apply(a.m, a.status[t].op, c.alloc != NULL))
  }

  lemma AnswerStep(s: State, t: Tid, c: Choice, s': State, a: AState, a': AState)
    requires t in s.threads && Exec(s, t, c) == Next(s') && AStep(a, t, a')
    requires a.status[t] == StatusOf(s.threads[t]) && t in s'.threads && a'.status[t] == StatusOf(s'.threads[t])
    ensures IsAnswer(a, t, c, a')
  {
    AnswerOf(s, t, c);
    hide Exec, StatusOf;
  }

  /** The atomic run is determined by the calls and by malloc. A call starts the operation that is asked
      for. When an operation takes effect, its answer and its change are what the map makes of it, given
      whether malloc has memory in that step. So while malloc does not fail, an insertion is made if and
      only if its key is absent. */
  lemma Determined(r: Run) returns (abs: seq<AState>, trees: seq<Tree>)
    requires IsRun(r)
    ensures IsAtomicRun(abs, r.who) && Explains(r, trees)
    ensures forall i, t | 0 <= i < |r.states| && t in r.states[i].threads ::
              t in abs[i].status && abs[i].status[t] == StatusOf(r.states[i].threads[t])
    ensures forall i | 0 <= i < |r.states| :: abs[i].m == Contents(trees[i])
    ensures forall i {:trigger r.who[i]} | 0 <= i < |r.who| :: IsAnswer(abs[i], r.who[i], r.choices[i], abs[i + 1])
  {
    hide Inv, Exec, Effect, StatusOf, Contents, Kept, IsAnswer, AStep, Init;
    abs, trees := Linearizable(r);
    forall i {:trigger r.who[i]} | 0 <= i < |r.who| ensures IsAnswer(abs[i], r.who[i], r.choices[i], abs[i + 1]) {
      assert Exec(r.states[i], r.who[i], r.choices[i]) == Next(r.states[i + 1]);
      assert AStep(abs[i], r.who[i], abs[i + 1]);
      assert r.who[i] in r.states[i + 1].threads by { AnswerOf(r.states[i], r.who[i], r.choices[i]); }
      AnswerStep(r.states[i], r.who[i], r.choices[i], r.states[i + 1], abs[i], abs[i + 1]);
    }
  }

  /** In the atomic object an operation takes effect exactly once, between its call and its return,
      and what it returns is what the map answered at that moment. */
  lemma {:induction false} TakesEffectOnce(abs: seq<AState>, who: seq<Tid>, t: Tid, j: nat) returns (call: nat, effect: nat)
    requires IsAtomicRun(abs, who) && j < |abs| && t in abs[j].status && abs[j].status[t].Done?
    ensures call < effect < j && who[call] == t && who[effect] == t
    ensures forall i | call <= i <= j :: t in abs[i].status
    ensures var Done(op, res) := abs[j].status[t];
            && abs[call].status[t] == Quiet
            && (forall i | call < i <= effect :: abs[i].status[t] == Pending(op))
            && Spec(abs[effect].m, op, res, abs[effect + 1].m)
            && (forall i | effect < i <= j :: abs[i].status[t] == Done(op, res))
  {
    assert AStep(abs[j - 1], who[j - 1], abs[j]);
    if abs[j - 1].status[t].Done? {
      call, effect := TakesEffectOnce(abs, who, t, j - 1);
    } else {
      effect := j - 1;
      call := Called(abs, who, t, effect);
    }
  }

  lemma {:induction false} Called(abs: seq<AState>, who: seq<Tid>, t: Tid, j: nat) returns (call: nat)
    requires IsAtomicRun(abs, who) && j < |abs| && t in abs[j].status && abs[j].status[t].Pending?
    ensures call < j && who[call] == t
    ensures forall i | call <= i <= j :: t in abs[i].status
    ensures abs[call].status[t] == Quiet
    ensures forall i | call < i <= j :: abs[i].status[t] == abs[j].status[t]
  {
    assert AStep(abs[j - 1], who[j - 1], abs[j]);
    if abs[j - 1].status[t].Pending? { call := Called(abs, who, t, j - 1); } else { call := j - 1; }
  }

  /** The sequential history: the operations in the order in which they took effect. */
  datatype Entry = Entry(t: Tid, op: Op, res: Result)

  function History(abs: seq<AState>, who: seq<Tid>, n: nat): (r: seq<Entry>)
    requires |abs| == |who| + 1 && n < |abs|
  {
    if n == 0 then []
    else
      var before, t := History(abs, who, n - 1), who[n - 1];
      if t in abs[n - 1].status && t in abs[n].status && abs[n - 1].status[t].Pending? && abs[n].status[t].Done?
      then before + [Entry(t, abs[n].status[t].op, abs[n].status[t].res)]
      else before
  }

  function Replay(w: seq<Entry>): (r: map<int, int>) {
    if w == [] then map[]
    else
      var m, last := Replay(w[..|w| - 1]), w[|w| - 1];
      match last.res
      case Inserted => if last.op.Insert? then m[last.op.key := last.op.value] else m
      case Deleted => m - {last.op.key}
      case _ => m
  }

  /** Every entry is what the sequential map, starting empty, would do next. */
  ghost predicate Legal(w: seq<Entry>) {
    w == [] ||
    var before, last := w[..|w| - 1], w[|w| - 1];
    Legal(before) && Spec(Replay(before), last.op, last.res, Replay(w))
  }

  lemma {:induction false} HistoryReplays(abs: seq<AState>, who: seq<Tid>, n: nat)
    requires IsAtomicRun(abs, who) && n < |abs|
    ensures Legal(History(abs, who, n)) && Replay(History(abs, who, n)) == abs[n].m
  {
    if n > 0 {
      HistoryReplays(abs, who, n - 1);
      assert AStep(abs[n - 1], who[n - 1], abs[n]);
      var w, before := History(abs, who, n), History(abs, who, n - 1);
      hide Legal, Replay;
      if w != before { ReplaysMore(before, w[|w| - 1], abs[n - 1].m, abs[n].m); }
    }
  }

  lemma ReplaysMore(before: seq<Entry>, e: Entry, m: map<int, int>, m': map<int, int>)
    requires Legal(before) && Replay(before) == m && Spec(m, e.op, e.res, m')
    ensures Legal(before + [e]) && Replay(before + [e]) == m'
  {
    var w := before + [e];
    assert w[..|w| - 1] == before;
    assert Replay(w) == m';
  }

  /** Whenever no thread is in the middle of copying a successor, the raw heap spells out the tree;
      when all threads are idle it holds nothing else, and no lock is held. */
  lemma Settled(s: State, T: Tree)
    requires Inv(s, T)
    ensures (forall t | t in s.threads :: !Mid(s.threads[t])) ==> Represents(T, s.heap, s.root)
    ensures (forall t | t in s.threads :: s.threads[t].Idle?) ==> s.heap.Keys == Ids(T) && s.owner == map[]
  {
    hide GoodPC, NobodyOn, MidOK, Represents, Ordered;
    if forall t | t in s.threads :: !Mid(s.threads[t]) {
      assert Logical(s) == s.heap;
    }
  }

  /** What the returned code tells the caller: 0 for an insertion that was made, and for a lookup or
      deletion of a key that was there; after -1 nothing has changed. */
  lemma CodesTell(abs: seq<AState>, who: seq<Tid>, t: Tid, j: nat) returns (effect: nat)
    requires IsAtomicRun(abs, who) && j < |abs| && t in abs[j].status && abs[j].status[t].Done?
    ensures effect < j
    ensures var op, m, m' := abs[j].status[t].op, abs[effect].m, abs[effect + 1].m;
            if Code(abs[j].status[t].res) != 0 then m' == m && (op.Insert? || op.key !in m)
            else match op
              case Insert(k, v) => k !in m && m' == m[k := v]
              case Lookup(k) => k in m && m' == m && abs[j].status[t].res == Hit(m[k])
              case Delete(k) => k in m && m' == m - {k}
  {
    var call;
    call, effect := TakesEffectOnce(abs, who, t, j);
  }

  // ----- memory safety

  /** The lock a thread is trying to take, if it is trying to take one. */
  predicate Wants(s: State, t: Tid, l: Loc)
    requires t in s.threads
  {
    match s.threads[t]
    case Start(_) => l == TreeLock
    case Wait(_, _, _, next) => l == NodeLock(next)
    case TwoFirst(_, x) => x in s.heap && l == NodeLock(s.heap[x].right)
    case TwoWait(_, _, _, _, next) => l == NodeLock(next)
    case _ => false
  }

  /** No step faults; no thread holds or waits for the lock of a node that is not allocated, and what
      it waits for is in the tree. */
  lemma Safe(s: State, T: Tree, t: Tid, c: Choice)
    requires Inv(s, T) && t in s.threads
    ensures Exec(s, t, c) != Fault
    ensures forall x | Holds(s.threads[t], x) :: x in s.heap
    ensures forall x | Wants(s, t, NodeLock(x)) :: x in s.heap && x in Ids(T)
  {
    hide Represents, Ordered, NoLeak, NobodyOn, LNode, Contents, Ids, LockInv, MidOK, Exec, MemInv, Held;
    var T' := StepKeeps(s, T, t, c);
    forall x | Holds(s.threads[t], x) ensures x in s.heap { HeldRaw(s, T, t, x); }
    forall x | Wants(s, t, NodeLock(x)) ensures x in s.heap && x in Ids(T) { WantedIn(s, T, t, x); }
  }

  lemma WantedIn(s: State, T: Tree, t: Tid, x: NodeId)
    requires Inv(s, T) && t in s.threads && Wants(s, t, NodeLock(x))
    ensures x in s.heap && x in Ids(T)
  {
    hide NoLeak, NobodyOn, LNode, Contents, LockInv, MidOK;
    match s.threads[t]
    case Wait(op, cur, _, next) =>
      if cur.TreeLock? { RootFacts(s, T, 0); }
      else { OnPathIn(T, 2 * op.key, cur.id); ChildIn(T, Logical(s), s.root, cur.id, next); }
    case TwoFirst(_, _) => TwoFirstFacts(s, T, t);
    case TwoWait(_, _, _, _, _) => WalkOn(s, T, t);
  }

  // ----- no deadlock

  function Rank(T: Tree, l: Loc): (r: nat) { if l.TreeLock? then 0 else 1 + Depth(T, l.id) }

  lemma {:induction false} SegDepth(t: Tree, q: int, a: NodeId, b: NodeId, y: NodeId)
    requires Ordered(t) && y in Seg(t, q, a, b)
    ensures Depth(t, a) < Depth(t, y)
  {
    var s := Toward(t, q);
    SegIn(s, q, a, b);
    if t.id != a {
      SegDepth(s, q, a, b, y);
      OnPathSeg(s, q, a, b, y);
    }
  }

  lemma {:induction false} OnPathSeg(t: Tree, q: int, a: NodeId, b: NodeId, y: NodeId)
    requires y in Seg(t, q, a, b)
    ensures a in Ids(t)
  {
    if t.id != a { OnPathSeg(Toward(t, q), q, a, b, y); }
  }

  /** The wait-for relation goes strictly down the tree. */
  lemma DownTheTree(s: State, T: Tree, u: Tid, held: Loc, wanted: Loc)
    requires Inv(s, T) && u in s.threads && held in Held(s.threads[u]) && Wants(s, u, wanted)
    ensures Rank(T, held) < Rank(T, wanted)
  {
    hide NoLeak, NobodyOn, LNode, Contents, LockInv, MidOK, MemInv;
    var h := Logical(s);
    match s.threads[u]
    case Start(_) =>
    case Wait(op, cur, _, next) =>
      if cur.NodeLock? {
        OnPathIn(T, 2 * op.key, cur.id);
        ChildIn(T, h, s.root, cur.id, next);
      }
    case TwoFirst(op, x) =>
      TwoFirstFacts(s, T, u);
      ChildIn(T, h, s.root, x, wanted.id);
    case TwoWait(op, x, sp, succ, next) =>
      WalkFacts(s, T, u);
      WalkOn(s, T, u);
      RepIds(T, h, s.root);
      ChildIn(T, h, s.root, succ, next);
      SegDepth(T, 2 * op.key + 1, x, succ, succ);
      ChildIn(T, h, s.root, sp, succ);
  }

  /** A chain of threads, each waiting for a lock that the next one holds, never closes. */
  ghost predicate WaitChain(s: State, ts: seq<Tid>, ls: seq<Loc>) {
    && |ts| == |ls|
    && (forall i | 0 <= i < |ts| :: ts[i] in s.threads && Wants(s, ts[i], ls[i]))
    && (forall i | 0 <= i < |ts| - 1 :: ls[i] in s.owner && s.owner[ls[i]] == ts[i + 1])
  }

  lemma {:induction false} NoWaitCycle(s: State, T: Tree, ts: seq<Tid>, ls: seq<Loc>)
    requires Inv(s, T) && WaitChain(s, ts, ls) && |ts| > 1
    ensures Rank(T, ls[0]) < Rank(T, ls[|ts| - 1])
    ensures ts[0] != ts[|ts| - 1]
  {
    hide GoodPC, Represents, Ordered, NoLeak, NobodyOn, LNode, Contents, MidOK, MemInv, Held, Ids;
    var n := |ts| - 1;
    assert ls[n - 1] in s.owner && s.owner[ls[n - 1]] == ts[n];
    DownTheTree(s, T, ts[n], ls[n - 1], ls[n]);
    if n > 1 { NoWaitCycle(s, T, ts[..n], ls[..n]); }
  }

  /** malloc fails, or hands out memory that is not in use. */
  predicate ValidAlloc(s: State, c: Choice) { c.alloc == NULL || c.alloc !in s.heap }

  lemma RunsUnlessWaiting(s: State, t: Tid, c: Choice)
    requires t in s.threads && ValidAlloc(s, c)
    ensures Exec(s, t, c).Disabled? ==> exists l :: Wants(s, t, l) && l in s.owner
  {
    if Exec(s, t, c).Disabled? {
      match s.threads[t]
      case Start(_) => assert Wants(s, t, TreeLock);
      case Wait(_, _, _, next) => assert Wants(s, t, NodeLock(next));
      case TwoFirst(_, x) => assert Wants(s, t, NodeLock(s.heap[x].right));
      case TwoWait(_, _, _, _, next) => assert Wants(s, t, NodeLock(next));
    }
  }

  lemma WantedRank(s: State, T: Tree, t: Tid, l: Loc)
    requires Inv(s, T) && t in s.threads && Wants(s, t, l)
    ensures Rank(T, l) <= Height(T)
  {
    hide GoodPC, Represents, Ordered, NoLeak, NobodyOn, LNode, Contents, MidOK, MemInv, Held, Ids, LockInv;
    if l.NodeLock? {
      WantedIn(s, T, t, l.id);
      DepthBound(T, l.id);
    }
  }

  lemma {:induction false} Runner(s: State, T: Tree, t: Tid, l: Loc, c: Choice) returns (u: Tid)
    requires Inv(s, T) && t in s.threads && Wants(s, t, l) && l in s.owner && ValidAlloc(s, c)
    ensures u in s.threads && !s.threads[u].Idle? && Exec(s, u, c).Next?
    decreases Height(T) - Rank(T, l)
  {
    hide GoodPC, Represents, Ordered, NoLeak, NobodyOn, LNode, Contents, MidOK, MemInv, Ids, Exec, Wants, Rank, Height;
    u := s.owner[l];
    assert l in Held(s.threads[u]) && !s.threads[u].Idle?;
    Safe(s, T, u, c);
    RunsUnlessWaiting(s, u, c);
    if Exec(s, u, c).Disabled? {
      var l' :| Wants(s, u, l') && l' in s.owner;
      DownTheTree(s, T, u, l, l');
      WantedRank(s, T, u, l');
      u := Runner(s, T, u, l', c);
    }
  }

  /** While some operation is unfinished, some unfinished operation can take a step, whatever malloc
      hands out. */
  lemma NoDeadlock(s: State, T: Tree, t: Tid, c: Choice) returns (u: Tid)
    requires Inv(s, T) && t in s.threads && !s.threads[t].Idle? && ValidAlloc(s, c)
    ensures u in s.threads && !s.threads[u].Idle? && Exec(s, u, c).Next?
  {
    hide GoodPC, Represents, Ordered, NoLeak, NobodyOn, LNode, Contents, MidOK, MemInv, Ids, Exec, Wants, LockInv;
    u := t;
    Safe(s, T, t, c);
    RunsUnlessWaiting(s, t, c);
    if Exec(s, t, c).Disabled? {
      var l :| Wants(s, t, l) && l in s.owner;
      u := Runner(s, T, t, l, c);
    }
  }

  // ----- the same for the last state of any run

  lemma EveryRunSafe(r: Run, t: Tid, c: Choice)
    requires IsRun(r) && t in r.states[|r.who|].threads
    ensures Exec(r.states[|r.who|], t, c) != Fault
    ensures forall x | Holds(r.states[|r.who|].threads[t], x) || Wants(r.states[|r.who|], t, NodeLock(x)) ::
              x in r.states[|r.who|].heap
  {
    hide Inv, Exec, Init, Holds, Wants;
    var trees := RunTrees(r);
    Safe(r.states[|r.who|], trees[|r.who|], t, c);
  }

  lemma EveryRunGoesOn(r: Run, t: Tid, c: Choice) returns (u: Tid)
    requires IsRun(r) && t in r.states[|r.who|].threads && !r.states[|r.who|].threads[t].Idle? && ValidAlloc(r.states[|r.who|], c)
    ensures u in r.states[|r.who|].threads && !r.states[|r.who|].threads[u].Idle?
    ensures Exec(r.states[|r.who|], u, c).Next?
  {
    hide Inv, Exec, Init, Kept;
    var trees := RunTrees(r);
    u := NoDeadlock(r.states[|r.who|], trees[|r.who|], t, c);
  }

  /** No threads ever wait for each other in a circle. */
  lemma EveryRunAcyclic(r: Run, ts: seq<Tid>, ls: seq<Loc>)
    requires IsRun(r) && WaitChain(r.states[|r.who|], ts, ls) && |ts| > 1
    ensures ts[0] != ts[|ts| - 1]
  {
    hide Inv, Exec, Init, Kept, WaitChain;
    var trees := RunTrees(r);
    NoWaitCycle(r.states[|r.who|], trees[|r.who|], ts, ls);
  }

  /** When no thread is in the middle of copying a successor, the heap is a search tree with exactly
      the contents of the atomic map; when all are idle it holds nothing else and no lock is held. */
  lemma EveryRunSettled(r: Run) returns (abs: seq<AState>, T: Tree)
    requires IsRun(r)
    ensures IsAtomicRun(abs, r.who) && abs[|r.who|].m == Contents(T)
    ensures var s := r.states[|r.who|];
            && ((forall t | t in s.threads :: !Mid(s.threads[t])) ==> Represents(T, s.heap, s.root))
            && ((forall t | t in s.threads :: s.threads[t].Idle?) ==> s.heap.Keys == Ids(T) && s.owner == map[])
  {
    var trees;
    abs, trees := Linearizable(r);
    T := trees[|r.who|];
    hide Inv, Exec, Init, Kept, IsAtomicRun, Represents, Contents, Ids, Mid;
    Settled(r.states[|r.who|], T);
  }
}
