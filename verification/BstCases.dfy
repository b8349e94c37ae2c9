/** The kinds of step, one lemma each, and the theorem that puts them together. */
module BstCases {
  import opened BstTree
  import opened BstEdits
  import opened BstMachine
  import opened BstInvariant
  import opened BstSteps

  lemma CallCase(s: State, T: Tree, t: Tid, c: Choice)
    requires Inv(s, T) && t in s.threads && s.threads[t].Idle?
    ensures Kept(s, T, t, Exec(s, t, c), T)
  {
    hide Represents, Ordered, NoLeak, LNode, MemInv, Contents, Ids, NobodyOn, OnPath, LockInv;
    PcStep(s, T, t, Start(c.op));
  }

  lemma StartCase(s: State, T: Tree, t: Tid, c: Choice)
    requires Inv(s, T) && t in s.threads && s.threads[t].Start?
    ensures Kept(s, T, t, Exec(s, t, c), T)
  {
    hide Represents, Ordered, NoLeak, LNode, MemInv, Contents, Ids, NobodyOn, OnPath, LockInv;
    if TreeLock !in s.owner {
      var pc' := At(s.threads[t].op, TreeLock);
      var s' := s.(owner := s.owner[TreeLock := t]).Goto(t, pc');
      LogicalSame(s, s', T, t, pc');
      AcquireLocks(s, s', t, TreeLock, pc');
      MemStep(s, s', T, t, pc');
      NoLeakStep(s, s', T, t, pc');
      assert Walked(T, pc') == {} && forall x :: !Holds(pc', x);
      assert NobodyOn(s, t, Walked(T, pc')) by { EmptySeg(s, t); }
      QuietStep(s, s', T, t, pc');
    }
  }

  lemma EmptySeg(s: State, t: Tid)
    ensures NobodyOn(s, t, {})
  {}

  /** Giving up, or being told the answer: the only effect is on the thread itself. */
  lemma FinishStep(s: State, T: Tree, t: Tid, todo: seq<Act>, res: Result)
    requires Inv(s, T) && t in s.threads && StatusOf(s.threads[t]).Pending?
    requires HeldActs(todo) == Held(s.threads[t]) && FreedActs(todo) == {} && TodoOK(T, todo)
    requires Spec(Contents(T), s.threads[t].op, res, Contents(T))
    ensures Kept(s, T, t, Next(s.Goto(t, Finish(s.threads[t].op, todo, res))), T)
  {
    hide Represents, Ordered, MidOK, NoLeak, LNode, MemInv, Contents, Ids, NobodyOn, OnPath, HeldActs, FreedActs, TodoOK, LockInv, Seg;
    PcStep(s, T, t, Finish(s.threads[t].op, todo, res));
  }

  lemma ActsCons(a: Act, rest: seq<Act>)
    ensures ([a] + rest)[1..] == rest && ([a] + rest)[0] == a
    ensures HeldActs([a] + rest) == HeldActs(rest) + if a.Unlock? then {a.loc} else {}
    ensures FreedActs([a] + rest) == FreedActs(rest) + if a.Free? then {a.id} else {}
    ensures HeldActs([]) == {} && FreedActs([]) == {}
  {
    var todo := [a] + rest;
    assert forall b :: b in todo <==> b == a || b in rest;
    if a.Unlock? { assert a in todo && a.loc in HeldActs(todo); }
    if a.Free? { assert a in todo && a.id in FreedActs(todo); }
    assert forall b | b in rest :: b in todo;
  }

  lemma OneUnlock(T: Tree, l: Loc)
    requires l.NodeLock? ==> l.id in Ids(T)
    ensures HeldActs([Unlock(l)]) == {l} && FreedActs([Unlock(l)]) == {} && TodoOK(T, [Unlock(l)])
  {
    ActsCons(Unlock(l), []);
    assert [Unlock(l)] + [] == [Unlock(l)];
  }

  // ----- insert and lookup

  /** The memory invariant after `id` was allocated and linked. */
  lemma InsertMem(s: State, s': State, T: Tree, T': Tree, t: Tid, id: NodeId, pc': PC)
    requires MemInv(s, T) && NoLeak(s, T) && t in s.threads && s'.threads == s.threads[t := pc']
    requires Doomed(pc') == {} && Doomed(s.threads[t]) == {} && id !in s.heap && id != NULL
    requires s'.heap.Keys == s.heap.Keys + {id} && Ids(T') == Ids(T) + {id}
    ensures MemInv(s', T') && NoLeak(s', T')
  {
    hide Doomed, Ids;
    forall x | x in s'.heap && x !in Ids(T') ensures IsDoomed(s'.threads, x) {
      var u :| u in s.threads && x in Doomed(s.threads[u]);
      assert x in Doomed(s'.threads[u]);
    }
  }

  /** Other threads after a leaf was linked below a location that `t` holds. */
  lemma InsertOthers(s: State, s': State, T: Tree, t: Tid, k: int, v: int, id: NodeId, pc': PC)
    requires Inv(s, T) && t in s.threads && s'.threads == s.threads[t := pc'] && !Mid(s.threads[t]) && !Mid(pc')
    requires s'.owner == s.owner && id !in s.heap && k !in Contents(T)
    requires TreeLock in s.owner && s.owner[TreeLock] != t ==> s'.root == s.root
    requires forall x | x in s.heap && NodeLock(x) in s.owner && s.owner[NodeLock(x)] != t ::
               x in s'.heap && s'.heap[x] == s.heap[x]
    ensures forall u | u in s.threads && u != t ::
              GoodPC(Ins(T, k, v, id), Logical(s'), s'.root, s.threads[u])
              && Walked(Ins(T, k, v, id), s.threads[u]) <= Walked(T, s.threads[u])
  {
    hide GoodPC, Represents, Held, Doomed, Walked, NoLeak, LNode, MidOK, NobodyOn, Contents, Ids, Ins, Ordered;
    OtherNodes(s, s', T, t, pc');
    forall u | u in s.threads && u != t
      ensures GoodPC(Ins(T, k, v, id), Logical(s'), s'.root, s.threads[u])
      ensures Walked(Ins(T, k, v, id), s.threads[u]) <= Walked(T, s.threads[u])
    {
      var pc := s.threads[u];
      forall x | Holds(pc, x) && x in Logical(s) ensures x in Logical(s') && Logical(s')[x] == Logical(s)[x] {
        OwnsLock(s, u, NodeLock(x));
      }
      if TreeLock in Held(pc) { OwnsLock(s, u, TreeLock); }
      FrameIns(T, Logical(s), Logical(s'), s.root, s'.root, pc, k, v, id);
    }
  }

  ghost predicate AtGap(s: State, t: Tid, x: NodeId) {
    && t in s.threads && s.threads[t].At? && s.threads[t].cur == NodeLock(x) && x in s.heap
    && s.heap[x].key != s.threads[t].op.key && s.heap[x].Child(s.threads[t].op.key < s.heap[x].key) == NULL
  }

  lemma GapFacts(s: State, T: Tree, t: Tid, x: NodeId)
    requires Inv(s, T) && AtGap(s, t, x)
    ensures x in Logical(s) && Logical(s)[x] == s.heap[x]
    ensures var k := s.threads[t].op.key; OnPath(T, 2 * k, x) && x in Ids(T) && k !in Contents(T)
    ensures NodeLock(x) in s.owner && s.owner[NodeLock(x)] == t
  {
    hide NoLeak, LNode, NobodyOn, MidOK;
    var k := s.threads[t].op.key;
    HeldRaw(s, T, t, x);
    PathMiss(T, Logical(s), s.root, k, x);
    OnPathIn(T, 2 * k, x);
  }

  lemma InsertCase(s: State, T: Tree, t: Tid, c: Choice, x: NodeId) returns (T': Tree)
    requires Inv(s, T) && AtGap(s, t, x) && s.threads[t].op.Insert?
    requires c.alloc != NULL && c.alloc !in s.heap
    ensures Kept(s, T, t, Exec(s, t, c), T')
  {
    hide GoodPC, Represents, Walked, NoLeak, LNode, NobodyOn, Contents, Ids, Ins, Ordered, TodoOK, HeldActs, FreedActs, OnPath, MemInv, LockInv;
    var op, h, id := s.threads[t].op, Logical(s), c.alloc;
    var k, v := op.key, op.value;
    GapFacts(s, T, t, x);
    RepIds(T, h, s.root);
    T' := Ins(T, k, v, id);
    InsRep(T, h, s.root, k, v, id, x);
    InsValue(T, k, v, id);
    OneUnlock(T', NodeLock(x));
    var s' := Exec(s, t, c).s;
    var pc' := Finish(op, [Unlock(NodeLock(x))], Inserted);
    assert s'.threads == s.threads[t := pc'];
    OtherNodes(s, s', T, t, pc');
    assert Logical(s') == h[id := Node(k, v, NULL, NULL)][x := h[x].WithChild(k < h[x].key, id)];
    InsertMem(s, s', T, T', t, id, pc');
    InsertOthers(s, s', T, t, k, v, id, pc');
    FinishGood(T', Logical(s'), s'.root, pc');
    TreeStep(s, s', T, T', t, pc');
  }

  lemma FinishGood(T: Tree, h: map<NodeId, Node>, root: NodeId, pc: PC)
    requires pc.Finish? && TodoOK(T, pc.todo)
    ensures GoodPC(T, h, root, pc) && Walked(T, pc) == {}
  {}

  lemma InsertRootCase(s: State, T: Tree, t: Tid, c: Choice) returns (T': Tree)
    requires Inv(s, T) && t in s.threads && s.threads[t].At? && s.threads[t].cur == TreeLock && s.threads[t].op.Insert?
    requires s.root == NULL && c.alloc != NULL && c.alloc !in s.heap
    ensures Kept(s, T, t, Exec(s, t, c), T')
  {
    hide GoodPC, Walked, NoLeak, LNode, NobodyOn, TodoOK, HeldActs, FreedActs, OnPath, MemInv, LockInv, Ordered;
    var op, h, id := s.threads[t].op, Logical(s), c.alloc;
    var k, v := op.key, op.value;
    assert T == Leaf;
    T' := Ins(T, k, v, id);
    InsValue(T, k, v, id);
    OneUnlock(T', TreeLock);
    OwnsLock(s, t, TreeLock);
    var s' := Exec(s, t, c).s;
    var pc' := Finish(op, [Unlock(TreeLock)], Inserted);
    assert s'.threads == s.threads[t := pc'];
    OtherNodes(s, s', T, t, pc');
    assert Logical(s')[id] == Node(k, v, NULL, NULL);
    InsertMem(s, s', T, T', t, id, pc');
    InsertOthers(s, s', T, t, k, v, id, pc');
    FinishGood(T', Logical(s'), s'.root, pc');
    TreeStep(s, s', T, T', t, pc');
  }

  lemma CompareRootCase(s: State, T: Tree, t: Tid, c: Choice) returns (T': Tree)
    requires Inv(s, T) && t in s.threads && s.threads[t].At? && s.threads[t].cur == TreeLock
    ensures Kept(s, T, t, Exec(s, t, c), T')
  {
    hide Ordered, NoLeak, LNode, NobodyOn, TodoOK, HeldActs, FreedActs, OnPath, MemInv, LockInv;
    var op := s.threads[t].op;
    T' := T;
    if s.root != NULL {
      hide Represents, Contents;
      PcStep(s, T, t, Wait(op, TreeLock, false, s.root));
    } else {
      assert T == Leaf;
      OneUnlock(T, TreeLock);
      if !op.Insert? {
        FinishStep(s, T, t, [Unlock(TreeLock)], Missing);
      } else if c.alloc == NULL {
        FinishStep(s, T, t, [Unlock(TreeLock)], NoMemory);
      } else if c.alloc !in s.heap {
        T' := InsertRootCase(s, T, t, c);
      }
    }
  }

  /** What a thread at a node of its search path can read there. */
  lemma AtFacts(s: State, T: Tree, t: Tid, k: int, x: NodeId)
    requires Inv(s, T) && t in s.threads && Holds(s.threads[t], x) && !Mid(s.threads[t]) && OnPath(T, 2 * k, x)
    ensures x in s.heap && x in Logical(s) && Logical(s)[x] == s.heap[x] && x in Ids(T)
    ensures s.heap[x].key == k ==> k in Contents(T) && Contents(T)[k] == s.heap[x].value
    ensures s.heap[x].key != k ==>
              var next := s.heap[x].Child(k < s.heap[x].key);
              if next == NULL then k !in Contents(T)
              else OnPath(T, 2 * k, next) && next in Ids(T) && IsChild(Logical(s), x, next) && next != x
  {
    hide GoodPC, NoLeak, LNode, NobodyOn, MidOK, MemInv, LockInv;
    HeldRaw(s, T, t, x);
    OnPathIn(T, 2 * k, x);
    if s.heap[x].key == k {
      PathHit(T, Logical(s), s.root, k, x);
    } else {
      var next := s.heap[x].Child(k < s.heap[x].key);
      if next == NULL { PathMiss(T, Logical(s), s.root, k, x); }
      else {
        OnPathChild(T, Logical(s), s.root, 2 * k, x);
        ChildIn(T, Logical(s), s.root, x, next);
      }
    }
  }

  lemma CompareCase(s: State, T: Tree, t: Tid, c: Choice, x: NodeId) returns (T': Tree)
    requires Inv(s, T) && t in s.threads && s.threads[t].At? && s.threads[t].cur == NodeLock(x)
    ensures Kept(s, T, t, Exec(s, t, c), T')
  {
    hide Represents, Ordered, NoLeak, LNode, NobodyOn, TodoOK, HeldActs, FreedActs, OnPath, MemInv, LockInv, Contents, Ids;
    var op := s.threads[t].op;
    AtFacts(s, T, t, op.key, x);
    T' := T;
    OneUnlock(T, NodeLock(x));
    var n := s.heap[x];
    var goLeft := op.key < n.key;
    if op.key == n.key {
      FinishStep(s, T, t, [Unlock(NodeLock(x))], if op.Insert? then Duplicate else Hit(n.value));
    } else if n.Child(goLeft) != NULL {
      PcStep(s, T, t, Wait(op, NodeLock(x), goLeft, n.Child(goLeft)));
    } else if !op.Insert? {
      FinishStep(s, T, t, [Unlock(NodeLock(x))], Missing);
    } else if c.alloc == NULL {
      FinishStep(s, T, t, [Unlock(NodeLock(x))], NoMemory);
    } else if c.alloc !in s.heap {
      T' := InsertCase(s, T, t, c, x);
    }
  }

  /** Going on to the child: lock it ... */
  lemma WaitCase(s: State, T: Tree, t: Tid, c: Choice)
    requires Inv(s, T) && t in s.threads && s.threads[t].Wait?
    ensures Kept(s, T, t, Exec(s, t, c), T)
  {
    hide Represents, Ordered, NoLeak, LNode, NobodyOn, OnPath, MemInv, LockInv, Contents, Ids;
    var Wait(op, cur, goLeft, next) := s.threads[t];
    if cur.TreeLock? {
      RootFacts(s, T, 2 * op.key);
    } else {
      AtFacts(s, T, t, op.key, cur.id);
    }
    AcquireStep(s, T, t, cur, next, if op.Delete? then DelAt(op, cur, goLeft, next) else HandOver(op, cur, next));
  }

  lemma RootFacts(s: State, T: Tree, q: int)
    requires Inv(s, T) && s.root != NULL
    ensures OnPath(T, q, s.root) && s.root in Ids(T)
  {
    hide GoodPC, LNode, NobodyOn, MemInv, LockInv, NoLeak, MidOK;
    RepIds(T, Logical(s), s.root);
  }

  /** ... then unlock the parent. */
  lemma HandOverCase(s: State, T: Tree, t: Tid, c: Choice)
    requires Inv(s, T) && t in s.threads && s.threads[t].HandOver?
    ensures Kept(s, T, t, Exec(s, t, c), T)
  {
    hide Represents, Ordered, NoLeak, LNode, NobodyOn, OnPath, MemInv, LockInv, Contents, Ids;
    var HandOver(op, cur, next) := s.threads[t];
    ReleaseStep(s, T, t, cur, At(op, NodeLock(next)));
  }
}
