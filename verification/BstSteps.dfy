/** Every step of every thread keeps the invariant, does not fault, and acts on the contents of the
    tree as one step of the atomic map does. One lemma for each kind of step. */
module BstSteps {
  import opened BstTree
  import opened BstEdits
  import opened BstMachine
  import opened BstInvariant

  /** The step of thread `t` is safe, and takes `T` to a tree that fits the atomic map: to `T` itself as
      long as the operation has not taken effect. */
  ghost predicate Kept(s: State, T: Tree, t: Tid, o: Outcome, T': Tree)
    requires t in s.threads
  {
    && o != Fault
    && (o.Next? ==>
          && o.s.threads.Keys == s.threads.Keys
          && (forall u | u in s.threads && u != t :: o.s.threads[u] == s.threads[u])
          && Inv(o.s, T')
          && Effect(Contents(T), StatusOf(s.threads[t]), Contents(T'), StatusOf(o.s.threads[t]))
          && (StatusOf(o.s.threads[t]).Pending? ==> T' == T))
  }

  lemma MidHolds(pc: PC)
    requires Mid(pc)
    ensures Holds(pc, pc.node) && Holds(pc, pc.sp) && Holds(pc, pc.succ) && Doomed(pc) == {pc.succ}
  {}

  lemma HeldRaw(s: State, T: Tree, t: Tid, x: NodeId)
    requires Inv(s, T) && t in s.threads && Holds(s.threads[t], x)
    ensures x in s.heap && x in Logical(s) && NodeLock(x) in s.owner && s.owner[NodeLock(x)] == t
    ensures !Mid(s.threads[t]) ==> Logical(s)[x] == s.heap[x]
  {
    hide GoodPC, Represents, Ordered, Held, Doomed, Walked, MidOK, NoLeak;
    HeldIn(T, Logical(s), s.root, s.threads[t], x);
  }

  /** A node that thread `t` does not hold, before or after, looks the same after its step. */
  lemma OtherNode(s: State, s': State, T: Tree, t: Tid, x: NodeId)
    requires Inv(s, T) && t in s.threads && t in s'.threads
    requires s'.threads == s.threads[t := s'.threads[t]]
    requires forall l | l in s.owner && s.owner[l] != t :: l in s'.owner && s'.owner[l] == s.owner[l]
    requires forall l | l in s'.owner && s'.owner[l] != t :: l in s.owner && s.owner[l] == s'.owner[l]
    requires forall y | y in s.heap && NodeLock(y) in s.owner && s.owner[NodeLock(y)] != t ::
               y in s'.heap && s'.heap[y] == s.heap[y]
    requires x in s.heap && x in s'.heap && s'.heap[x] == s.heap[x]
    requires NodeLock(x) in s.owner ==> s.owner[NodeLock(x)] != t
    requires NodeLock(x) in s'.owner ==> s'.owner[NodeLock(x)] != t
    ensures LNode(s', x) == LNode(s, x)
  {
    hide GoodPC, Represents, Ordered, Held, Doomed, Walked, NoLeak;
    var l := NodeLock(x);
    if l in s.owner {
      var u := s.owner[l];
      if Mid(s.threads[u]) {
        MidHolds(s.threads[u]);
        assert NodeLock(s.threads[u].succ) in s.owner;
      }
    }
  }

  /** Nobody else's half-copied nodes are touched by a thread that changes only what it holds. */
  lemma OtherNodes(s: State, s': State, T: Tree, t: Tid, pc': PC)
    requires Inv(s, T) && t in s.threads && s'.threads == s.threads[t := pc']
    requires !Mid(s.threads[t]) && !Mid(pc')
    requires forall l | l in s.owner && s.owner[l] != t :: l in s'.owner && s'.owner[l] == s.owner[l]
    requires forall l | l in s'.owner && s'.owner[l] != t :: l in s.owner && s.owner[l] == s'.owner[l]
    requires forall x | x in s.heap && NodeLock(x) in s.owner && s.owner[NodeLock(x)] != t ::
               x in s'.heap && s'.heap[x] == s.heap[x]
    ensures forall x | x in s.heap && x in s'.heap && s'.heap[x] == s.heap[x] :: LNode(s', x) == LNode(s, x)
    ensures forall x | x in s'.heap && NodeLock(x) in s.owner && s.owner[NodeLock(x)] == t :: LNode(s', x) == s'.heap[x]
    ensures forall x | x in s'.heap && x !in s.heap :: LNode(s', x) == s'.heap[x]
  {
    hide GoodPC, Represents, Ordered, Held, Doomed, Walked, NoLeak;
    forall x | x in s.heap && x in s'.heap && s'.heap[x] == s.heap[x] ensures LNode(s', x) == LNode(s, x) {
      var l := NodeLock(x);
      if (l in s.owner && s.owner[l] == t) || (l in s'.owner && s'.owner[l] == t) {
      } else {
        OtherNode(s, s', T, t, x);
      }
    }
    forall x | x in s'.heap && x !in s.heap ensures LNode(s', x) == s'.heap[x] {
      var l := NodeLock(x);
      if l in s'.owner && s'.owner[l] != t { HeldRaw(s, T, s.owner[l], x); }
    }
  }

  lemma OtherMid(s: State, s': State, T: Tree, t: Tid, u: Tid)
    requires Inv(s, T) && t in s.threads && u in s.threads && u != t
    requires forall x | x in s.heap && NodeLock(x) in s.owner && s.owner[NodeLock(x)] != t ::
               x in s'.heap && s'.heap[x] == s.heap[x]
    ensures MidOK(s', s.threads[u])
  {
    hide GoodPC, Represents, Ordered, Held, Doomed, Walked, NoLeak;
    var pc := s.threads[u];
    if Mid(pc) {
      MidHolds(pc);
      HeldRaw(s, T, u, pc.node);
      HeldRaw(s, T, u, pc.sp);
      HeldRaw(s, T, u, pc.succ);
    }
  }

  /** Steps that leave the tree as it is. */
  lemma QuietStep(s: State, s': State, T: Tree, t: Tid, pc': PC)
    requires Inv(s, T) && t in s.threads && s'.threads == s.threads[t := pc'] && s'.root == s.root
    requires forall x | x in Ids(T) :: x in s'.heap && x in s.heap && LNode(s', x) == LNode(s, x)
    requires forall x | x in s.heap && NodeLock(x) in s.owner && s.owner[NodeLock(x)] != t ::
               x in s'.heap && s'.heap[x] == s.heap[x]
    requires LockInv(s') && MemInv(s', T) && NoLeak(s', T)
    requires GoodPC(T, Logical(s'), s'.root, pc') && MidOK(s', pc')
    requires NobodyOn(s, t, Walked(T, pc'))
    requires forall u, x | u in s.threads && u != t && x in Walked(T, s.threads[u]) :: !Holds(pc', x)
    ensures Inv(s', T)
  {
    hide GoodPC, Represents, Ordered, Holds, LNode, Held, Doomed, Walked, MidOK, LockInv, MemInv, NoLeak;
    RepFrame(T, Logical(s), Logical(s'), s.root);
    forall u | u in s.threads && u != t
      ensures GoodPC(T, Logical(s'), s'.root, s.threads[u]) && MidOK(s', s.threads[u])
    {
      FrameSame(T, Logical(s), Logical(s'), s.root, s.threads[u]);
      OtherMid(s, s', T, t, u);
    }
    forall u | u in s'.threads ensures NobodyOn(s', u, Walked(T, s'.threads[u])) {}
  }

  lemma MemStep(s: State, s': State, T: Tree, t: Tid, pc': PC)
    requires MemInv(s, T) && t in s.threads && s'.threads == s.threads[t := pc'] && s'.heap == s.heap
    requires Doomed(pc') == Doomed(s.threads[t])
    ensures MemInv(s', T)
  {
    hide Doomed, Ids;
  }

  lemma NoLeakStep(s: State, s': State, T: Tree, t: Tid, pc': PC)
    requires NoLeak(s, T) && t in s.threads && s'.threads == s.threads[t := pc'] && s'.heap == s.heap
    requires Doomed(pc') == Doomed(s.threads[t])
    ensures NoLeak(s', T)
  {
    hide Doomed, Ids;
    forall x | x in s'.heap && x !in Ids(T) ensures IsDoomed(s'.threads, x) {
      var u :| u in s.threads && x in Doomed(s.threads[u]);
      assert x in Doomed(s'.threads[u]);
    }
  }

  lemma LogicalSame(s: State, s': State, T: Tree, t: Tid, pc': PC)
    requires Inv(s, T) && t in s.threads && s'.threads == s.threads[t := pc'] && s'.heap == s.heap
    requires !Mid(s.threads[t]) && !Mid(pc')
    requires forall l | l in s.owner && s.owner[l] != t :: l in s'.owner && s'.owner[l] == s.owner[l]
    requires forall l | l in s'.owner && s'.owner[l] != t :: l in s.owner && s.owner[l] == s'.owner[l]
    ensures Logical(s') == Logical(s)
    ensures Inv(s, T) && forall x | x in Ids(T) :: x in s.heap && LNode(s', x) == LNode(s, x)
  {
    hide GoodPC, Represents, Ordered, Held, Doomed, Walked, NoLeak, LNode, LockInv, NobodyOn, Ids;
    OtherNodes(s, s', T, t, pc');
  }

  lemma AcquireLocks(s: State, s': State, t: Tid, l: Loc, pc': PC)
    requires LockInv(s) && t in s.threads && s'.threads == s.threads[t := pc'] && l !in s.owner
    requires s'.owner == s.owner[l := t] && Held(pc') == Held(s.threads[t]) + {l}
    ensures LockInv(s')
  {
    hide Held;
  }

  lemma LocksSame(s: State, s': State, t: Tid, pc': PC)
    requires LockInv(s) && t in s.threads && s'.threads == s.threads[t := pc'] && s'.owner == s.owner
    requires Held(pc') == Held(s.threads[t])
    ensures LockInv(s')
    ensures forall x :: Holds(pc', x) == Holds(s.threads[t], x)
  {
    hide Held;
  }

  lemma ReleaseLocks(s: State, s': State, t: Tid, l: Loc, pc': PC)
    requires LockInv(s) && t in s.threads && s'.threads == s.threads[t := pc'] && l in Held(s.threads[t])
    requires s'.owner == s.owner - {l} && Held(pc') == Held(s.threads[t]) - {l}
    ensures LockInv(s')
  {
    hide Held;
    forall u, l' | u in s'.threads && l' in Held(s'.threads[u]) ensures l' in s'.owner && s'.owner[l'] == u {
      assert l' in Held(s.threads[u]);
      OwnsLock(s, u, l');
      OwnsLock(s, t, l);
    }
  }

  lemma OwnsLock(s: State, t: Tid, l: Loc)
    requires LockInv(s) && t in s.threads && l in Held(s.threads[t])
    ensures l in s.owner && s.owner[l] == t
  {
    hide Held;
  }

  lemma Exclusive(s: State, t: Tid, u: Tid, x: NodeId)
    requires LockInv(s) && t in s.threads && u in s.threads && t != u && Holds(s.threads[t], x)
    ensures !Holds(s.threads[u], x)
  {
    hide Held;
    OwnsLock(s, t, NodeLock(x));
    if Holds(s.threads[u], x) { OwnsLock(s, u, NodeLock(x)); }
  }

  lemma FreeLock(s: State, x: NodeId)
    requires LockInv(s) && NodeLock(x) !in s.owner
    ensures forall u | u in s.threads :: !Holds(s.threads[u], x)
  {
    hide Held;
  }

  lemma InHeap(s: State, T: Tree, x: NodeId)
    requires MemInv(s, T) && x in Ids(T)
    ensures x in s.heap && x != NULL
  {}

  /** Steps that change the program counter only. */
  lemma PcStep(s: State, T: Tree, t: Tid, pc': PC)
    requires Inv(s, T) && t in s.threads && !Mid(s.threads[t]) && !Mid(pc')
    requires Held(pc') == Held(s.threads[t]) && Doomed(pc') == Doomed(s.threads[t])
    requires GoodPC(T, Logical(s), s.root, pc')
    requires Walked(T, pc') <= Walked(T, s.threads[t])
    ensures Inv(s.Goto(t, pc'), T)
  {
    hide GoodPC, Represents, Ordered, Held, Doomed, Walked, NoLeak, LNode, LockInv, MemInv;
    var s' := s.Goto(t, pc');
    LogicalSame(s, s', T, t, pc');
    LocksSame(s, s', t, pc');
    MemStep(s, s', T, t, pc');
    NoLeakStep(s, s', T, t, pc');
    QuietStep(s, s', T, t, pc');
  }

  lemma ReleaseStep(s: State, T: Tree, t: Tid, l: Loc, pc': PC)
    requires Inv(s, T) && t in s.threads && !Mid(s.threads[t]) && !Mid(pc')
    requires l in Held(s.threads[t]) && Held(pc') == Held(s.threads[t]) - {l}
    requires Doomed(pc') == Doomed(s.threads[t])
    requires GoodPC(T, Logical(s), s.root, pc')
    requires Walked(T, pc') <= Walked(T, s.threads[t])
    ensures Release(s, t, l, pc').Next? && Inv(Release(s, t, l, pc').s, T)
  {
    hide GoodPC, Represents, Ordered, Held, Doomed, Walked, NoLeak, LNode, LockInv, MemInv;
    OwnsLock(s, t, l);
    if l.NodeLock? { HeldRaw(s, T, t, l.id); }
    var s' := s.(owner := s.owner - {l}).Goto(t, pc');
    LogicalSame(s, s', T, t, pc');
    ReleaseLocks(s, s', t, l, pc');
    MemStep(s, s', T, t, pc');
    NoLeakStep(s, s', T, t, pc');
    QuietStep(s, s', T, t, pc');
  }

  /** Locking a child of a node that the thread holds, or the root under the tree lock. */
  lemma AcquireStep(s: State, T: Tree, t: Tid, from: Loc, next: NodeId, pc': PC)
    requires Inv(s, T) && t in s.threads && !Mid(s.threads[t]) && !Mid(pc')
    requires from in Held(s.threads[t]) && next in Ids(T)
    requires from.TreeLock? ==> next == s.root
    requires from.NodeLock? ==> from.id in Ids(T) && IsChild(Logical(s), from.id, next)
    requires Held(pc') == Held(s.threads[t]) + {NodeLock(next)}
    requires Doomed(pc') == Doomed(s.threads[t])
    requires GoodPC(T, Logical(s), s.root, pc')
    requires Walked(T, pc') <= Walked(T, s.threads[t]) + {next}
    ensures Acquire(s, t, NodeLock(next), pc') != Fault
    ensures Acquire(s, t, NodeLock(next), pc').Next? ==> Inv(Acquire(s, t, NodeLock(next), pc').s, T)
  {
    hide GoodPC, Represents, Ordered, Held, Doomed, Walked, NoLeak, LNode, LockInv, MemInv;
    InHeap(s, T, next);
    if NodeLock(next) !in s.owner {
      var s' := s.(owner := s.owner[NodeLock(next) := t]).Goto(t, pc');
      LogicalSame(s, s', T, t, pc');
      AcquireLocks(s, s', t, NodeLock(next), pc');
      MemStep(s, s', T, t, pc');
      NoLeakStep(s, s', T, t, pc');
      forall u | u in s.threads && u != t ensures next !in Walked(T, s.threads[u]) {
        NotWalked(s, T, t, u, from, next);
      }
      FreeLock(s, next);
      QuietStep(s, s', T, t, pc');
    }
  }

  /** Lock coupling forbids overtaking: what another thread has walked stays out of reach. */
  lemma NotWalked(s: State, T: Tree, t: Tid, u: Tid, from: Loc, next: NodeId)
    requires Inv(s, T) && t in s.threads && u in s.threads && u != t && from in Held(s.threads[t])
    requires from.TreeLock? ==> next == s.root
    requires from.NodeLock? ==> from.id in Ids(T) && IsChild(Logical(s), from.id, next)
    ensures next !in Walked(T, s.threads[u])
  {
    hide GoodPC, NoLeak, MidOK, MemInv, LNode;
    var pc := s.threads[u];
    if pc.TwoAt? || pc.TwoWait? || pc.TwoHand? {
      var b := if pc.TwoHand? then pc.next else pc.succ;
      var q := 2 * pc.op.key + 1;
      if from.TreeLock? {
        RepIds(T, Logical(s), s.root);
        SegNotRoot(T, q, pc.node, b);
      } else {
        OwnsLock(s, u, NodeLock(pc.node));
        OwnsLock(s, t, from);
        assert Holds(s.threads[t], from.id);
        if next in Seg(T, q, pc.node, b) {
          SegParent(T, Logical(s), s.root, q, pc.node, b, from.id, next);
        }
      }
    }
  }

  /** Steps that change the tree, assembled from what happened to it. */
  lemma TreeStep(s: State, s': State, T: Tree, T': Tree, t: Tid, pc': PC)
    requires Inv(s, T) && t in s.threads && s'.threads == s.threads[t := pc'] && s'.owner == s.owner
    requires Represents(T', Logical(s'), s'.root) && Ordered(T') && MemInv(s', T') && NoLeak(s', T')
    requires Held(pc') == Held(s.threads[t]) && GoodPC(T', Logical(s'), s'.root, pc') && MidOK(s', pc')
    requires Walked(T', pc') == {}
    requires forall x | x in s.heap && NodeLock(x) in s.owner && s.owner[NodeLock(x)] != t ::
               x in s'.heap && s'.heap[x] == s.heap[x]
    requires forall u | u in s.threads && u != t ::
               GoodPC(T', Logical(s'), s'.root, s.threads[u]) && Walked(T', s.threads[u]) <= Walked(T, s.threads[u])
    ensures Inv(s', T')
  {
    hide GoodPC, Represents, Ordered, Held, Doomed, Walked, NoLeak, LNode, LockInv, MemInv, MidOK;
    LocksSame(s, s', t, pc');
    forall u | u in s.threads && u != t ensures MidOK(s', s.threads[u]) { OtherMid(s, s', T, t, u); }
    forall u | u in s'.threads ensures NobodyOn(s', u, Walked(T', s'.threads[u])) {}
  }
}
