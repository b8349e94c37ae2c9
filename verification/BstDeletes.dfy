/** The steps of a deletion. */
module BstDeletes {
  import opened BstTree
  import opened BstEdits
  import opened BstMachine
  import opened BstInvariant
  import opened BstSteps
  import opened BstCases

  lemma TwoUnlocks(T: Tree, l: Loc, x: NodeId)
    requires (l.NodeLock? ==> l.id in Ids(T)) && x in Ids(T) && l != NodeLock(x)
    ensures var todo := [Unlock(l), Unlock(NodeLock(x))];
            HeldActs(todo) == {l, NodeLock(x)} && FreedActs(todo) == {} && TodoOK(T, todo)
  {
    OneUnlock(T, NodeLock(x));
    ActsCons(Unlock(l), [Unlock(NodeLock(x))]);
  }

  lemma ParentIn(s: State, T: Tree, k: int, parent: Loc)
    requires OnLoc(T, k, parent)
    ensures parent.NodeLock? ==> parent.id in Ids(T)
  {
    if parent.NodeLock? { OnPathIn(T, 2 * k, parent.id); }
  }

  lemma DelMissCase(s: State, T: Tree, t: Tid, c: Choice)
    requires Inv(s, T) && t in s.threads && s.threads[t].DelAt?
    requires s.threads[t].node in s.heap && s.heap[s.threads[t].node].key != s.threads[t].op.key
    ensures Kept(s, T, t, Exec(s, t, c), T)
  {
    hide Represents, Ordered, NoLeak, LNode, NobodyOn, TodoOK, HeldActs, FreedActs, OnPath, MemInv, LockInv, Contents, Ids;
    var DelAt(op, parent, side, x) := s.threads[t];
    AtFacts(s, T, t, op.key, x);
    ParentIn(s, T, op.key, parent);
    if parent.NodeLock? { HeldRaw(s, T, t, parent.id); }
    var goLeft := op.key < s.heap[x].key;
    if s.heap[x].Child(goLeft) == NULL {
      TwoUnlocks(T, parent, x);
      FinishStep(s, T, t, [Unlock(parent), Unlock(NodeLock(x))], Missing);
    } else {
      PcStep(s, T, t, DelDrop(op, parent, x, goLeft, s.heap[x].Child(goLeft)));
    }
  }

  lemma DelTwoCase(s: State, T: Tree, t: Tid, c: Choice)
    requires Inv(s, T) && t in s.threads && s.threads[t].DelAt?
    requires s.threads[t].node in s.heap && s.heap[s.threads[t].node].key == s.threads[t].op.key
    requires s.heap[s.threads[t].node].left != NULL && s.heap[s.threads[t].node].right != NULL
    ensures Kept(s, T, t, Exec(s, t, c), T)
  {
    hide Represents, Ordered, NoLeak, LNode, NobodyOn, OnPath, MemInv, LockInv, Contents, Ids;
    var DelAt(op, parent, side, x) := s.threads[t];
    AtFacts(s, T, t, op.key, x);
    if parent.NodeLock? { HeldRaw(s, T, t, parent.id); }
    PcStep(s, T, t, TwoDrop(op, parent, x));
  }

  lemma DropCase(s: State, T: Tree, t: Tid, c: Choice)
    requires Inv(s, T) && t in s.threads && (s.threads[t].DelDrop? || s.threads[t].TwoDrop?)
    ensures Kept(s, T, t, Exec(s, t, c), T)
  {
    hide Represents, Ordered, NoLeak, LNode, NobodyOn, OnPath, MemInv, LockInv, Contents, Ids;
    match s.threads[t]
    case DelDrop(op, parent, x, goLeft, next) => ReleaseStep(s, T, t, parent, Wait(op, NodeLock(x), goLeft, next));
    case TwoDrop(op, parent, x) => ReleaseStep(s, T, t, parent, TwoFirst(op, x));
  }

  // ----- unlinking a node with at most one child

  lemma RemoveMem(s: State, s': State, T: Tree, T': Tree, t: Tid, x: NodeId, pc': PC)
    requires MemInv(s, T) && NoLeak(s, T) && t in s.threads && s'.threads == s.threads[t := pc']
    requires Doomed(pc') == {x} && Doomed(s.threads[t]) == {} && x in Ids(T)
    requires s'.heap.Keys == s.heap.Keys && Ids(T') == Ids(T) - {x}
    ensures MemInv(s', T') && NoLeak(s', T')
  {
    hide Doomed, Ids;
    forall y | y in s'.heap && y !in Ids(T') ensures IsDoomed(s'.threads, y) {
      if y == x {
        assert x in Doomed(s'.threads[t]);
      } else {
        var u :| u in s.threads && y in Doomed(s.threads[u]);
        assert y in Doomed(s'.threads[u]);
      }
    }
  }

  /** Other threads after `t` took the key `k` out of the tree. */
  lemma RemoveOthers(s: State, s': State, T: Tree, t: Tid, k: int, pc': PC)
    requires Inv(s, T) && t in s.threads && s'.threads == s.threads[t := pc'] && k in Contents(T)
    requires s'.owner == s.owner && Found(T, k).Branch?
    requires Holds(s.threads[t], Removed(T, k)) && Holds(s.threads[t], Found(T, k).id)
    requires HasTwo(Found(T, k)) ==>
               NobodyOn(s, t, Seg(T, 2 * k + 1, Found(T, k).id, MinNode(Found(T, k).right).id))
    requires TreeLock in s.owner && s.owner[TreeLock] != t ==> s'.root == s.root
    requires forall x | x in s.heap && NodeLock(x) in s.owner && s.owner[NodeLock(x)] != t ::
               x in s'.heap && s'.heap[x] == s.heap[x]
    ensures forall u | u in s.threads && u != t ::
              GoodPC(Rem(T, k), Logical(s'), s'.root, s.threads[u])
              && Walked(Rem(T, k), s.threads[u]) <= Walked(T, s.threads[u])
  {
    hide GoodPC, Represents, Held, Doomed, Walked, NoLeak, LNode, MidOK, Contents, Ids, Rem, Ordered, Found, MemInv;
    forall u | u in s.threads && u != t
      ensures GoodPC(Rem(T, k), Logical(s'), s'.root, s.threads[u])
      ensures Walked(Rem(T, k), s.threads[u]) <= Walked(T, s.threads[u])
    {
      var pc := s.threads[u];
      forall x | Holds(pc, x) && x in Logical(s) ensures x in Logical(s') && Logical(s')[x] == Logical(s)[x] {
        OwnsLock(s, u, NodeLock(x));
        OtherNode(s, s', T, t, x);
      }
      if TreeLock in Held(pc) { OwnsLock(s, u, TreeLock); }
      Exclusive(s, t, u, Removed(T, k));
      Exclusive(s, t, u, Found(T, k).id);
      FrameRem(T, Logical(s), Logical(s'), s.root, s'.root, s.root, pc, k);
    }
  }

  lemma UnlinkTodo(T: Tree, l: Loc, x: NodeId)
    requires (l.NodeLock? ==> l.id in Ids(T)) && x !in Ids(T)
    ensures var todo := [Unlock(l), Unlock(NodeLock(x)), Free(x)];
            HeldActs(todo) == {l, NodeLock(x)} && FreedActs(todo) == {x} && TodoOK(T, todo)
  {
    var free := [Free(x)];
    ActsCons(Free(x), []);
    ActsCons(Unlock(NodeLock(x)), free);
    ActsCons(Unlock(l), [Unlock(NodeLock(x))] + free);
    assert [Unlock(l), Unlock(NodeLock(x)), Free(x)] == [Unlock(l)] + ([Unlock(NodeLock(x))] + free);
    assert TodoOK(T, free);
    assert TodoOK(T, [Unlock(NodeLock(x))] + free);
  }

  ghost predicate AtUnlink(s: State, t: Tid) {
    && t in s.threads && s.threads[t].DelAt? && s.threads[t].node in s.heap
    && s.heap[s.threads[t].node].key == s.threads[t].op.key
    && (s.heap[s.threads[t].node].left == NULL || s.heap[s.threads[t].node].right == NULL)
  }

  lemma UnlinkFacts(s: State, T: Tree, t: Tid)
    requires Inv(s, T) && AtUnlink(s, t)
    ensures var DelAt(op, parent, side, x) := s.threads[t];
            var k, h := op.key, Logical(s);
            var child := if s.heap[x].left != NULL then s.heap[x].left else s.heap[x].right;
            && op.Delete? && k in Contents(T) && x in Ids(T)
            && Removed(T, k) == x && Found(T, k).Branch? && Found(T, k).id == x && !HasTwo(Found(T, k))
            && (parent.TreeLock? ==> Represents(Rem(T, k), h, child))
            && (parent.NodeLock? ==>
                  && parent.id in s.heap && parent.id in h && h[parent.id] == s.heap[parent.id]
                  && parent.id in Ids(T) && parent.id != x
                  && Represents(Rem(T, k), h[parent.id := h[parent.id].WithChild(side, child)], s.root))
  {
    hide NoLeak, LNode, NobodyOn, MidOK, MemInv, LockInv;
    var DelAt(op, parent, side, x) := s.threads[t];
    var k, h := op.key, Logical(s);
    HeldRaw(s, T, t, x);
    PathHit(T, h, s.root, k, x);
    OnPathIn(T, 2 * k, x);
    if parent.TreeLock? {
      RemRootRep(T, h, s.root);
    } else {
      HeldRaw(s, T, t, parent.id);
      OnPathIn(T, 2 * k, parent.id);
      RemOneRep(T, h, s.root, k, parent.id, x);
    }
  }

  /** The write to the parent, seen in the logical heap. */
  lemma UnlinkLogical(s: State, s': State, T: Tree, t: Tid, pc': PC)
    requires Inv(s, T) && AtUnlink(s, t) && !Mid(pc')
    requires var DelAt(op, parent, side, x) := s.threads[t];
             var child := if s.heap[x].left != NULL then s.heap[x].left else s.heap[x].right;
             (parent.NodeLock? ==> parent.id in s.heap) && s' == Store(s, parent, side, child).Goto(t, pc')
    ensures var DelAt(op, parent, side, x) := s.threads[t];
            var child := if s.heap[x].left != NULL then s.heap[x].left else s.heap[x].right;
            var h := Logical(s);
            if parent.TreeLock? then Logical(s') == h
            else parent.id in h && (h[parent.id] == s.heap[parent.id] ==> Logical(s') == h[parent.id := h[parent.id].WithChild(side, child)])
  {
    hide GoodPC, Represents, Walked, NoLeak, LNode, NobodyOn, Contents, Ids, Rem, Ordered, OnPath, MemInv, LockInv, Found;
    OwnsLock(s, t, s.threads[t].parent);
    OtherNodes(s, s', T, t, pc');
  }

  lemma UnlinkCase(s: State, T: Tree, t: Tid, c: Choice) returns (T': Tree)
    requires Inv(s, T) && AtUnlink(s, t)
    ensures Kept(s, T, t, Exec(s, t, c), T')
  {
    hide GoodPC, Represents, Walked, NoLeak, LNode, NobodyOn, Contents, Ids, Rem, Ordered, TodoOK, HeldActs, FreedActs, OnPath, MemInv, LockInv, Found, Logical;
    var DelAt(op, parent, side, x) := s.threads[t];
    var k := op.key;
    UnlinkFacts(s, T, t);
    T' := Rem(T, k);
    RemValue(T, k);
    UnlinkTodo(T', parent, x);
    var s' := Exec(s, t, c).s;
    var pc' := Finish(op, [Unlock(parent), Unlock(NodeLock(x)), Free(x)], Deleted);
    assert s'.threads == s.threads[t := pc'];
    OwnsLock(s, t, NodeLock(x));
    OwnsLock(s, t, parent);
    UnlinkLogical(s, s', T, t, pc');
    RemoveMem(s, s', T, T', t, x, pc');
    RemoveOthers(s, s', T, t, k, pc');
    FinishGood(T', Logical(s'), s'.root, pc');
    TreeStep(s, s', T, T', t, pc');
  }

  // ----- replacing a node with two children by its in-order successor

  lemma TwoFirstCase(s: State, T: Tree, t: Tid, c: Choice)
    requires Inv(s, T) && t in s.threads && s.threads[t].TwoFirst?
    ensures Kept(s, T, t, Exec(s, t, c), T)
  {
    hide Represents, Ordered, NoLeak, LNode, NobodyOn, OnPath, MemInv, Contents, Ids, Seg, LockInv;
    var op, x := s.threads[t].op, s.threads[t].node;
    TwoFirstFacts(s, T, t);
    var next := s.heap[x].right;
    if NodeLock(next) !in s.owner {
      FreeLock(s, next);
      assert Holds(s.threads[t], x);
      AcquireStep(s, T, t, NodeLock(x), next, TwoAt(op, x, x, next));
    }
  }

  lemma TwoFirstFacts(s: State, T: Tree, t: Tid)
    requires Inv(s, T) && t in s.threads && s.threads[t].TwoFirst?
    ensures var x, k, h := s.threads[t].node, s.threads[t].op.key, Logical(s);
            && x in s.heap && x in h && h[x] == s.heap[x] && x in Ids(T)
            && h[x].right in Ids(T) && h[x].right in h && IsChild(h, x, h[x].right)
            && Seg(T, 2 * k + 1, x, h[x].right) == {h[x].right}
  {
    hide NoLeak, LNode, NobodyOn, MidOK, LockInv;
    var x, k, h := s.threads[t].node, s.threads[t].op.key, Logical(s);
    HeldRaw(s, T, t, x);
    OnPathIn(T, 2 * k, x);
    OddPath(T, h, s.root, k, x);
    ChildIn(T, h, s.root, x, h[x].right);
    SegFirst(T, h, s.root, 2 * k + 1, x, h[x].right);
  }

  lemma WalkFacts(s: State, T: Tree, t: Tid)
    requires Inv(s, T) && t in s.threads && (s.threads[t].TwoAt? || s.threads[t].TwoWait?)
    ensures var pc, h := s.threads[t], Logical(s);
            && pc.node in s.heap && pc.node in h && h[pc.node] == s.heap[pc.node] && pc.node in Ids(T)
            && pc.sp in s.heap && pc.sp in h && h[pc.sp] == s.heap[pc.sp] && pc.sp in Ids(T)
            && pc.succ in s.heap && pc.succ in h && h[pc.succ] == s.heap[pc.succ] && pc.succ in Ids(T)
  {
    hide Represents, Ordered, NoLeak, LNode, NobodyOn, MidOK, MemInv, LockInv;
    var pc := s.threads[t];
    HeldRaw(s, T, t, pc.node);
    HeldRaw(s, T, t, pc.sp);
    HeldRaw(s, T, t, pc.succ);
    OnPathIn(T, 2 * pc.op.key, pc.node);
    SegIn(T, 2 * pc.op.key + 1, pc.node, pc.succ);
  }

  lemma WalkCase(s: State, T: Tree, t: Tid, c: Choice)
    requires Inv(s, T) && t in s.threads && s.threads[t].TwoAt?
    requires s.threads[t].succ in s.heap && s.heap[s.threads[t].succ].left != NULL
    ensures Kept(s, T, t, Exec(s, t, c), T)
  {
    hide Represents, Ordered, NoLeak, LNode, NobodyOn, OnPath, MemInv, Contents, Ids, Seg, LockInv;
    var TwoAt(op, x, sp, succ) := s.threads[t];
    WalkFacts(s, T, t);
    PcStep(s, T, t, TwoWait(op, x, sp, succ, s.heap[succ].left));
  }

  lemma WalkOn(s: State, T: Tree, t: Tid)
    requires Inv(s, T) && t in s.threads && s.threads[t].TwoWait?
    ensures var TwoWait(op, x, sp, succ, next) := s.threads[t];
            && next in Ids(T) && succ in Ids(T) && next in Logical(s) && IsChild(Logical(s), succ, next)
            && Seg(T, 2 * op.key + 1, x, next) == Seg(T, 2 * op.key + 1, x, succ) + {next}
  {
    hide NoLeak, LNode, NobodyOn, MidOK, LockInv;
    var TwoWait(op, x, sp, succ, next) := s.threads[t];
    var k, h := op.key, Logical(s);
    WalkFacts(s, T, t);
    ChildIn(T, h, s.root, succ, next);
    SegKeys(T, h, s.root, k, x, succ, succ);
    SegNext(T, h, s.root, 2 * k + 1, x, succ, next);
  }

  /** Where the walk is once it holds the next node. */
  function Arrived(pc: PC): (r: PC)
    requires pc.TwoWait?
  {
    if pc.sp == pc.node then TwoAt(pc.op, pc.node, pc.succ, pc.next) else TwoHand(pc.op, pc.node, pc.sp, pc.succ, pc.next)
  }

  lemma WalkArrives(s: State, T: Tree, t: Tid)
    requires Inv(s, T) && t in s.threads && s.threads[t].TwoWait? && NodeLock(s.threads[t].next) !in s.owner
    ensures var pc, pc' := s.threads[t], Arrived(s.threads[t]);
            && GoodPC(T, Logical(s), s.root, pc') && NodeLock(pc.succ) in Held(pc)
            && Held(pc') == Held(pc) + {NodeLock(pc.next)} && Doomed(pc') == Doomed(pc)
            && Walked(T, pc') <= Walked(T, pc) + {pc.next}
  {
    hide Represents, Ordered, NoLeak, LNode, NobodyOn, OnPath, MemInv, Contents, Ids, Seg, LockInv;
    var TwoWait(op, x, sp, succ, next) := s.threads[t];
    WalkFacts(s, T, t);
    WalkOn(s, T, t);
    FreeLock(s, next);
    assert Holds(s.threads[t], x) && Holds(s.threads[t], sp) && Holds(s.threads[t], succ);
  }

  lemma WalkWaitCase(s: State, T: Tree, t: Tid, c: Choice)
    requires Inv(s, T) && t in s.threads && s.threads[t].TwoWait?
    ensures Kept(s, T, t, Exec(s, t, c), T)
  {
    hide GoodPC, Held, Walked, Doomed, Logical, IsChild, Represents, Ordered, NoLeak, LNode, NobodyOn, MemInv, LockInv, Contents, Ids, Seg;
    var pc := s.threads[t];
    WalkOn(s, T, t);
    InHeap(s, T, pc.next);
    if NodeLock(pc.next) !in s.owner {
      WalkArrives(s, T, t);
      AcquireStep(s, T, t, NodeLock(pc.succ), pc.next, Arrived(pc));
    }
  }

  lemma WalkHandCase(s: State, T: Tree, t: Tid, c: Choice)
    requires Inv(s, T) && t in s.threads && s.threads[t].TwoHand?
    ensures Kept(s, T, t, Exec(s, t, c), T)
  {
    hide Represents, Ordered, NoLeak, LNode, NobodyOn, OnPath, MemInv, Contents, Ids, Seg, LockInv;
    var TwoHand(op, x, sp, succ, next) := s.threads[t];
    ReleaseStep(s, T, t, NodeLock(sp), TwoAt(op, x, succ, next));
  }

  ghost predicate AtCopy(s: State, t: Tid) {
    && t in s.threads && s.threads[t].TwoAt? && s.threads[t].succ in s.heap && s.heap[s.threads[t].succ].left == NULL
  }

  lemma CopyFacts(s: State, T: Tree, t: Tid)
    requires Inv(s, T) && AtCopy(s, t)
    ensures var TwoAt(op, x, sp, succ) := s.threads[t];
            var k, h := op.key, Logical(s);
            && op.Delete? && k in Contents(T) && x in h && sp in h && succ in h
            && Found(T, k).Branch? && Found(T, k).id == x && HasTwo(Found(T, k)) && Removed(T, k) == succ
            && MinNode(Found(T, k).right).id == succ
            && Represents(Rem(T, k), TwoHeap(h, x, sp, succ), s.root)
  {
    hide NoLeak, LNode, NobodyOn, MidOK, MemInv, LockInv;
    var TwoAt(op, x, sp, succ) := s.threads[t];
    WalkFacts(s, T, t);
    SpineWhole(T, Logical(s), s.root, op.key, x, succ);
    RemTwoRep(T, Logical(s), s.root, op.key, x, sp, succ);
  }

  /** The linearization point: the key of the successor overwrites the deleted key. */
  lemma CopyCase(s: State, T: Tree, t: Tid, c: Choice) returns (T': Tree)
    requires Inv(s, T) && AtCopy(s, t)
    ensures Kept(s, T, t, Exec(s, t, c), T')
  {
    hide Represents, NoLeak, NobodyOn, Contents, Ids, Rem, Ordered, OnPath, MemInv, LockInv, Found, Seg, Walked;
    var TwoAt(op, x, sp, succ) := s.threads[t];
    var k, h := op.key, Logical(s);
    WalkFacts(s, T, t);
    CopyFacts(s, T, t);
    T' := Rem(T, k);
    RemValue(T, k);
    var s' := Exec(s, t, c).s;
    var pc' := TwoValue(op, x, sp, succ);
    assert s'.threads == s.threads[t := pc'];
    assert Holds(s.threads[t], x) && Holds(s.threads[t], sp) && Holds(s.threads[t], succ);
    OwnsLock(s, t, NodeLock(x));
    OwnsLock(s, t, NodeLock(sp));
    OwnsLock(s, t, NodeLock(succ));
    CopyLogical(s, s', T, t);
    RemoveMem(s, s', T, T', t, succ, pc');
    assert NobodyOn(s, t, Seg(T, 2 * k + 1, x, succ)) by { WalkedIs(s, T, t); }
    RemoveOthers(s, s', T, t, k, pc');
    NotWalking(T', pc');
    TreeStep(s, s', T, T', t, pc');
  }

  lemma WalkedIs(s: State, T: Tree, t: Tid)
    requires Inv(s, T) && t in s.threads && s.threads[t].TwoAt?
    ensures var pc := s.threads[t]; NobodyOn(s, t, Seg(T, 2 * pc.op.key + 1, pc.node, pc.succ))
  {
    hide Represents, NoLeak, NobodyOn, Ids, Ordered, MemInv, LockInv, GoodPC, MidOK, LNode;
  }

  lemma NotWalking(T: Tree, pc: PC)
    requires Mid(pc)
    ensures Walked(T, pc) == {}
  {}

  lemma CopyLogical(s: State, s': State, T: Tree, t: Tid)
    requires Inv(s, T) && AtCopy(s, t)
    requires var TwoAt(op, x, sp, succ) := s.threads[t];
             x in s.heap && s' == s.(heap := s.heap[x := s.heap[x].(key := s.heap[succ].key)]).Goto(t, TwoValue(op, x, sp, succ))
    ensures var TwoAt(op, x, sp, succ) := s.threads[t];
            x in Logical(s) && sp in Logical(s) && succ in Logical(s)
            && Logical(s') == TwoHeap(Logical(s), x, sp, succ)
  {
    hide Represents, NoLeak, NobodyOn, Ids, Ordered, MemInv, LockInv, OnPath, Seg, Walked, LNode, MidOK, Contents;
    var TwoAt(op, x, sp, succ) := s.threads[t];
    var h := Logical(s);
    WalkFacts(s, T, t);
    assert Holds(s.threads[t], x) && Holds(s.threads[t], sp) && Holds(s.threads[t], succ);
    OwnsLock(s, t, NodeLock(x));
    OwnsLock(s, t, NodeLock(sp));
    OwnsLock(s, t, NodeLock(succ));
    forall y | y in s.heap ensures LNode(s', y) == TwoHeap(h, x, sp, succ)[y] {
      CopyNode(s, s', T, t, y);
    }
  }

  lemma CopyNode(s: State, s': State, T: Tree, t: Tid, y: NodeId)
    requires Inv(s, T) && AtCopy(s, t) && y in s.heap
    requires var TwoAt(op, x, sp, succ) := s.threads[t];
             x in s.heap && s' == s.(heap := s.heap[x := s.heap[x].(key := s.heap[succ].key)]).Goto(t, TwoValue(op, x, sp, succ))
    ensures var TwoAt(op, x, sp, succ) := s.threads[t];
            x in Logical(s) && sp in Logical(s) && succ in Logical(s)
            && LNode(s', y) == TwoHeap(Logical(s), x, sp, succ)[y]
  {
    hide Represents, NoLeak, NobodyOn, Ids, Ordered, MemInv, OnPath, Seg, Walked, MidOK, Contents;
    var TwoAt(op, x, sp, succ) := s.threads[t];
    WalkFacts(s, T, t);
    assert Holds(s.threads[t], x) && Holds(s.threads[t], sp) && Holds(s.threads[t], succ);
    OwnsLock(s, t, NodeLock(x));
    OwnsLock(s, t, NodeLock(sp));
    OwnsLock(s, t, NodeLock(succ));
    var pc := s.threads[t];
    assert forall l | l in s.owner && s.owner[l] == t :: l in Held(pc);
    if y != x && y != sp && y != succ {
      OtherNode(s, s', T, t, y);
    }
  }

  /** Locks and logical nodes of a thread that is in the middle of copying. */
  lemma MidFacts(s: State, T: Tree, t: Tid)
    requires Inv(s, T) && t in s.threads && Mid(s.threads[t])
    ensures var pc := s.threads[t];
            && pc.op.Delete? && pc.node in s.heap && pc.sp in s.heap && pc.succ in s.heap
            && pc.node in Ids(T) && pc.sp in Ids(T) && pc.succ !in Ids(T)
            && NodeLock(pc.node) in s.owner && s.owner[NodeLock(pc.node)] == t
            && NodeLock(pc.sp) in s.owner && s.owner[NodeLock(pc.sp)] == t
            && NodeLock(pc.succ) in s.owner && s.owner[NodeLock(pc.succ)] == t
            && s.heap[pc.node].key == s.heap[pc.succ].key
            && (pc.TwoUnlink? ==> s.heap[pc.node].value == s.heap[pc.succ].value)
            && (forall l | l in s.owner && s.owner[l] == t :: l in {NodeLock(pc.node), NodeLock(pc.sp), NodeLock(pc.succ)})
  {
    hide Represents, Ordered, NoLeak, LNode, NobodyOn, Contents, Ids;
    var pc := s.threads[t];
    MidHolds(pc);
    HeldRaw(s, T, t, pc.node);
    HeldRaw(s, T, t, pc.sp);
    HeldRaw(s, T, t, pc.succ);
  }

  /** Completing a copy by a write to a node that the thread holds does not show in the logical heap. */
  lemma CompleteStep(s: State, s': State, T: Tree, t: Tid, pc': PC)
    requires Inv(s, T) && t in s.threads && Mid(s.threads[t])
    requires s' == s.(heap := s'.heap).Goto(t, pc') && s'.heap.Keys == s.heap.Keys
    requires forall x | x in s.heap && x != s.threads[t].node && x != s.threads[t].sp :: s'.heap[x] == s.heap[x]
    requires LNode(s', s.threads[t].node) == LNode(s, s.threads[t].node)
    requires LNode(s', s.threads[t].sp) == LNode(s, s.threads[t].sp)
    requires Held(pc') == Held(s.threads[t]) && Doomed(pc') == Doomed(s.threads[t])
    requires MidOK(s', pc') && Walked(T, pc') == {} && forall h :: GoodPC(T, h, s.root, pc')
    ensures Inv(s', T)
  {
    hide GoodPC, Represents, Ordered, NoLeak, LNode, NobodyOn, Contents, Ids, Held, Doomed, LockInv, MemInv, MidOK;
    MidFacts(s, T, t);
    var pc := s.threads[t];
    forall x | x in Ids(T) ensures x in s'.heap && x in s.heap && LNode(s', x) == LNode(s, x) {
      InHeap(s, T, x);
      if x != pc.node && x != pc.sp { OtherNode(s, s', T, t, x); }
    }
    MemKeys(s, s', T, t, pc');
    LocksSame(s, s', t, pc');
    OthersClear(s, T, t, pc');
    assert NobodyOn(s, t, Walked(T, pc')) by { EmptySeg(s, t); }
    QuietStep(s, s', T, t, pc');
  }

  lemma OthersClear(s: State, T: Tree, t: Tid, pc': PC)
    requires Inv(s, T) && t in s.threads && Held(pc') == Held(s.threads[t])
    ensures forall u, x | u in s.threads && u != t && x in Walked(T, s.threads[u]) :: !Holds(pc', x)
  {
    hide GoodPC, Represents, Ordered, NoLeak, LNode, Contents, Ids, Held, Doomed, LockInv, MemInv, MidOK, Walked;
  }

  lemma MemKeys(s: State, s': State, T: Tree, t: Tid, pc': PC)
    requires MemInv(s, T) && NoLeak(s, T) && t in s.threads && s'.threads == s.threads[t := pc']
    requires s'.heap.Keys == s.heap.Keys && Doomed(pc') == Doomed(s.threads[t])
    ensures MemInv(s', T) && NoLeak(s', T)
  {
    hide Doomed, Ids;
    forall x | x in s'.heap && x !in Ids(T) ensures IsDoomed(s'.threads, x) {
      assert x in s.heap;
      var u :| u in s.threads && x in Doomed(s.threads[u]);
      assert x in Doomed(s'.threads[u]);
    }
  }

  lemma CopyValueCase(s: State, T: Tree, t: Tid, c: Choice)
    requires Inv(s, T) && t in s.threads && s.threads[t].TwoValue?
    ensures Kept(s, T, t, Exec(s, t, c), T)
  {
    hide Represents, Ordered, NoLeak, NobodyOn, Contents, Ids, LockInv, MemInv;
    var TwoValue(op, x, sp, succ) := s.threads[t];
    MidFacts(s, T, t);
    var pc' := TwoUnlink(op, x, sp, succ);
    var s' := s.(heap := s.heap[x := s.heap[x].(value := s.heap[succ].value)]).Goto(t, pc');
    CompleteStep(s, s', T, t, pc');
  }

  lemma SpliceTodo(T: Tree, x: NodeId, sp: NodeId, succ: NodeId)
    requires x in Ids(T) && sp in Ids(T) && succ !in Ids(T)
    ensures var todo := [Unlock(NodeLock(succ)), Free(succ), Unlock(NodeLock(x))];
            && HeldActs(todo) == {NodeLock(x), NodeLock(succ)} && FreedActs(todo) == {succ} && TodoOK(T, todo)
            && (sp != x ==>
                  var todo' := [Unlock(NodeLock(sp))] + todo;
                  HeldActs(todo') == {NodeLock(x), NodeLock(sp), NodeLock(succ)} && FreedActs(todo') == {succ} && TodoOK(T, todo'))
  {
    var last := [Unlock(NodeLock(x))];
    OneUnlock(T, NodeLock(x));
    ActsCons(Free(succ), last);
    ActsCons(Unlock(NodeLock(succ)), [Free(succ)] + last);
    var todo := [Unlock(NodeLock(succ))] + ([Free(succ)] + last);
    assert todo == [Unlock(NodeLock(succ)), Free(succ), Unlock(NodeLock(x))];
    assert TodoOK(T, [Free(succ)] + last);
    ActsCons(Unlock(NodeLock(sp)), todo);
  }

  lemma SpliceCase(s: State, T: Tree, t: Tid, c: Choice)
    requires Inv(s, T) && t in s.threads && s.threads[t].TwoUnlink?
    ensures Kept(s, T, t, Exec(s, t, c), T)
  {
    hide Represents, Ordered, NoLeak, NobodyOn, Contents, Ids, LockInv, MemInv, HeldActs, FreedActs, TodoOK;
    var TwoUnlink(op, x, sp, succ) := s.threads[t];
    MidFacts(s, T, t);
    SpliceTodo(T, x, sp, succ);
    var s' := Exec(s, t, c).s;
    var pc' := s'.threads[t];
    CompleteStep(s, s', T, t, pc');
  }

  // ----- cleaning up and returning

  lemma ReturnCase(s: State, T: Tree, t: Tid, c: Choice)
    requires Inv(s, T) && t in s.threads && s.threads[t].Finish? && s.threads[t].todo == []
    ensures Kept(s, T, t, Exec(s, t, c), T)
  {
    hide Represents, Ordered, NoLeak, NobodyOn, Contents, Ids, LockInv, MemInv, LNode;
    PcStep(s, T, t, Idle);
  }

  lemma UnlockCase(s: State, T: Tree, t: Tid, c: Choice)
    requires Inv(s, T) && t in s.threads && s.threads[t].Finish?
    requires s.threads[t].todo != [] && s.threads[t].todo[0].Unlock?
    ensures Kept(s, T, t, Exec(s, t, c), T)
  {
    hide Represents, Ordered, NoLeak, NobodyOn, Contents, Ids, LockInv, MemInv, LNode, HeldActs, FreedActs;
    var Finish(op, todo, res) := s.threads[t];
    ActsCons(todo[0], todo[1..]);
    assert todo == [todo[0]] + todo[1..];
    ReleaseStep(s, T, t, todo[0].loc, Finish(op, todo[1..], res));
  }

  lemma FreeMem(s: State, s': State, T: Tree, t: Tid, x: NodeId, pc': PC)
    requires MemInv(s, T) && NoLeak(s, T) && t in s.threads && s'.threads == s.threads[t := pc']
    requires s'.heap == s.heap - {x} && x in Doomed(s.threads[t]) && Doomed(pc') == Doomed(s.threads[t]) - {x}
    ensures MemInv(s', T) && NoLeak(s', T)
  {
    hide Doomed, Ids;
    forall y | y in s'.heap && y !in Ids(T) ensures IsDoomed(s'.threads, y) {
      var u :| u in s.threads && y in Doomed(s.threads[u]);
      assert y in Doomed(s'.threads[u]);
    }
  }

  /** Nobody can hold, or be waiting for, a node that is about to be freed. */
  lemma FreeFacts(s: State, T: Tree, t: Tid)
    requires Inv(s, T) && t in s.threads && s.threads[t].Finish?
    requires s.threads[t].todo != [] && s.threads[t].todo[0].Free?
    ensures var Finish(op, todo, res) := s.threads[t];
            var x := todo[0].id;
            && x in s.heap && x !in Ids(T) && x in FreedActs(todo) && NodeLock(x) !in s.owner
            && HeldActs(todo[1..]) == HeldActs(todo) && FreedActs(todo[1..]) == FreedActs(todo) - {x}
            && TodoOK(T, todo[1..])
  {
    hide Represents, Ordered, NoLeak, NobodyOn, Contents, Ids, LNode, HeldActs, FreedActs;
    var Finish(op, todo, res) := s.threads[t];
    var x := todo[0].id;
    ActsCons(todo[0], todo[1..]);
    assert todo == [todo[0]] + todo[1..];
    assert x in Doomed(s.threads[t]);
    if NodeLock(x) in s.owner {
      var u := s.owner[NodeLock(x)];
      HeldIn(T, Logical(s), s.root, s.threads[u], x);
    }
  }

  lemma FreeCase(s: State, T: Tree, t: Tid, c: Choice)
    requires Inv(s, T) && t in s.threads && s.threads[t].Finish?
    requires s.threads[t].todo != [] && s.threads[t].todo[0].Free?
    ensures Kept(s, T, t, Exec(s, t, c), T)
  {
    hide Represents, Ordered, NoLeak, NobodyOn, Contents, Ids, LockInv, MemInv, LNode, HeldActs, FreedActs, TodoOK;
    var Finish(op, todo, res) := s.threads[t];
    var x := todo[0].id;
    FreeFacts(s, T, t);
    var pc' := Finish(op, todo[1..], res);
    var s' := s.(heap := s.heap - {x}).Goto(t, pc');
    forall y | y in Ids(T) ensures y in s.heap { InHeap(s, T, y); }
    OtherNodes(s, s', T, t, pc');
    FreeMem(s, s', T, t, x, pc');
    LocksSame(s, s', t, pc');
    OthersClear(s, T, t, pc');
    assert NobodyOn(s, t, Walked(T, pc')) by { EmptySeg(s, t); }
    QuietStep(s, s', T, t, pc');
  }

  // ----- all steps

  /** Every step of every thread: no fault, the invariant holds again, and the contents of the tree
      change as in one step of the atomic map. */
  lemma StepKeeps(s: State, T: Tree, t: Tid, c: Choice) returns (T': Tree)
    requires Inv(s, T) && t in s.threads
    ensures Kept(s, T, t, Exec(s, t, c), T')
  {
    hide Represents, Ordered, NoLeak, NobodyOn, Contents, Ids, LockInv, MemInv, LNode, MidOK, Kept, Walked, Held, Doomed;
    T' := T;
    match s.threads[t]
    case Idle => CallCase(s, T, t, c);
    case Start(_) => StartCase(s, T, t, c);
    case At(_, cur) =>
      if cur.TreeLock? { T' := CompareRootCase(s, T, t, c); } else { T' := CompareCase(s, T, t, c, cur.id); }
    case Wait(_, _, _, _) => WaitCase(s, T, t, c);
    case HandOver(_, _, _) => HandOverCase(s, T, t, c);
    case DelAt(op, _, _, x) =>
      HeldHere(s, T, t, x);
      if s.heap[x].key != op.key { DelMissCase(s, T, t, c); }
      else if s.heap[x].left == NULL || s.heap[x].right == NULL { T' := UnlinkCase(s, T, t, c); }
      else { DelTwoCase(s, T, t, c); }
    case DelDrop(_, _, _, _, _) => DropCase(s, T, t, c);
    case TwoDrop(_, _, _) => DropCase(s, T, t, c);
    case TwoFirst(_, _) => TwoFirstCase(s, T, t, c);
    case TwoAt(_, _, _, succ) =>
      WalkFacts(s, T, t);
      if s.heap[succ].left != NULL { WalkCase(s, T, t, c); } else { T' := CopyCase(s, T, t, c); }
    case TwoWait(_, _, _, _, _) => WalkWaitCase(s, T, t, c);
    case TwoHand(_, _, _, _, _) => WalkHandCase(s, T, t, c);
    case TwoValue(_, _, _, _) => CopyValueCase(s, T, t, c);
    case TwoUnlink(_, _, _, _) => SpliceCase(s, T, t, c);
    case Finish(_, todo, _) =>
      if todo == [] { ReturnCase(s, T, t, c); }
      else if todo[0].Unlock? { UnlockCase(s, T, t, c); }
      else { FreeCase(s, T, t, c); }
  }

  lemma HeldHere(s: State, T: Tree, t: Tid, x: NodeId)
    requires Inv(s, T) && t in s.threads && s.threads[t].DelAt? && s.threads[t].node == x
    ensures x in s.heap
  {
    hide GoodPC, Represents, Ordered, NoLeak, NobodyOn, Contents, Ids, LockInv, MemInv, LNode, MidOK;
    HeldRaw(s, T, t, x);
  }
}
