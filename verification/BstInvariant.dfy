/** What every reachable state of the tree machine satisfies, relative to the tree `T` that its heap
    spells out. */
module BstInvariant {
  import opened BstTree
  import opened BstEdits
  import opened BstMachine

  // ----- the atomic object

  /** An operation is idle, called and not yet in effect, or in effect with its result fixed. */
  datatype Status = Quiet | Pending(op: Op) | Done(op: Op, res: Result)

  function StatusOf(pc: PC): (r: Status) {
    match pc
    case Idle => Quiet
    case TwoValue(op, _, _, _) => Done(op, Deleted)
    case TwoUnlink(op, _, _, _) => Done(op, Deleted)
    case Finish(op, _, res) => Done(op, res)
    case _ => Pending(pc.op)
  }

  /** The sequential map: what an operation may answer, and what it leaves. */
  predicate Spec(m: map<int, int>, op: Op, res: Result, m': map<int, int>) {
    match op
    case Insert(k, v) =>
      if k in m then res == Duplicate && m' == m
      else (res == Inserted && m' == m[k := v]) || (res == NoMemory && m' == m)
    case Lookup(k) => m' == m && res == if k in m then Hit(m[k]) else Missing
    case Delete(k) => m' == m - {k} && res == if k in m then Deleted else Missing
  }

  /** The effect of one step of a thread on the contents and on its own status. */
  predicate Effect(m: map<int, int>, a: Status, m': map<int, int>, a': Status) {
    match a
    case Quiet => a'.Pending? && m' == m
    case Pending(op) => (a' == a && m' == m) || (a'.Done? && a'.op == op && Spec(m, op, a'.res, m'))
    case Done(_, _) => (a' == a || a' == Quiet) && m' == m
  }

  // ----- what a thread holds, and what it still has to free

  function HeldActs(todo: seq<Act>): (r: set<Loc>) { set a | a in todo && a.Unlock? :: a.loc }

  function FreedActs(todo: seq<Act>): (r: set<NodeId>) { set a | a in todo && a.Free? :: a.id }

  function Held(pc: PC): (r: set<Loc>) {
    match pc
    case Idle | Start(_) => {}
    case At(_, cur) => {cur}
    case Wait(_, cur, _, _) => {cur}
    case HandOver(_, cur, next) => {cur, NodeLock(next)}
    case DelAt(_, parent, _, x) => {parent, NodeLock(x)}
    case DelDrop(_, parent, x, _, _) => {parent, NodeLock(x)}
    case TwoDrop(_, parent, x) => {parent, NodeLock(x)}
    case TwoFirst(_, x) => {NodeLock(x)}
    case TwoAt(_, x, sp, succ) => {NodeLock(x), NodeLock(sp), NodeLock(succ)}
    case TwoWait(_, x, sp, succ, _) => {NodeLock(x), NodeLock(sp), NodeLock(succ)}
    case TwoHand(_, x, sp, succ, next) => {NodeLock(x), NodeLock(sp), NodeLock(succ), NodeLock(next)}
    case TwoValue(_, x, sp, succ) => {NodeLock(x), NodeLock(sp), NodeLock(succ)}
    case TwoUnlink(_, x, sp, succ) => {NodeLock(x), NodeLock(sp), NodeLock(succ)}
    case Finish(_, todo, _) => HeldActs(todo)
  }

  predicate Holds(pc: PC, x: NodeId) { NodeLock(x) in Held(pc) }

  predicate Mid(pc: PC) { pc.TwoValue? || pc.TwoUnlink? }

  function Doomed(pc: PC): (r: set<NodeId>) {
    if Mid(pc) then {pc.succ} else if pc.Finish? then FreedActs(pc.todo) else {}
  }

  ghost predicate IsDoomed(threads: map<Tid, PC>, x: NodeId) {
    exists t | t in threads :: x in Doomed(threads[t])
  }

  // ----- the logical heap

  /** A node as it will be once the copying that its owner is in the middle of is complete. */
  function Patched(heap: map<NodeId, Node>, pc: PC, x: NodeId): (r: Node)
    requires x in heap
  {
    if !Mid(pc) || pc.succ !in heap then heap[x]
    else
      var n := heap[pc.succ];
      if x == pc.node then Node(n.key, n.value, heap[x].left, if pc.sp == x then n.right else heap[x].right)
      else if x == pc.sp then heap[x].(left := n.right)
      else heap[x]
  }

  function LNode(s: State, x: NodeId): (r: Node)
    requires x in s.heap
  {
    if NodeLock(x) in s.owner && s.owner[NodeLock(x)] in s.threads
    then Patched(s.heap, s.threads[s.owner[NodeLock(x)]], x)
    else s.heap[x]
  }

  function Logical(s: State): (r: map<NodeId, Node>) { map x | x in s.heap :: LNode(s, x) }

  // ----- the invariant

  ghost predicate OnLoc(T: Tree, k: int, l: Loc) { l.TreeLock? || OnPath(T, 2 * k, l.id) }

  /** `next` hangs where the search for `k` goes on from `l`. */
  ghost predicate LinkTo(h: map<NodeId, Node>, root: NodeId, k: int, l: Loc, goLeft: bool, next: NodeId) {
    && next != NULL
    && match l
       case TreeLock => root == next
       case NodeLock(x) => x in h && h[x].key != k && goLeft == (k < h[x].key) && h[x].Child(goLeft) == next
  }

  ghost predicate TodoOK(T: Tree, todo: seq<Act>) {
    todo == [] ||
    match todo[0]
    case Unlock(l) =>
      && l !in HeldActs(todo[1..]) && TodoOK(T, todo[1..])
      && (l.NodeLock? ==> l.id in Ids(T) || l.id in FreedActs(todo[1..]))
    case Free(x) =>
      && x !in Ids(T) && NodeLock(x) !in HeldActs(todo[1..]) && x !in FreedActs(todo[1..]) && TodoOK(T, todo[1..])
  }

  /** Holding a node with two children that holds the key to be deleted. */
  ghost predicate Pinned(T: Tree, h: map<NodeId, Node>, op: Op, x: NodeId) {
    op.Delete? && OnPath(T, 2 * op.key, x) && x in h && h[x].key == op.key && h[x].left != NULL && h[x].right != NULL
  }

  ghost predicate GoodPC(T: Tree, h: map<NodeId, Node>, root: NodeId, pc: PC) {
    match pc
    case Idle | Start(_) => true
    case At(op, cur) => OnLoc(T, op.key, cur) && (cur.NodeLock? ==> !op.Delete?)
    case Wait(op, cur, goLeft, next) => OnLoc(T, op.key, cur) && LinkTo(h, root, op.key, cur, goLeft, next)
    case HandOver(op, cur, next) =>
      !op.Delete? && OnLoc(T, op.key, cur) && OnPath(T, 2 * op.key, next) && cur != NodeLock(next)
    case DelAt(op, parent, goLeft, x) =>
      op.Delete? && OnLoc(T, op.key, parent) && LinkTo(h, root, op.key, parent, goLeft, x)
      && OnPath(T, 2 * op.key, x) && parent != NodeLock(x)
    case DelDrop(op, parent, x, goLeft, next) =>
      op.Delete? && OnLoc(T, op.key, parent) && OnPath(T, 2 * op.key, x) && parent != NodeLock(x)
      && LinkTo(h, root, op.key, NodeLock(x), goLeft, next)
    case TwoDrop(op, parent, x) => OnLoc(T, op.key, parent) && parent != NodeLock(x) && Pinned(T, h, op, x)
    case TwoFirst(op, x) => Pinned(T, h, op, x)
    case TwoAt(op, x, sp, succ) => op.Delete? && AtSuccessor(T, h, op.key, x, sp, succ) && succ != x && succ != sp
    case TwoWait(op, x, sp, succ, next) =>
      op.Delete? && AtSuccessor(T, h, op.key, x, sp, succ) && succ != x && succ != sp && next != NULL && h[succ].left == next
    case TwoHand(op, x, sp, succ, next) =>
      op.Delete? && AtSuccessor(T, h, op.key, x, succ, next) && succ != x && next != x && next != succ
      && sp in Ids(T) && sp != x && sp != succ && sp != next
    case TwoValue(op, x, sp, succ) => op.Delete? && x in Ids(T) && sp in Ids(T) && succ !in Ids(T)
    case TwoUnlink(op, x, sp, succ) => op.Delete? && x in Ids(T) && sp in Ids(T) && succ !in Ids(T)
    case Finish(_, todo, _) => TodoOK(T, todo)
  }

  /** The part of the successor walk that lies behind the walker: nobody else is on it. */
  function Walked(T: Tree, pc: PC): (r: set<NodeId>) {
    match pc
    case TwoAt(op, x, _, succ) => Seg(T, 2 * op.key + 1, x, succ)
    case TwoWait(op, x, _, succ, _) => Seg(T, 2 * op.key + 1, x, succ)
    case TwoHand(op, x, _, _, next) => Seg(T, 2 * op.key + 1, x, next)
    case _ => {}
  }

  ghost predicate MidOK(s: State, pc: PC) {
    Mid(pc) ==>
      && pc.node in s.heap && pc.sp in s.heap && pc.succ in s.heap && s.heap[pc.node].key == s.heap[pc.succ].key
      && (pc.TwoUnlink? ==> s.heap[pc.node].value == s.heap[pc.succ].value)
  }

  /** A lock is owned by exactly the thread whose program counter says so. */
  ghost predicate LockInv(s: State) {
    && (forall l | l in s.owner :: s.owner[l] in s.threads && l in Held(s.threads[s.owner[l]]))
    && (forall t, l | t in s.threads && l in Held(s.threads[t]) :: l in s.owner && s.owner[l] == t)
  }

  /** Allocated memory is the tree plus the unlinked nodes that one thread each is about to free. */
  ghost predicate MemInv(s: State, T: Tree) {
    && NULL !in s.heap && (forall x | x in Ids(T) :: x in s.heap)
    && (forall t, x | t in s.threads && x in Doomed(s.threads[t]) :: x in s.heap && x !in Ids(T))
    && (forall t, u, x | t in s.threads && u in s.threads && t != u && x in Doomed(s.threads[t]) ::
          x !in Doomed(s.threads[u]))
  }

  /** Nothing leaks. */
  ghost predicate NoLeak(s: State, T: Tree) {
    forall x | x in s.heap && x !in Ids(T) :: IsDoomed(s.threads, x)
  }

  ghost predicate NobodyOn(s: State, t: Tid, seg: set<NodeId>) {
    forall u, x | u in s.threads && u != t && x in seg :: !Holds(s.threads[u], x)
  }

  ghost predicate Inv(s: State, T: Tree) {
    && Represents(T, Logical(s), s.root) && Ordered(T)
    && LockInv(s) && MemInv(s, T) && NoLeak(s, T)
    && (forall t | t in s.threads :: GoodPC(T, Logical(s), s.root, s.threads[t]) && MidOK(s, s.threads[t]))
    && (forall t | t in s.threads :: NobodyOn(s, t, Walked(T, s.threads[t])))
  }

  // ----- frames

  lemma {:induction false} TodoHeld(T: Tree, todo: seq<Act>, x: NodeId)
    requires TodoOK(T, todo) && NodeLock(x) in HeldActs(todo)
    ensures x in Ids(T) || x in FreedActs(todo)
  {
    if todo[0] != Unlock(NodeLock(x)) { TodoHeld(T, todo[1..], x); }
  }

  /** Every node a thread holds is in the tree, or is one it is about to free. */
  lemma HeldIn(T: Tree, h: map<NodeId, Node>, root: NodeId, pc: PC, x: NodeId)
    requires GoodPC(T, h, root, pc) && Holds(pc, x)
    ensures x in Ids(T) || x in Doomed(pc)
  {
    match pc
    case Finish(_, todo, _) => TodoHeld(T, todo, x);
    case Wait(op, cur, _, _) => OnPathIn(T, 2 * op.key, x);
    case At(op, cur) => OnPathIn(T, 2 * op.key, x);
    case HandOver(op, cur, next) => OnPathIn(T, 2 * op.key, x);
    case DelAt(op, parent, _, y) => OnPathIn(T, 2 * op.key, x);
    case DelDrop(op, parent, y, _, _) => OnPathIn(T, 2 * op.key, x);
    case TwoDrop(op, parent, y) => OnPathIn(T, 2 * op.key, x);
    case TwoFirst(op, y) => OnPathIn(T, 2 * op.key, x);
    case TwoAt(op, y, sp, succ) => OnPathIn(T, 2 * op.key, y); SegIn(T, 2 * op.key + 1, y, succ);
    case TwoWait(op, y, sp, succ, _) => OnPathIn(T, 2 * op.key, y); SegIn(T, 2 * op.key + 1, y, succ);
    case TwoHand(op, y, sp, succ, next) => OnPathIn(T, 2 * op.key, y); SegIn(T, 2 * op.key + 1, y, next);
    case _ =>
  }

  lemma {:induction false} TodoFrame(T: Tree, T': Tree, todo: seq<Act>)
    requires TodoOK(T, todo)
    requires forall x | NodeLock(x) in HeldActs(todo) && x in Ids(T) :: x in Ids(T')
    requires forall x | x in FreedActs(todo) :: x !in Ids(T')
    ensures TodoOK(T', todo)
  {
    if todo != [] { TodoFrame(T, T', todo[1..]); }
  }

  /** A step of one thread that leaves the tree alone keeps the position of another. */
  lemma FrameSame(T: Tree, h: map<NodeId, Node>, h': map<NodeId, Node>, root: NodeId, pc: PC)
    requires GoodPC(T, h, root, pc)
    requires forall x | x in Ids(T) :: x in h' && x in h && h'[x] == h[x]
    ensures GoodPC(T, h', root, pc)
  {
    forall x | Holds(pc, x) ensures x in Ids(T) || x in Doomed(pc) { HeldIn(T, h, root, pc, x); }
  }

  /** Linking a leaf keeps the position of every thread that does not hold the node it is linked to. */
  lemma FrameIns(T: Tree, h: map<NodeId, Node>, h': map<NodeId, Node>, root: NodeId, root': NodeId, pc: PC,
                 k: int, v: int, id: NodeId)
    requires GoodPC(T, h, root, pc) && Ordered(T) && k !in Contents(T) && id !in Doomed(pc)
    requires forall x | Holds(pc, x) && x in h :: x in h' && h'[x] == h[x]
    requires TreeLock in Held(pc) ==> root' == root
    ensures GoodPC(Ins(T, k, v, id), h', root', pc)
    ensures Walked(Ins(T, k, v, id), pc) == Walked(T, pc)
  {
    var T' := Ins(T, k, v, id);
    InsIds(T, k, v, id);
    if pc.Finish? { TodoFrameIns(T, T', pc.todo, id); }
    else if !pc.Idle? {
      forall x | OnPath(T, 2 * pc.op.key, x) ensures OnPath(T', 2 * pc.op.key, x) {
        InsPath(T, k, v, id, 2 * pc.op.key, x);
      }
      match pc
      case TwoAt(op, x, sp, succ) => InsSeg(T, k, v, id, 2 * op.key + 1, x, succ);
      case TwoWait(op, x, sp, succ, _) => InsSeg(T, k, v, id, 2 * op.key + 1, x, succ);
      case TwoHand(op, x, sp, succ, next) => InsSeg(T, k, v, id, 2 * op.key + 1, x, next);
      case _ =>
    }
  }

  lemma TodoFrameIns(T: Tree, T': Tree, todo: seq<Act>, id: NodeId)
    requires TodoOK(T, todo) && Ids(T') == Ids(T) + {id} && id !in FreedActs(todo)
    ensures TodoOK(T', todo)
  {
    TodoFreed(T, todo);
    TodoFrame(T, T', todo);
  }

  lemma {:induction false} TodoFreed(T: Tree, todo: seq<Act>)
    requires TodoOK(T, todo)
    ensures FreedActs(todo) !! Ids(T)
  {
    if todo != [] {
      TodoFreed(T, todo[1..]);
      assert FreedActs(todo) == FreedActs(todo[1..]) + (if todo[0].Free? then {todo[0].id} else {});
    }
  }

  /** A removal keeps the position of every thread that holds neither the removed node nor, when a
      successor is moved up, the target of the deletion or a node on the spine. */
  lemma FrameRem(T: Tree, h: map<NodeId, Node>, h': map<NodeId, Node>, root: NodeId, root': NodeId, p: NodeId, pc: PC, k: int)
    requires GoodPC(T, h, root, pc) && Ordered(T) && k in Contents(T) && Represents(T, h, p)
    requires forall x | Holds(pc, x) && x in h :: x in h' && h'[x] == h[x]
    requires TreeLock in Held(pc) ==> root' == root
    requires Found(T, k).Branch? && !Holds(pc, Removed(T, k)) && !Holds(pc, Found(T, k).id)
    requires HasTwo(Found(T, k)) ==>
               forall x | x in Seg(T, 2 * k + 1, Found(T, k).id, MinNode(Found(T, k).right).id) :: !Holds(pc, x)
    ensures GoodPC(Rem(T, k), h', root', pc)
    ensures Walked(Rem(T, k), pc) <= Walked(T, pc)
  {
    var T' := Rem(T, k);
    RemValue(T, k);
    if pc.Finish? {
      TodoFreed(T, pc.todo);
      TodoFrame(T, T', pc.todo);
    } else if !pc.Idle? {
      var q := 2 * pc.op.key;
      forall x | OnPath(T, q, x) && Holds(pc, x) ensures OnPath(T', q, x) { RemPath(T, k, q, x); }
      match pc
      case TwoAt(op, x, sp, succ) => FrameRemWalk(T, h, p, k, op.key, x, succ);
      case TwoWait(op, x, sp, succ, _) => FrameRemWalk(T, h, p, k, op.key, x, succ);
      case TwoHand(op, x, sp, succ, next) => FrameRemWalk(T, h, p, k, op.key, x, next);
      case _ =>
    }
  }

  lemma FrameRemWalk(T: Tree, h: map<NodeId, Node>, p: NodeId, k: int, k': int, x: NodeId, b: NodeId)
    requires Represents(T, h, p) && Ordered(T) && k in Contents(T)
    requires OnPath(T, 2 * k', x) && x in h && h[x].key == k' && b in Seg(T, 2 * k' + 1, x, b)
    requires Found(T, k).Branch? && x != Removed(T, k) && b != Removed(T, k) && x != Found(T, k).id
    ensures Seg(Rem(T, k), 2 * k' + 1, x, b) == Seg(T, 2 * k' + 1, x, b) - {Removed(T, k)}
  {
    PathHit(T, h, p, k', x);
    NoKeyBetween(T, k, k');
    RemSeg(T, k, 2 * k' + 1, x, b);
  }
}
