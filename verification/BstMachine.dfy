/** bst.c as a step system: any number of threads, each running one operation after another on one
    shared tree with a lock on the root pointer and a lock in every node.

    One step of a thread is one lock acquisition, one lock release, one malloc-and-link, one write
    to a node that the thread holds, one free, or one reading of the fields of the nodes it holds
    together with the branch taken on them. A step that would touch memory that is not allocated,
    release a lock that is not held or destroy a locked node has the outcome `Fault`. */
module BstMachine {
  import opened BstTree

  type Tid = nat

  datatype Op = Insert(key: int, value: int) | Lookup(key: int) | Delete(key: int)

  /** Why an operation returns what it returns. */
  datatype Result = Inserted | Duplicate | NoMemory | Hit(value: int) | Missing | Deleted

  /** The code the C functions return. */
  function Code(r: Result): (res: int) {
    match r
    case Inserted | Deleted | Hit(_) => 0
    case Duplicate | NoMemory | Missing => -1
  }

  datatype Loc = TreeLock | NodeLock(id: NodeId)

  datatype Act = Unlock(loc: Loc) | Free(id: NodeId)

  /** Where a thread is, with its local variables. */
  datatype PC =
    | Idle
    | Start(op: Op)                                                     // about to lock the tree
    | At(op: Op, cur: Loc)                                              // holds cur
    | Wait(op: Op, cur: Loc, goLeft: bool, next: NodeId)                // holds cur, locks next
    | HandOver(op: Op, cur: Loc, next: NodeId)                          // holds both, unlocks cur
    | DelAt(op: Op, parent: Loc, goLeft: bool, node: NodeId)            // holds parent and node
    | DelDrop(op: Op, parent: Loc, node: NodeId, goLeft: bool, next: NodeId) // unlocks parent
    | TwoDrop(op: Op, parent: Loc, node: NodeId)                        // unlocks parent
    | TwoFirst(op: Op, node: NodeId)                                    // holds node, locks its right child
    | TwoAt(op: Op, node: NodeId, sp: NodeId, succ: NodeId)             // holds node, sp, succ
    | TwoWait(op: Op, node: NodeId, sp: NodeId, succ: NodeId, next: NodeId) // ... and locks next
    | TwoHand(op: Op, node: NodeId, sp: NodeId, succ: NodeId, next: NodeId) // holds all four, unlocks sp
    | TwoValue(op: Op, node: NodeId, sp: NodeId, succ: NodeId)          // key copied, value not yet
    | TwoUnlink(op: Op, node: NodeId, sp: NodeId, succ: NodeId)         // key and value copied
    | Finish(op: Op, todo: seq<Act>, res: Result)                       // unlocks and frees, then returns

  datatype State = State(heap: map<NodeId, Node>, root: NodeId, owner: map<Loc, Tid>, threads: map<Tid, PC>) {
    function Goto(t: Tid, pc: PC): (r: State) { this.(threads := threads[t := pc]) }
  }

  /** What the environment picks: the next operation of an idle thread, and the address malloc hands
      out, NULL when it fails. */
  datatype Choice = Choice(op: Op, alloc: NodeId)

  datatype Outcome = Next(s: State) | Disabled | Fault

  function Acquire(s: State, t: Tid, l: Loc, pc: PC): (r: Outcome) {
    if l.NodeLock? && l.id !in s.heap then Fault
    else if l in s.owner then Disabled
    else Next(s.(owner := s.owner[l := t]).Goto(t, pc))
  }

  function Release(s: State, t: Tid, l: Loc, pc: PC): (r: Outcome) {
    if l !in s.owner || s.owner[l] != t || (l.NodeLock? && l.id !in s.heap) then Fault
    else Next(s.(owner := s.owner - {l}).Goto(t, pc))
  }

  /** Stores a pointer: `tree->root`, or a child field of a node. */
  function Store(s: State, l: Loc, goLeft: bool, p: NodeId): (r: State)
    requires l.NodeLock? ==> l.id in s.heap
  {
    match l
    case TreeLock => s.(root := p)
    case NodeLock(x) => s.(heap := s.heap[x := s.heap[x].WithChild(goLeft, p)])
  }

  function Miss(s: State, t: Tid, c: Choice, op: Op, cur: Loc, goLeft: bool): (r: Outcome)
    requires cur.NodeLock? ==> cur.id in s.heap
  {
    if !op.Insert? then Next(s.Goto(t, Finish(op, [Unlock(cur)], Missing)))
    else if c.alloc == NULL then Next(s.Goto(t, Finish(op, [Unlock(cur)], NoMemory)))
    else if c.alloc in s.heap then Disabled
    else
      var s1 := s.(heap := s.heap[c.alloc := Node(op.key, op.value, NULL, NULL)]);
      Next(Store(s1, cur, goLeft, c.alloc).Goto(t, Finish(op, [Unlock(cur)], Inserted)))
  }

  function Compare(s: State, t: Tid, c: Choice, op: Op, cur: Loc): (r: Outcome) {
    match cur
    case TreeLock =>
      if s.root == NULL then Miss(s, t, c, op, cur, false)
      else Next(s.Goto(t, Wait(op, cur, false, s.root)))
    case NodeLock(x) =>
      if x !in s.heap || op.Delete? then Fault
      else
        var n := s.heap[x];
        var goLeft := op.key < n.key;
        if op.key == n.key then
          Next(s.Goto(t, Finish(op, [Unlock(cur)], if op.Insert? then Duplicate else Hit(n.value))))
        else if n.Child(goLeft) == NULL then Miss(s, t, c, op, cur, goLeft)
        else Next(s.Goto(t, Wait(op, cur, goLeft, n.Child(goLeft))))
  }

  function CompareDelete(s: State, t: Tid, op: Op, parent: Loc, side: bool, x: NodeId): (r: Outcome) {
    if x !in s.heap || (parent.NodeLock? && parent.id !in s.heap) then Fault
    else
      var n := s.heap[x];
      var goLeft := op.key < n.key;
      if op.key != n.key then
        if n.Child(goLeft) == NULL then
          Next(s.Goto(t, Finish(op, [Unlock(parent), Unlock(NodeLock(x))], Missing)))
        else
          Next(s.Goto(t, DelDrop(op, parent, x, goLeft, n.Child(goLeft))))
      else if n.left == NULL || n.right == NULL then
        var child := if n.left != NULL then n.left else n.right;
        Next(Store(s, parent, side, child)
             .Goto(t, Finish(op, [Unlock(parent), Unlock(NodeLock(x)), Free(x)], Deleted)))
      else
        Next(s.Goto(t, TwoDrop(op, parent, x)))
  }

  /** One iteration of the walk to the successor, or the copying of its key. */
  function CompareTwo(s: State, t: Tid, op: Op, x: NodeId, sp: NodeId, succ: NodeId): (r: Outcome) {
    if x !in s.heap || succ !in s.heap then Fault
    else if s.heap[succ].left != NULL then Next(s.Goto(t, TwoWait(op, x, sp, succ, s.heap[succ].left)))
    else Next(s.(heap := s.heap[x := s.heap[x].(key := s.heap[succ].key)]).Goto(t, TwoValue(op, x, sp, succ)))
  }

  function CopyValue(s: State, t: Tid, op: Op, x: NodeId, sp: NodeId, succ: NodeId): (r: Outcome) {
    if x !in s.heap || succ !in s.heap then Fault
    else Next(s.(heap := s.heap[x := s.heap[x].(value := s.heap[succ].value)]).Goto(t, TwoUnlink(op, x, sp, succ)))
  }

  function UnlinkSuccessor(s: State, t: Tid, op: Op, x: NodeId, sp: NodeId, succ: NodeId): (r: Outcome) {
    if sp !in s.heap || succ !in s.heap then Fault
    else
      var todo := [Unlock(NodeLock(succ)), Free(succ), Unlock(NodeLock(x))];
      Next(Store(s, NodeLock(sp), sp != x, s.heap[succ].right)
           .Goto(t, Finish(op, if sp == x then todo else [Unlock(NodeLock(sp))] + todo, Deleted)))
  }

  function Cleanup(s: State, t: Tid, op: Op, todo: seq<Act>, res: Result): (r: Outcome) {
    if todo == [] then Next(s.Goto(t, Idle))
    else match todo[0]
      case Unlock(l) => Release(s, t, l, Finish(op, todo[1..], res))
      case Free(x) =>
        if x !in s.heap || NodeLock(x) in s.owner then Fault
        else Next(s.(heap := s.heap - {x}).Goto(t, Finish(op, todo[1..], res)))
  }

  /** One step of thread `t`. */
  function Exec(s: State, t: Tid, c: Choice): (r: Outcome)
    requires t in s.threads
  {
    match s.threads[t]
    case Idle => Next(s.Goto(t, Start(c.op)))
    case Start(op) => Acquire(s, t, TreeLock, At(op, TreeLock))
    case At(op, cur) => Compare(s, t, c, op, cur)
    case Wait(op, cur, goLeft, next) =>
      Acquire(s, t, NodeLock(next), if op.Delete? then DelAt(op, cur, goLeft, next) else HandOver(op, cur, next))
    case HandOver(op, cur, next) => Release(s, t, cur, At(op, NodeLock(next)))
    case DelAt(op, parent, goLeft, x) => CompareDelete(s, t, op, parent, goLeft, x)
    case DelDrop(op, parent, x, goLeft, next) => Release(s, t, parent, Wait(op, NodeLock(x), goLeft, next))
    case TwoDrop(op, parent, x) => Release(s, t, parent, TwoFirst(op, x))
    case TwoFirst(op, x) =>
      if x !in s.heap then Fault
      else Acquire(s, t, NodeLock(s.heap[x].right), TwoAt(op, x, x, s.heap[x].right))
    case TwoAt(op, x, sp, succ) => CompareTwo(s, t, op, x, sp, succ)
    case TwoWait(op, x, sp, succ, next) =>
      Acquire(s, t, NodeLock(next), if sp == x then TwoAt(op, x, succ, next) else TwoHand(op, x, sp, succ, next))
    case TwoHand(op, x, sp, succ, next) => Release(s, t, NodeLock(sp), TwoAt(op, x, succ, next))
    case TwoValue(op, x, sp, succ) => CopyValue(s, t, op, x, sp, succ)
    case TwoUnlink(op, x, sp, succ) => UnlinkSuccessor(s, t, op, x, sp, succ)
    case Finish(op, todo, res) => Cleanup(s, t, op, todo, res)
  }

  predicate Init(s: State) {
    s.heap == map[] && s.root == NULL && s.owner == map[] && forall t | t in s.threads :: s.threads[t] == Idle
  }

  /** A run: consecutive states, each the outcome of one step of one thread. */
  datatype Run = Run(states: seq<State>, who: seq<Tid>, choices: seq<Choice>)

  ghost predicate IsRun(r: Run) {
    && |r.states| == |r.who| + 1 && |r.choices| == |r.who|
    && Init(r.states[0])
    && forall i {:trigger r.who[i]} | 0 <= i < |r.who| ::
         r.who[i] in r.states[i].threads && Exec(r.states[i], r.who[i], r.choices[i]) == Next(r.states[i + 1])
  }
}
