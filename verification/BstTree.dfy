/** Binary search trees as values, and what a search path through one is.

    The concurrent tree of bst.c is a heap of nodes; this module relates such a heap to the tree it
    spells out (`Represents`), and says how the three sequential edits of that tree (link a leaf,
    unlink a node with at most one child, replace a node by its in-order successor) change its
    contents and the search paths running through it.

    Search keys are doubled. A thread that looks for key k follows the path of 2*k, which ends at k.
    A thread that walks to the in-order successor of k follows the path of 2*k+1: right at k, then
    left all the way. No key equals 2*k+1, so that path ends only at a missing child. */
module BstTree {
  type NodeId = int

  const NULL: NodeId := 0

  datatype Node = Node(key: int, value: int, left: NodeId, right: NodeId) {
    function Child(goLeft: bool): (r: NodeId) { if goLeft then left else right }

    function WithChild(goLeft: bool, child: NodeId): (r: Node) {
      if goLeft then this.(left := child) else this.(right := child)
    }
  }

  datatype Tree = Leaf | Branch(id: NodeId, key: int, value: int, left: Tree, right: Tree)

  function Ids(t: Tree): (r: set<NodeId>) {
    match t
    case Leaf => {}
    case Branch(id, _, _, l, r) => {id} + Ids(l) + Ids(r)
  }

  function Contents(t: Tree): (r: map<int, int>) {
    match t
    case Leaf => map[]
    case Branch(_, k, v, l, r) => Contents(l) + Contents(r) + map[k := v]
  }

  ghost predicate Ordered(t: Tree) {
    match t
    case Leaf => true
    case Branch(id, k, _, l, r) =>
      && id != NULL && id !in Ids(l) && id !in Ids(r) && Ids(l) !! Ids(r)
      && (forall x :: x in Contents(l) ==> x < k)
      && (forall x :: x in Contents(r) ==> k < x)
      && Ordered(l) && Ordered(r)
  }

  /** The nodes reachable from `p` in `h` spell out exactly the tree `t`. */
  ghost predicate Represents(t: Tree, h: map<NodeId, Node>, p: NodeId) {
    match t
    case Leaf => p == NULL
    case Branch(id, k, v, l, r) =>
      && p == id && id != NULL && id in h && h[id].key == k && h[id].value == v
      && Represents(l, h, h[id].left) && Represents(r, h, h[id].right)
  }

  function RootId(t: Tree): (r: NodeId) { if t.Leaf? then NULL else t.id }

  function Toward(t: Tree, q: int): (r: Tree)
    requires t.Branch?
  {
    if q < 2 * t.key then t.left else t.right
  }

  /** Node `x` lies on the search path of `q`. */
  predicate OnPath(t: Tree, q: int, x: NodeId) {
    t.Branch? && (x == t.id || (q != 2 * t.key && OnPath(Toward(t, q), q, x)))
  }

  /** The nodes on the search path of `q`, from the root down to and including `b`. */
  function To(t: Tree, q: int, b: NodeId): (r: set<NodeId>) {
    if t.Leaf? then {}
    else if t.id == b || q == 2 * t.key then {t.id}
    else {t.id} + To(Toward(t, q), q, b)
  }

  /** The nodes on the search path of `q` strictly after `a`, down to and including `b`. */
  function Seg(t: Tree, q: int, a: NodeId, b: NodeId): (r: set<NodeId>) {
    if t.Leaf? || q == 2 * t.key then {}
    else if t.id == a then To(Toward(t, q), q, b)
    else Seg(Toward(t, q), q, a, b)
  }

  function Depth(t: Tree, x: NodeId): (r: nat) {
    if t.Leaf? || t.id == x then 0
    else if x in Ids(t.left) then 1 + Depth(t.left, x)
    else 1 + Depth(t.right, x)
  }

  function Height(t: Tree): (r: nat) {
    if t.Leaf? then 0
    else var l, r := Height(t.left), Height(t.right); 1 + if l < r then r else l
  }

  // ----- the sequential edits

  function Ins(t: Tree, k: int, v: int, id: NodeId): (r: Tree) {
    match t
    case Leaf => Branch(id, k, v, Leaf, Leaf)
    case Branch(i, key, value, l, r) =>
      if k < key then Branch(i, key, value, Ins(l, k, v, id), r)
      else if k > key then Branch(i, key, value, l, Ins(r, k, v, id))
      else t
  }

  function MinNode(t: Tree): (r: Tree)
    requires t.Branch?
    ensures r.Branch?
  {
    if t.left.Leaf? then t else MinNode(t.left)
  }

  function RemMin(t: Tree): (r: Tree)
    requires t.Branch?
  {
    if t.left.Leaf? then t.right else t.(left := RemMin(t.left))
  }

  function Rem(t: Tree, k: int): (r: Tree) {
    match t
    case Leaf => Leaf
    case Branch(i, key, value, l, r) =>
      if k < key then t.(left := Rem(l, k))
      else if k > key then t.(right := Rem(r, k))
      else if l.Leaf? then r
      else if r.Leaf? then l
      else Branch(i, MinNode(r).key, MinNode(r).value, l, RemMin(r))
  }

  /** The subtree in which the search for `k` ends: its root holds `k`, or it is a leaf. */
  function Found(t: Tree, k: int): (r: Tree) {
    if t.Leaf? || t.key == k then t else Found(Toward(t, 2 * k), k)
  }

  function HasTwo(t: Tree): (r: bool) { t.Branch? && t.left.Branch? && t.right.Branch? }

  /** The node that `Rem(t, k)` takes out of the tree. */
  function Removed(t: Tree, k: int): (r: NodeId) {
    var f := Found(t, k);
    if HasTwo(f) then MinNode(f.right).id else RootId(f)
  }

  // ----- heap and tree

  lemma {:induction false} RepFrame(t: Tree, h: map<NodeId, Node>, h': map<NodeId, Node>, p: NodeId)
    requires Represents(t, h, p)
    requires forall x :: x in Ids(t) ==> x in h && x in h' && h'[x] == h[x]
    ensures Represents(t, h', p)
  {
    if t.Branch? {
      RepFrame(t.left, h, h', h[p].left);
      RepFrame(t.right, h, h', h[p].right);
    }
  }

  lemma {:induction false} RepIds(t: Tree, h: map<NodeId, Node>, p: NodeId)
    requires Represents(t, h, p)
    ensures forall x :: x in Ids(t) ==> x in h && x != NULL
    ensures p == RootId(t)
    ensures p != NULL ==> p in Ids(t)
  {
    if t.Branch? {
      RepIds(t.left, h, h[p].left);
      RepIds(t.right, h, h[p].right);
    }
  }

  lemma {:induction false} OnPathIn(t: Tree, q: int, x: NodeId)
    requires OnPath(t, q, x)
    ensures x in Ids(t)
  {
    if x != t.id { OnPathIn(Toward(t, q), q, x); }
  }

  /** One step down the search path. */
  lemma {:induction false} OnPathChild(t: Tree, h: map<NodeId, Node>, p: NodeId, q: int, x: NodeId)
    requires Represents(t, h, p) && Ordered(t) && OnPath(t, q, x) && x in h && q != 2 * h[x].key
    requires h[x].Child(q < 2 * h[x].key) != NULL
    ensures OnPath(t, q, h[x].Child(q < 2 * h[x].key))
  {
    if x != t.id {
      OnPathIn(Toward(t, q), q, x);
      OnPathChild(Toward(t, q), h, if q < 2 * t.key then h[p].left else h[p].right, q, x);
    } else {
      RepIds(Toward(t, q), h, if q < 2 * t.key then h[p].left else h[p].right);
    }
  }

  lemma {:induction false} PathHit(t: Tree, h: map<NodeId, Node>, p: NodeId, k: int, x: NodeId)
    requires Represents(t, h, p) && Ordered(t) && OnPath(t, 2 * k, x) && x in h && h[x].key == k
    ensures k in Contents(t) && Contents(t)[k] == h[x].value
    ensures Found(t, k).Branch? && Found(t, k).id == x
    ensures Represents(Found(t, k).left, h, h[x].left) && Represents(Found(t, k).right, h, h[x].right)
    ensures Found(t, k).key == k
  {
    if x != t.id {
      PathHit(Toward(t, 2 * k), h, if 2 * k < 2 * t.key then h[p].left else h[p].right, k, x);
    }
  }

  lemma {:induction false} PathMiss(t: Tree, h: map<NodeId, Node>, p: NodeId, k: int, x: NodeId)
    requires Represents(t, h, p) && Ordered(t) && OnPath(t, 2 * k, x) && x in h && h[x].key != k
    requires h[x].Child(k < h[x].key) == NULL
    ensures k !in Contents(t)
  {
    if x != t.id {
      OnPathIn(Toward(t, 2 * k), 2 * k, x);
      PathMiss(Toward(t, 2 * k), h, if k < t.key then h[p].left else h[p].right, k, x);
    } else {
      RepIds(t.left, h, h[x].left);
      RepIds(t.right, h, h[x].right);
    }
  }

  ghost predicate IsChild(h: map<NodeId, Node>, x: NodeId, y: NodeId) {
    x in h && y != NULL && (h[x].left == y || h[x].right == y)
  }

  lemma {:induction false} ChildIn(t: Tree, h: map<NodeId, Node>, p: NodeId, x: NodeId, y: NodeId)
    requires Represents(t, h, p) && Ordered(t) && x in Ids(t) && IsChild(h, x, y)
    ensures y in Ids(t) && y != t.id
    ensures Depth(t, y) == Depth(t, x) + 1
  {
    RepIds(t.left, h, h[p].left);
    RepIds(t.right, h, h[p].right);
    if x in Ids(t.left) {
      ChildIn(t.left, h, h[p].left, x, y);
    } else if x in Ids(t.right) {
      ChildIn(t.right, h, h[p].right, x, y);
    }
  }

  lemma {:induction false} OneParent(t: Tree, h: map<NodeId, Node>, p: NodeId, x: NodeId, x': NodeId, y: NodeId)
    requires Represents(t, h, p) && Ordered(t) && x in Ids(t) && x' in Ids(t)
    requires IsChild(h, x, y) && IsChild(h, x', y)
    ensures x == x'
  {
    RepIds(t.left, h, h[p].left);
    RepIds(t.right, h, h[p].right);
    if x in Ids(t.left) {
      ChildIn(t.left, h, h[p].left, x, y);
      if x' in Ids(t.left) { OneParent(t.left, h, h[p].left, x, x', y); }
      else if x' in Ids(t.right) { ChildIn(t.right, h, h[p].right, x', y); }
    } else if x in Ids(t.right) {
      ChildIn(t.right, h, h[p].right, x, y);
      if x' in Ids(t.right) { OneParent(t.right, h, h[p].right, x, x', y); }
      else if x' in Ids(t.left) { ChildIn(t.left, h, h[p].left, x', y); }
    } else if x' in Ids(t.left) {
      ChildIn(t.left, h, h[p].left, x', y);
    } else if x' in Ids(t.right) {
      ChildIn(t.right, h, h[p].right, x', y);
    }
  }

  lemma {:induction false} DepthBound(t: Tree, x: NodeId)
    requires x in Ids(t)
    ensures Depth(t, x) < Height(t)
  {
    if t.id != x {
      if x in Ids(t.left) { DepthBound(t.left, x); } else { DepthBound(t.right, x); }
    }
  }

  // ----- segments of a path

  lemma {:induction false} SegIn(t: Tree, q: int, a: NodeId, b: NodeId)
    ensures Seg(t, q, a, b) <= Ids(t) && To(t, q, b) <= Ids(t)
    ensures forall x :: x in To(t, q, b) || x in Seg(t, q, a, b) ==> OnPath(t, q, x)
  {
    if t.Branch? && q != 2 * t.key { SegIn(Toward(t, q), q, a, b); }
  }

  /** The path goes on from `b` to the child of `b` that lies towards `q`. */
  lemma {:induction false} ToNext(t: Tree, h: map<NodeId, Node>, p: NodeId, q: int, b: NodeId, c: NodeId)
    requires Represents(t, h, p) && Ordered(t) && OnPath(t, q, b) && b in h && q != 2 * h[b].key
    requires c == h[b].Child(q < 2 * h[b].key) && c != NULL
    ensures To(t, q, c) == To(t, q, b) + {c}
  {
    var p' := if q < 2 * t.key then h[p].left else h[p].right;
    OnPathChild(t, h, p, q, b);
    RepIds(Toward(t, q), h, p');
    OnPathIn(t, q, b);
    ChildIn(t, h, p, b, c);
    if b != t.id { ToNext(Toward(t, q), h, p', q, b, c); }
  }

  lemma {:induction false} SegNext(t: Tree, h: map<NodeId, Node>, p: NodeId, q: int, a: NodeId, b: NodeId, c: NodeId)
    requires Represents(t, h, p) && Ordered(t) && b in Seg(t, q, a, b) && b in h && q != 2 * h[b].key
    requires c == h[b].Child(q < 2 * h[b].key) && c != NULL
    ensures Seg(t, q, a, c) == Seg(t, q, a, b) + {c}
  {
    var p' := if q < 2 * t.key then h[p].left else h[p].right;
    SegIn(Toward(t, q), q, a, b);
    if t.id == a { ToNext(Toward(t, q), h, p', q, b, c); }
    else { SegNext(Toward(t, q), h, p', q, a, b, c); }
  }

  /** The first node after `a` on the path. */
  lemma {:induction false} SegFirst(t: Tree, h: map<NodeId, Node>, p: NodeId, q: int, a: NodeId, c: NodeId)
    requires Represents(t, h, p) && Ordered(t) && OnPath(t, q, a) && a in h && q != 2 * h[a].key
    requires c == h[a].Child(q < 2 * h[a].key) && c != NULL
    ensures Seg(t, q, a, c) == {c}
  {
    var p' := if q < 2 * t.key then h[p].left else h[p].right;
    RepIds(Toward(t, q), h, p');
    if t.id != a {
      OnPathIn(Toward(t, q), q, a);
      SegFirst(Toward(t, q), h, p', q, a, c);
    }
  }

  /** A segment is entered only through its first node: the parent of a node of the segment is `a`
      or lies in the segment too. */
  lemma {:induction false} ToParent(t: Tree, h: map<NodeId, Node>, p: NodeId, q: int, b: NodeId, x: NodeId, y: NodeId)
    requires Represents(t, h, p) && Ordered(t) && x in Ids(t) && IsChild(h, x, y) && y in To(t, q, b)
    ensures x in To(t, q, b)
  {
    ChildIn(t, h, p, x, y);
    RepIds(t.left, h, h[p].left);
    RepIds(t.right, h, h[p].right);
    var p' := if q < 2 * t.key then h[p].left else h[p].right;
    SegIn(Toward(t, q), q, b, b);
    if x in Ids(t.left) { ChildIn(t.left, h, h[p].left, x, y); }
    if x in Ids(t.right) { ChildIn(t.right, h, h[p].right, x, y); }
    if x in Ids(Toward(t, q)) { ToParent(Toward(t, q), h, p', q, b, x, y); }
  }

  lemma {:induction false} SegParent(t: Tree, h: map<NodeId, Node>, p: NodeId, q: int, a: NodeId, b: NodeId, x: NodeId, y: NodeId)
    requires Represents(t, h, p) && Ordered(t) && x in Ids(t) && IsChild(h, x, y) && y in Seg(t, q, a, b)
    ensures x == a || x in Seg(t, q, a, b)
  {
    RepIds(t.left, h, h[p].left);
    RepIds(t.right, h, h[p].right);
    var p' := if q < 2 * t.key then h[p].left else h[p].right;
    SegIn(Toward(t, q), q, a, b);
    if x in Ids(t.left) { ChildIn(t.left, h, h[p].left, x, y); }
    if x in Ids(t.right) { ChildIn(t.right, h, h[p].right, x, y); }
    if t.id == a {
      if x in Ids(Toward(t, q)) { ToParent(Toward(t, q), h, p', q, b, x, y); }
    } else if x in Ids(Toward(t, q)) {
      SegParent(Toward(t, q), h, p', q, a, b, x, y);
    } else if x == t.id {
      SegNotRoot(Toward(t, q), q, a, b);
    }
  }

  lemma {:induction false} SegNotRoot(t: Tree, q: int, a: NodeId, b: NodeId)
    requires Ordered(t)
    ensures RootId(t) !in Seg(t, q, a, b)
  {
    if t.Branch? { SegIn(Toward(t, q), q, a, b); } else { SegIn(t, q, a, b); }
  }
}
