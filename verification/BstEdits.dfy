/** What the three edits of the tree do: to its contents, to the heap that represents it, and to
    the search paths that other threads are following. */
module BstEdits {
  import opened BstTree

  lemma {:induction false} IdKey(t: Tree, h: map<NodeId, Node>, p: NodeId, x: NodeId)
    requires Represents(t, h, p) && Ordered(t) && x in Ids(t)
    ensures x in h && h[x].key in Contents(t)
  {
    if x in Ids(t.left) { IdKey(t.left, h, h[p].left, x); }
    else if x in Ids(t.right) { IdKey(t.right, h, h[p].right, x); }
  }

  /** Between a key and its successor: the path of 2*k+1 runs through the node that holds k, and
      beyond it only through nodes with greater keys. */
  lemma {:induction false} OddPath(t: Tree, h: map<NodeId, Node>, p: NodeId, k: int, x: NodeId)
    requires Represents(t, h, p) && OnPath(t, 2 * k, x) && x in h && h[x].key == k
    ensures OnPath(t, 2 * k + 1, x)
  {
    if x != t.id { OddPath(Toward(t, 2 * k), h, if k < t.key then h[p].left else h[p].right, k, x); }
  }

  lemma {:induction false} SegKeys(t: Tree, h: map<NodeId, Node>, p: NodeId, k: int, x: NodeId, b: NodeId, y: NodeId)
    requires Represents(t, h, p) && Ordered(t) && OnPath(t, 2 * k, x) && x in h && h[x].key == k
    requires y in Seg(t, 2 * k + 1, x, b)
    ensures y in h && k < h[y].key
  {
    if x != t.id {
      SegKeys(Toward(t, 2 * k), h, if k < t.key then h[p].left else h[p].right, k, x, b, y);
    } else {
      SegIn(t.right, 2 * k + 1, x, b);
      IdKey(t.right, h, h[p].right, y);
    }
  }

  // ----- linking a new leaf

  lemma {:induction false} InsIds(t: Tree, k: int, v: int, id: NodeId)
    requires Ordered(t) && k !in Contents(t)
    ensures Ids(Ins(t, k, v, id)) == Ids(t) + {id}
  {
    if t.Branch? {
      if k < t.key { InsIds(t.left, k, v, id); } else { InsIds(t.right, k, v, id); }
    }
  }

  lemma JoinPut(l: map<int, int>, r: map<int, int>, m: map<int, int>, k: int, v: int)
    requires k !in m
    ensures k !in r ==> l[k := v] + r + m == (l + r + m)[k := v]
    ensures l + r[k := v] + m == (l + r + m)[k := v]
  {}

  lemma JoinDrop(l: map<int, int>, r: map<int, int>, m: map<int, int>, k: int)
    requires k !in m
    ensures k !in r ==> (l - {k}) + r + m == (l + r + m) - {k}
    ensures k !in l ==> l + (r - {k}) + m == (l + r + m) - {k}
  {}

  lemma {:induction false} InsContents(t: Tree, k: int, v: int, id: NodeId)
    requires Ordered(t) && k !in Contents(t)
    ensures Contents(Ins(t, k, v, id)) == Contents(t)[k := v]
  {
    if t.Branch? {
      JoinPut(Contents(t.left), Contents(t.right), map[t.key := t.value], k, v);
      if k < t.key { InsContents(t.left, k, v, id); } else { InsContents(t.right, k, v, id); }
    }
  }

  lemma {:induction false} InsValue(t: Tree, k: int, v: int, id: NodeId)
    requires Ordered(t) && k !in Contents(t) && id !in Ids(t) && id != NULL
    ensures Ordered(Ins(t, k, v, id))
    ensures Contents(Ins(t, k, v, id)) == Contents(t)[k := v]
    ensures Ids(Ins(t, k, v, id)) == Ids(t) + {id}
  {
    InsIds(t, k, v, id);
    InsContents(t, k, v, id);
    if t.Branch? {
      if k < t.key { InsValue(t.left, k, v, id); } else { InsValue(t.right, k, v, id); }
    }
  }

  lemma {:induction false} InsRep(t: Tree, h: map<NodeId, Node>, p: NodeId, k: int, v: int, id: NodeId, x: NodeId)
    requires Represents(t, h, p) && Ordered(t) && OnPath(t, 2 * k, x) && x in h && h[x].key != k
    requires h[x].Child(k < h[x].key) == NULL && id !in h && id != NULL
    ensures Represents(Ins(t, k, v, id),
                       h[id := Node(k, v, NULL, NULL)][x := h[x].WithChild(k < h[x].key, id)], p)
  {
    var h' := h[id := Node(k, v, NULL, NULL)][x := h[x].WithChild(k < h[x].key, id)];
    RepIds(t, h, p);
    RepIds(t.left, h, h[p].left);
    RepIds(t.right, h, h[p].right);
    if x == t.id {
      RepFrame(t.left, h, h', h[p].left);
      RepFrame(t.right, h, h', h[p].right);
    } else {
      OnPathIn(Toward(t, 2 * k), 2 * k, x);
      if k < t.key {
        InsRep(t.left, h, h[p].left, k, v, id, x);
        RepFrame(t.right, h, h', h[p].right);
      } else {
        InsRep(t.right, h, h[p].right, k, v, id, x);
        RepFrame(t.left, h, h', h[p].left);
      }
    }
  }

  lemma {:induction false} InsPath(t: Tree, k: int, v: int, id: NodeId, q: int, x: NodeId)
    requires OnPath(t, q, x)
    ensures OnPath(Ins(t, k, v, id), q, x)
  {
    if x != t.id { InsPath(Toward(t, q), k, v, id, q, x); }
  }

  lemma {:induction false} InsTo(t: Tree, k: int, v: int, id: NodeId, q: int, b: NodeId)
    requires OnPath(t, q, b)
    ensures To(Ins(t, k, v, id), q, b) == To(t, q, b)
  {
    if b != t.id { InsTo(Toward(t, q), k, v, id, q, b); }
  }

  lemma {:induction false} InsSeg(t: Tree, k: int, v: int, id: NodeId, q: int, a: NodeId, b: NodeId)
    requires b in Seg(t, q, a, b)
    ensures Seg(Ins(t, k, v, id), q, a, b) == Seg(t, q, a, b)
  {
    if t.id == a {
      SegIn(Toward(t, q), q, a, b);
      InsTo(Toward(t, q), k, v, id, q, b);
    } else {
      InsSeg(Toward(t, q), k, v, id, q, a, b);
    }
  }

  // ----- removing a key

  lemma {:induction false} MinNodeValue(t: Tree)
    requires Ordered(t) && t.Branch?
    ensures MinNode(t).id in Ids(t) && MinNode(t).left.Leaf?
    ensures MinNode(t).key in Contents(t) && Contents(t)[MinNode(t).key] == MinNode(t).value
    ensures forall x :: x in Contents(t) ==> MinNode(t).key <= x
  {
    if t.left.Branch? { MinNodeValue(t.left); }
  }

  lemma {:induction false} RemMinContents(t: Tree)
    requires Ordered(t) && t.Branch?
    ensures Contents(RemMin(t)) == Contents(t) - {MinNode(t).key}
  {
    MinNodeValue(t);
    var l, r, m := Contents(t.left), Contents(t.right), map[t.key := t.value];
    if t.left.Branch? {
      MinNodeValue(t.left);
      RemMinContents(t.left);
      JoinDrop(l, r, m, MinNode(t).key);
    } else {
      assert r == (l + r + m) - {t.key};
    }
  }

  lemma {:induction false} RemMinIds(t: Tree)
    requires Ordered(t) && t.Branch?
    ensures Ids(RemMin(t)) == Ids(t) - {MinNode(t).id}
  {
    if t.left.Branch? { MinNodeValue(t.left); RemMinIds(t.left); }
  }

  lemma {:induction false} RemMinValue(t: Tree)
    requires Ordered(t) && t.Branch?
    ensures Ordered(RemMin(t))
    ensures MinNode(t).id in Ids(t) && MinNode(t).left.Leaf?
    ensures MinNode(t).key in Contents(t) && Contents(t)[MinNode(t).key] == MinNode(t).value
    ensures Contents(RemMin(t)) == Contents(t) - {MinNode(t).key}
    ensures Ids(RemMin(t)) == Ids(t) - {MinNode(t).id}
    ensures forall x :: x in Contents(t) ==> MinNode(t).key <= x
  {
    MinNodeValue(t);
    RemMinContents(t);
    RemMinIds(t);
    if t.left.Branch? { RemMinValue(t.left); }
  }

  lemma {:induction false} FoundValue(t: Tree, k: int)
    requires Ordered(t) && k in Contents(t)
    ensures var f := Found(t, k);
            f.Branch? && f.key == k && f.id in Ids(t) && Ids(f) <= Ids(t) && Ordered(f)
            && (forall x :: x in Contents(f) ==> x in Contents(t))
  {
    if k != t.key { FoundValue(Toward(t, 2 * k), k); }
  }

  lemma JoinTwo(l: map<int, int>, r: map<int, int>, k: int, v: int, k': int)
    requires k !in l && k !in r && k' !in l && k' in r
    ensures l + (r - {k'}) + map[k' := r[k']] == (l + r + map[k := v]) - {k}
  {}

  lemma RemHereContents(t: Tree)
    requires Ordered(t) && t.Branch?
    ensures Contents(Rem(t, t.key)) == Contents(t) - {t.key}
  {
    var l, r := Contents(t.left), Contents(t.right);
    if HasTwo(t) {
      MinNodeValue(t.right);
      RemMinContents(t.right);
      JoinTwo(l, r, t.key, t.value, MinNode(t.right).key);
    } else {
      assert l + r == (l + r + map[t.key := t.value]) - {t.key};
      assert t.left.Leaf? ==> l + r == r;
      assert t.right.Leaf? ==> l + r == l;
    }
  }

  lemma {:induction false} RemContents(t: Tree, k: int)
    requires Ordered(t) && k in Contents(t)
    ensures Contents(Rem(t, k)) == Contents(t) - {k}
  {
    if k == t.key {
      RemHereContents(t);
    } else {
      JoinDrop(Contents(t.left), Contents(t.right), map[t.key := t.value], k);
      if k < t.key { RemContents(t.left, k); } else { RemContents(t.right, k); }
    }
  }

  lemma {:induction false} RemIds(t: Tree, k: int)
    requires Ordered(t) && k in Contents(t)
    ensures Removed(t, k) in Ids(t) && Ids(Rem(t, k)) == Ids(t) - {Removed(t, k)}
  {
    if k < t.key { RemIds(t.left, k); }
    else if k > t.key { RemIds(t.right, k); }
    else if HasTwo(t) { MinNodeValue(t.right); RemMinIds(t.right); }
  }

  lemma {:induction false} RemOrdered(t: Tree, k: int)
    requires Ordered(t) && k in Contents(t)
    ensures Ordered(Rem(t, k))
  {
    if k == t.key {
      if HasTwo(t) { RemMinValue(t.right); }
    } else {
      var s := Toward(t, 2 * k);
      RemContents(s, k);
      RemIds(s, k);
      RemOrdered(s, k);
    }
  }

  lemma RemValue(t: Tree, k: int)
    requires Ordered(t) && k in Contents(t)
    ensures Ordered(Rem(t, k))
    ensures Contents(Rem(t, k)) == Contents(t) - {k}
    ensures Removed(t, k) in Ids(t) && Ids(Rem(t, k)) == Ids(t) - {Removed(t, k)}
    ensures Found(t, k).Branch? && Found(t, k).key == k && Found(t, k).id in Ids(t)
  {
    RemContents(t, k);
    RemIds(t, k);
    RemOrdered(t, k);
    FoundValue(t, k);
  }

  lemma RemRootRep(t: Tree, h: map<NodeId, Node>, p: NodeId)
    requires Represents(t, h, p) && Ordered(t) && t.Branch?
    requires h[p].left == NULL || h[p].right == NULL
    ensures !HasTwo(t)
    ensures Represents(Rem(t, t.key), h, if h[p].left != NULL then h[p].left else h[p].right)
  {
    RepIds(t.left, h, h[p].left);
    RepIds(t.right, h, h[p].right);
  }

  /** Unlinking a node with at most one child by writing the child field of its parent. */
  lemma {:induction false} RemOneRep(t: Tree, h: map<NodeId, Node>, p: NodeId, k: int, x: NodeId, cur: NodeId)
    requires Represents(t, h, p) && Ordered(t) && OnPath(t, 2 * k, x) && x in h && h[x].key != k
    requires cur == h[x].Child(k < h[x].key) && cur != NULL && cur in h && h[cur].key == k
    requires h[cur].left == NULL || h[cur].right == NULL
    ensures Removed(t, k) == cur && !HasTwo(Found(t, k)) && k in Contents(t)
    ensures Represents(Rem(t, k),
                       h[x := h[x].WithChild(k < h[x].key, if h[cur].left != NULL then h[cur].left else h[cur].right)], p)
  {
    var child := if h[cur].left != NULL then h[cur].left else h[cur].right;
    var h' := h[x := h[x].WithChild(k < h[x].key, child)];
    RepIds(t.left, h, h[p].left);
    RepIds(t.right, h, h[p].right);
    var s, p' := Toward(t, 2 * k), if k < t.key then h[p].left else h[p].right;
    if x == t.id {
      RemRootRep(s, h, p');
      RemValue(s, k);
      RepFrame(Rem(s, k), h, h', child);
    } else {
      OnPathIn(s, 2 * k, x);
      RemOneRep(s, h, p', k, x, cur);
    }
    if k < t.key { RepFrame(t.right, h, h', h[p].right); } else { RepFrame(t.left, h, h', h[p].left); }
  }

  /** The end of a left spine is the minimum. */
  lemma {:induction false} SpineEnd(t: Tree, h: map<NodeId, Node>, p: NodeId, q: int, succ: NodeId)
    requires Represents(t, h, p) && Ordered(t) && OnPath(t, q, succ) && succ in h && h[succ].left == NULL
    requires forall x :: x in Contents(t) ==> q < 2 * x
    ensures MinNode(t).id == succ && MinNode(t).key == h[succ].key && MinNode(t).value == h[succ].value
  {
    RepIds(t.left, h, h[p].left);
    assert t.key in Contents(t);
    assert forall x :: x in Contents(t.left) ==> x in Contents(t);
    if succ != t.id { SpineEnd(t.left, h, h[p].left, q, succ); }
  }

  /** The heap after the successor `succ` has been cut out from below `sp`. */
  lemma {:induction false} RemMinRep(t: Tree, h: map<NodeId, Node>, h': map<NodeId, Node>, p: NodeId, sp: NodeId, succ: NodeId)
    requires Represents(t, h, p) && Ordered(t) && t.Branch? && MinNode(t).id == succ && succ in h
    requires sp !in Ids(t) || IsChild(h, sp, succ)
    requires forall x :: x in Ids(t) && x != succ && x != sp ==> x in h && x in h' && h'[x] == h[x]
    requires sp in Ids(t) ==> sp in h && sp in h' && h'[sp] == h[sp].(left := h[succ].right)
    requires t.id != succ ==> sp in Ids(t)
    ensures Represents(RemMin(t), h', if t.id == succ then h[succ].right else p)
  {
    RepIds(t.left, h, h[p].left);
    RepIds(t.right, h, h[p].right);
    RemMinValue(t);
    if t.left.Leaf? {
      if sp in Ids(t) { ChildIn(t, h, p, sp, succ); }
      RepFrame(t.right, h, h', h[p].right);
    } else {
      RemMinValue(t.left);
      if t.left.id == succ {
        OneParent(t, h, p, t.id, sp, succ);
      } else if sp == t.id {
        assert false;
      } else {
        if sp in Ids(t.right) { ChildIn(t.right, h, h[p].right, sp, succ); }
      }
      RemMinRep(t.left, h, h', h[p].left, sp, succ);
      RepFrame(t.right, h, h', h[p].right);
    }
  }

  /** Overwriting `cur` with its in-order successor and cutting the successor out. */
  ghost function TwoHeap(h: map<NodeId, Node>, cur: NodeId, sp: NodeId, succ: NodeId): (r: map<NodeId, Node>)
    requires cur in h && sp in h && succ in h
  {
    var n := h[succ];
    if sp == cur then h[cur := Node(n.key, n.value, h[cur].left, n.right)]
    else h[cur := Node(n.key, n.value, h[cur].left, h[cur].right)][sp := h[sp].(left := n.right)]
  }

  ghost predicate AtSuccessor(t: Tree, h: map<NodeId, Node>, k: int, cur: NodeId, sp: NodeId, succ: NodeId) {
    && cur in h && sp in h && succ in h
    && OnPath(t, 2 * k, cur) && h[cur].key == k && h[cur].left != NULL && h[cur].right != NULL
    && succ in Seg(t, 2 * k + 1, cur, succ)
    && (if sp == cur then h[cur].right == succ else sp in Seg(t, 2 * k + 1, cur, succ) && h[sp].left == succ)
  }

  /** At the end of the walk the walked segment is the whole spine, and it ends at the minimum. */
  lemma {:induction false} SpineWhole(t: Tree, h: map<NodeId, Node>, p: NodeId, k: int, cur: NodeId, succ: NodeId)
    requires Represents(t, h, p) && Ordered(t) && cur in h && succ in h
    requires OnPath(t, 2 * k, cur) && h[cur].key == k && h[cur].left != NULL && h[cur].right != NULL
    requires succ in Seg(t, 2 * k + 1, cur, succ) && h[succ].left == NULL
    ensures k in Contents(t) && Found(t, k).Branch? && Found(t, k).id == cur && HasTwo(Found(t, k))
    ensures var m := MinNode(Found(t, k).right);
            m.id == succ && m.key == h[succ].key && m.value == h[succ].value && k < m.key
    ensures Removed(t, k) == succ
  {
    PathHit(t, h, p, k, cur);
    RepIds(t.left, h, h[p].left);
    RepIds(t.right, h, h[p].right);
    if t.id == cur {
      SegIn(t.right, 2 * k + 1, cur, succ);
      SpineEnd(t.right, h, h[p].right, 2 * k + 1, succ);
      RemMinValue(t.right);
    } else {
      assert t.key != k;
      SpineWhole(Toward(t, 2 * k), h, if k < t.key then h[p].left else h[p].right, k, cur, succ);
    }
  }

  lemma RemTwoHere(t: Tree, h: map<NodeId, Node>, p: NodeId, sp: NodeId, succ: NodeId)
    requires Represents(t, h, p) && Ordered(t) && HasTwo(t)
    requires AtSuccessor(t, h, t.key, t.id, sp, succ) && h[succ].left == NULL
    ensures Represents(Rem(t, t.key), TwoHeap(h, t.id, sp, succ), p)
  {
    var h' := TwoHeap(h, t.id, sp, succ);
    var r := h[p].right;
    SpineWhole(t, h, p, t.key, t.id, succ);
    RepIds(t.left, h, h[p].left);
    RepIds(t.right, h, r);
    SegIn(t.right, 2 * t.key + 1, t.id, succ);
    RemMinRep(t.right, h, h', r, sp, succ);
    assert Represents(RemMin(t.right), h', h'[p].right) by {
      if sp == t.id { SpineRoot(t.right, h, r, succ); } else { ChildIn(t.right, h, r, sp, succ); }
    }
    RepFrame(t.left, h, h', h[p].left);
  }

  lemma SpineRoot(t: Tree, h: map<NodeId, Node>, p: NodeId, succ: NodeId)
    requires Represents(t, h, p) && p == succ && succ != NULL
    ensures t.Branch? && t.id == succ
  {}

  lemma {:induction false} RemTwoRep(t: Tree, h: map<NodeId, Node>, p: NodeId, k: int, cur: NodeId, sp: NodeId, succ: NodeId)
    requires Represents(t, h, p) && Ordered(t) && AtSuccessor(t, h, k, cur, sp, succ) && h[succ].left == NULL
    ensures Represents(Rem(t, k), TwoHeap(h, cur, sp, succ), p)
  {
    var h' := TwoHeap(h, cur, sp, succ);
    SpineWhole(t, h, p, k, cur, succ);
    if t.id == cur {
      RemTwoHere(t, h, p, sp, succ);
    } else {
      var s := Toward(t, 2 * k);
      OnPathIn(s, 2 * k, cur);
      SegIn(s, 2 * k + 1, cur, succ);
      if k < t.key {
        RemTwoRep(t.left, h, h[p].left, k, cur, sp, succ);
        RepIds(t.right, h, h[p].right);
        RepFrame(t.right, h, h', h[p].right);
      } else {
        RemTwoRep(t.right, h, h[p].right, k, cur, sp, succ);
        RepIds(t.left, h, h[p].left);
        RepFrame(t.left, h, h', h[p].left);
      }
    }
  }

  // ----- search paths after a removal

  lemma {:induction false} RemMinPath(t: Tree, q: int, x: NodeId)
    requires Ordered(t) && OnPath(t, q, x) && x != MinNode(t).id && 2 * MinNode(t).key < q
    ensures OnPath(RemMin(t), q, x)
  {
    RemMinValue(t);
    if t.left.Branch? {
      if x != t.id && q < 2 * t.key { RemMinPath(t.left, q, x); }
    }
  }

  lemma {:induction false} LowPathOnSpine(t: Tree, k: int, q: int, x: NodeId)
    requires Ordered(t) && OnPath(t, q, x) && q <= 2 * MinNode(t).key
    requires forall y :: y in Contents(t) ==> k < y
    ensures x in To(t, 2 * k + 1, MinNode(t).id)
  {
    RemMinValue(t);
    if x != t.id {
      if t.left.Branch? { RemMinValue(t.left); }
      LowPathOnSpine(t.left, k, q, x);
    }
  }

  /** A removal does not take a node off the search path of anyone, except the removed node and, when
      the successor is moved up, the nodes on the spine between. */
  lemma {:induction false} RemPath(t: Tree, k: int, q: int, x: NodeId)
    requires Ordered(t) && k in Contents(t) && OnPath(t, q, x) && x != Removed(t, k)
    requires HasTwo(Found(t, k)) ==>
               x !in Seg(t, 2 * k + 1, Found(t, k).id, MinNode(Found(t, k).right).id)
    ensures OnPath(Rem(t, k), q, x)
  {
    if k != t.key {
      RemValue(t, k);
      if x != t.id {
        FoundValue(Toward(t, 2 * k), k);
        if Toward(t, q) == Toward(t, 2 * k) { RemPath(Toward(t, q), k, q, x); }
      }
    } else if HasTwo(t) {
      RemMinValue(t.right);
      if q > 2 * k && x != t.id {
        if 2 * MinNode(t.right).key < q { RemMinPath(t.right, q, x); }
        else { LowPathOnSpine(t.right, k, q, x); }
      }
    }
  }

  lemma {:induction false} RemMinTo(t: Tree, q: int, b: NodeId)
    requires Ordered(t) && OnPath(t, q, b) && b != MinNode(t).id && 2 * MinNode(t).key < q
    ensures To(RemMin(t), q, b) == To(t, q, b) - {MinNode(t).id}
  {
    RemMinValue(t);
    OnPathIn(t, q, b);
    if t.left.Branch? {
      RemMinValue(t.left);
      if b != t.id && q < 2 * t.key { RemMinTo(t.left, q, b); }
      else { SegIn(t.right, q, b, b); }
    } else {
      SegIn(t.right, q, b, b);
    }
  }

  lemma {:induction false} RemMinSeg(t: Tree, q: int, a: NodeId, b: NodeId)
    requires Ordered(t) && t.Branch? && b in Seg(t, q, a, b) && a != MinNode(t).id && b != MinNode(t).id
    requires 2 * MinNode(t).key < q
    ensures Seg(RemMin(t), q, a, b) == Seg(t, q, a, b) - {MinNode(t).id}
  {
    RemMinValue(t);
    SegIn(Toward(t, q), q, a, b);
    if t.left.Branch? {
      RemMinValue(t.left);
      if q < 2 * t.key {
        if a == t.id { RemMinTo(t.left, q, b); } else { RemMinSeg(t.left, q, a, b); }
      }
    }
  }

  /** The keys that change sides when the successor of `k` is moved up. */
  predicate Between(t: Tree, k: int, q: int) {
    var f := Found(t, k);
    HasTwo(f) && 2 * k < q <= 2 * MinNode(f.right).key
  }

  lemma {:induction false} NoKeyBetween(t: Tree, k: int, k': int)
    requires Ordered(t) && k in Contents(t) && k' in Contents(t) && k' != k
    ensures !Between(t, k, 2 * k' + 1)
  {
    if k != t.key {
      var s := Toward(t, 2 * k);
      if k' in Contents(s) { NoKeyBetween(s, k, k'); }
      else if HasTwo(Found(s, k)) {
        FoundValue(s, k);
        MinNodeValue(Found(s, k).right);
      }
    } else if HasTwo(t) {
      MinNodeValue(t.right);
    }
  }

  lemma {:induction false} RemTo(t: Tree, k: int, q: int, b: NodeId)
    requires Ordered(t) && k in Contents(t) && q % 2 == 1 && !Between(t, k, q)
    requires OnPath(t, q, b) && b != Removed(t, k)
    ensures To(Rem(t, k), q, b) == To(t, q, b) - {Removed(t, k)}
  {
    RemValue(t, k);
    OnPathIn(t, q, b);
    SegIn(Toward(t, q), q, b, b);
    if k != t.key {
      RemIds(Toward(t, 2 * k), k);
      if b != t.id {
        if Toward(t, q) == Toward(t, 2 * k) { RemTo(Toward(t, q), k, q, b); }
      }
    } else if HasTwo(t) {
      RemMinValue(t.right);
      if q > 2 * k && b != t.id { RemMinTo(t.right, q, b); }
    }
  }

  /** A removal takes only the removed node out of the segments other threads have walked. */
  lemma {:induction false} RemSeg(t: Tree, k: int, q: int, a: NodeId, b: NodeId)
    requires Ordered(t) && k in Contents(t) && q % 2 == 1 && !Between(t, k, q)
    requires b in Seg(t, q, a, b) && a != Removed(t, k) && b != Removed(t, k)
    ensures Seg(Rem(t, k), q, a, b) == Seg(t, q, a, b) - {Removed(t, k)}
  {
    RemValue(t, k);
    SegIn(Toward(t, q), q, a, b);
    if k != t.key {
      RemIds(Toward(t, 2 * k), k);
      if Toward(t, q) == Toward(t, 2 * k) {
        if a == t.id { RemTo(Toward(t, q), k, q, b); } else { RemSeg(Toward(t, q), k, q, a, b); }
      }
    } else if HasTwo(t) {
      RemMinValue(t.right);
      if q > 2 * k {
        if a == t.id { RemMinTo(t.right, q, b); } else { RemMinSeg(t.right, q, a, b); }
      }
    }
  }
}
