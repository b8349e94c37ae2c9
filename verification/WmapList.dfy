/** wmap.c: the region list threaded through the fixed array of slots of a process. */
module WmapList {
  import opened Counting
  import opened WmapRegions

  const UNUSED: nat := 0xFFFF_FFFF

  /** struct mmap_region; `next` is a slot number, or -1 at the end of the list. */
  datatype Slot = Slot(addr: nat, length: int, flags: Flags, fd: int, loaded: int, next: int) {
    function AsRegion(): (r: Region) { Region(addr, length, flags, fd, loaded) }
  }

  /** The slot at position `k` of the list, or -1 beyond its end. */
  function At(order: seq<nat>, k: nat): (r: int) { if k < |order| then order[k] else -1 }

  ghost predicate InSlots(sl: seq<Slot>, order: seq<nat>) {
    forall k | 0 <= k < |order| :: order[k] < |sl|
  }

  ghost predicate NextOk(sl: seq<Slot>, order: seq<nat>) {
    InSlots(sl, order) && forall k {:trigger sl[order[k]]} | 0 <= k < |order| :: sl[order[k]].next == At(order, k + 1)
  }

  ghost predicate UsedOk(sl: seq<Slot>, order: seq<nat>) {
    forall i: nat | i < |sl| :: sl[i].addr == UNUSED <==> i !in order
  }

  /** The list visits the slots `order`, which are exactly those in use. */
  ghost predicate Linked(sl: seq<Slot>, head: int, order: seq<nat>) {
    |sl| == MAX_NMMAP && head == At(order, 0) && NextOk(sl, order) && Distinct(order) && UsedOk(sl, order)
  }

  /** The regions of the slots `order`. */
  function Regions(sl: seq<Slot>, order: seq<nat>): (rs: seq<Region>)
    requires InSlots(sl, order)
    ensures |rs| == |order|
    ensures forall k | 0 <= k < |order| :: rs[k] == sl[order[k]].AsRegion()
  {
    if order == [] then [] else Regions(sl, order[..|order| - 1]) + [sl[order[|order| - 1]].AsRegion()]
  }

  // ----- counting slots

  /** A slot is unused exactly while fewer than MAX_NMMAP are in the list. */
  lemma UnusedSlots(sl: seq<Slot>, head: int, order: seq<nat>)
    requires Linked(sl, head, order)
    ensures |order| <= MAX_NMMAP
    ensures |order| < MAX_NMMAP <==> exists i: nat :: i < |sl| && sl[i].addr == UNUSED
  {
    DistinctSize(order);
    assert Members(order) <= Upto(MAX_NMMAP);
    SubsetSize(Members(order), Upto(MAX_NMMAP));
    hide NextOk, Distinct, Upto, Members;
    if |order| < MAX_NMMAP {
      var i: nat := Spare(order);
      assert sl[i].addr == UNUSED;
    } else {
      forall i: nat | i < |sl| ensures sl[i].addr != UNUSED { AllIn(order, i); }
    }
  }

  lemma Spare(order: seq<nat>) returns (i: nat)
    requires |Members(order)| < MAX_NMMAP && Members(order) <= Upto(MAX_NMMAP)
    ensures i < MAX_NMMAP && i !in order
  {
    assert Upto(MAX_NMMAP) - Members(order) != {} by {
      if Upto(MAX_NMMAP) <= Members(order) { SubsetSize(Upto(MAX_NMMAP), Members(order)); }
    }
    i :| i in Upto(MAX_NMMAP) - Members(order);
  }

  lemma AllIn(order: seq<nat>, i: nat)
    requires |Members(order)| >= MAX_NMMAP && Members(order) <= Upto(MAX_NMMAP) && i < MAX_NMMAP
    ensures i in order
  {
    SubsetSize(Members(order), Upto(MAX_NMMAP));
    assert i in Upto(MAX_NMMAP);
  }

  // ----- linking and unlinking

  function InsertOrder(order: seq<nat>, k: nat, m: nat): (r: seq<nat>)
    requires k <= |order|
  {
    order[..k] + [m] + order[k..]
  }

  function RemoveOrder(order: seq<nat>, k: nat): (r: seq<nat>)
    requires k < |order|
  {
    order[..k] + order[k + 1..]
  }

  /** Slot `m` with contents `s` is linked in at position `k`. */
  function LinkIn(sl: seq<Slot>, order: seq<nat>, k: nat, m: nat, s: Slot): (r: seq<Slot>)
    requires k <= |order| && m < |sl| && InSlots(sl, order)
  {
    var sl1 := sl[m := s.(next := At(order, k))];
    if k == 0 then sl1 else sl1[order[k - 1] := sl1[order[k - 1]].(next := m)]
  }

  lemma InsertOrderItems(order: seq<nat>, k: nat, m: nat)
    requires k <= |order|
    ensures var o := InsertOrder(order, k, m);
            && |o| == |order| + 1
            && (forall l | 0 <= l <= |order| :: o[l] == if l < k then order[l] else if l == k then m else order[l - 1])
  {}

  lemma InsertOrderAt(order: seq<nat>, k: nat, m: nat, l: nat)
    requires k <= |order| && l <= |order|
    ensures |InsertOrder(order, k, m)| == |order| + 1
    ensures InsertOrder(order, k, m)[l] == if l < k then order[l] else if l == k then m else order[l - 1]
  {}

  lemma InsertOrderMembers(order: seq<nat>, k: nat, m: nat)
    requires k <= |order|
    ensures forall i :: i in InsertOrder(order, k, m) <==> i == m || i in order
  {
    assert order == order[..k] + order[k..];
    assert InsertOrder(order, k, m)[k] == m;
  }

  lemma Apart(order: seq<nat>, i: nat, j: nat)
    requires Distinct(order) && i < |order| && j < |order| && i != j
    ensures order[i] != order[j]
  {}

  lemma NextAt(sl: seq<Slot>, order: seq<nat>, k: nat)
    requires NextOk(sl, order) && k < |order|
    ensures order[k] < |sl| && sl[order[k]].next == At(order, k + 1)
  {}

  /** Where position `l` of the longer list points. */
  lemma LinkNext(sl: seq<Slot>, order: seq<nat>, k: nat, m: nat, s: Slot, l: nat)
    requires NextOk(sl, order) && Distinct(order) && k <= |order| && m < |sl| && m !in order && l <= |order|
    ensures var o, sl' := InsertOrder(order, k, m), LinkIn(sl, order, k, m, s);
            l < |o| && o[l] < |sl'| && sl'[o[l]].next == At(o, l + 1)
  {
    InsertOrderAt(order, k, m, l);
    if l < |order| { InsertOrderAt(order, k, m, l + 1); }
    if l != k { NextAt(sl, order, if l < k then l else l - 1); }
    if k > 0 {
      NextAt(sl, order, k - 1);
      if l < k - 1 { Apart(order, l, k - 1); }
      if l > k { Apart(order, l - 1, k - 1); }
    }
    hide InsertOrder, NextOk, Distinct;
  }

  lemma LinkDistinct(order: seq<nat>, k: nat, m: nat)
    requires Distinct(order) && k <= |order| && m !in order
    ensures Distinct(InsertOrder(order, k, m))
  {
    InsertOrderItems(order, k, m);
    hide InsertOrder, Distinct;
    var o := InsertOrder(order, k, m);
    forall i, j | 0 <= i < j < |o| ensures o[i] != o[j] {
      if i != k && j != k { Apart(order, if i < k then i else i - 1, if j < k then j else j - 1); }
    }
    DistinctIf(o);
  }

  lemma DistinctIf(o: seq<nat>)
    requires forall i, j | 0 <= i < j < |o| :: o[i] != o[j]
    ensures Distinct(o)
  {}

  lemma LinkUsed(sl: seq<Slot>, order: seq<nat>, k: nat, m: nat, s: Slot)
    requires NextOk(sl, order) && UsedOk(sl, order) && k <= |order| && m < |sl| && s.addr != UNUSED
    ensures UsedOk(LinkIn(sl, order, k, m, s), InsertOrder(order, k, m))
  {
    InsertOrderMembers(order, k, m);
    if k > 0 { NextAt(sl, order, k - 1); }
    hide InsertOrder, NextOk;
  }

  lemma LinkKeeps(sl: seq<Slot>, head: int, order: seq<nat>, k: nat, m: nat, s: Slot)
    requires Linked(sl, head, order) && k <= |order| && m < |sl| && m !in order && s.addr != UNUSED
    ensures Linked(LinkIn(sl, order, k, m, s), if k == 0 then m else head, InsertOrder(order, k, m))
  {
    var o, sl' := InsertOrder(order, k, m), LinkIn(sl, order, k, m, s);
    LinkDistinct(order, k, m);
    LinkUsed(sl, order, k, m, s);
    InsertOrderItems(order, k, m);
    hide Distinct, UsedOk;
    forall l {:trigger sl'[o[l]]} | 0 <= l < |o| ensures o[l] < |sl'| && sl'[o[l]].next == At(o, l + 1) {
      LinkNext(sl, order, k, m, s, l);
    }
  }

  /** Linking changes only `next` fields, apart from slot `m`. */
  lemma LinkInAt(sl: seq<Slot>, order: seq<nat>, k: nat, m: nat, s: Slot, i: nat)
    requires InSlots(sl, order) && k <= |order| && m < |sl| && m !in order && i < |sl|
    ensures var sl' := LinkIn(sl, order, k, m, s);
            |sl'| == |sl| && sl'[i] == (if i == m then s else sl[i]).(next := sl'[i].next)
  {
    if k > 0 { assert order[k - 1] in order; }
  }

  lemma LinkRegionAt(sl: seq<Slot>, order: seq<nat>, k: nat, m: nat, s: Slot, l: nat)
    requires InSlots(sl, order) && k <= |order| && m < |sl| && m !in order && l <= |order|
    ensures var o, sl' := InsertOrder(order, k, m), LinkIn(sl, order, k, m, s);
            && |o| == |order| + 1 && o[l] < |sl| == |sl'|
            && sl'[o[l]].AsRegion() == if l < k then sl[order[l]].AsRegion() else if l == k then s.AsRegion() else sl[order[l - 1]].AsRegion()
  {
    InsertOrderItems(order, k, m);
    var i := InsertOrder(order, k, m)[l];
    if l != k { assert order[if l < k then l else l - 1] in order; }
    LinkInAt(sl, order, k, m, s, i);
    hide InsertOrder, LinkIn;
  }

  lemma LinkRegions(sl: seq<Slot>, order: seq<nat>, k: nat, m: nat, s: Slot)
    requires InSlots(sl, order) && k <= |order| && m < |sl| && m !in order
    ensures var o, sl' := InsertOrder(order, k, m), LinkIn(sl, order, k, m, s);
            && InSlots(sl', o)
            && Regions(sl', o) == Regions(sl, order)[..k] + [s.AsRegion()] + Regions(sl, order)[k..]
  {
    hide InsertOrder, Regions, LinkIn;
    var o, sl' := InsertOrder(order, k, m), LinkIn(sl, order, k, m, s);
    LinkRegionAt(sl, order, k, m, s, k);
    var rs := Regions(sl, order)[..k] + [s.AsRegion()] + Regions(sl, order)[k..];
    forall l | 0 <= l < |o| ensures o[l] < |sl'| && sl'[o[l]].AsRegion() == rs[l] {
      LinkRegionAt(sl, order, k, m, s, l);
    }
  }

  /** The slot at position `k` is taken out of the list and reset. */
  function TakeOut(sl: seq<Slot>, order: seq<nat>, k: nat, blank: Slot): (r: seq<Slot>)
    requires k < |order| && InSlots(sl, order)
  {
    var sl1 := if k == 0 then sl else sl[order[k - 1] := sl[order[k - 1]].(next := sl[order[k]].next)];
    sl1[order[k] := blank]
  }

  lemma RemoveOrderItems(order: seq<nat>, k: nat)
    requires k < |order| && Distinct(order)
    ensures var o := RemoveOrder(order, k);
            && |o| == |order| - 1
            && (forall l | 0 <= l < |o| :: o[l] == if l < k then order[l] else order[l + 1])
            && (forall i :: i in o <==> i != order[k] && i in order)
  {
    assert order == order[..k] + [order[k]] + order[k + 1..];
  }

  lemma TakeNext(sl: seq<Slot>, order: seq<nat>, k: nat, blank: Slot, l: nat)
    requires NextOk(sl, order) && Distinct(order) && k < |order| && l + 1 < |order|
    ensures var o, sl' := RemoveOrder(order, k), TakeOut(sl, order, k, blank);
            l < |o| && o[l] < |sl'| && sl'[o[l]].next == At(o, l + 1)
  {
    RemoveOrderItems(order, k);
    var l' := if l < k then l else l + 1;
    NextAt(sl, order, l');
    NextAt(sl, order, k);
    Apart(order, l', k);
    if k > 0 {
      NextAt(sl, order, k - 1);
      if l' != k - 1 { Apart(order, l', k - 1); }
    }
    hide RemoveOrder, NextOk, Distinct;
  }

  lemma TakeDistinct(order: seq<nat>, k: nat)
    requires Distinct(order) && k < |order|
    ensures Distinct(RemoveOrder(order, k))
  {
    RemoveOrderItems(order, k);
    hide RemoveOrder, Distinct;
    var o := RemoveOrder(order, k);
    forall i, j | 0 <= i < j < |o| ensures o[i] != o[j] {
      Apart(order, if i < k then i else i + 1, if j < k then j else j + 1);
    }
    DistinctIf(o);
  }

  lemma TakeUsed(sl: seq<Slot>, order: seq<nat>, k: nat, blank: Slot)
    requires NextOk(sl, order) && Distinct(order) && UsedOk(sl, order) && k < |order| && blank.addr == UNUSED
    ensures UsedOk(TakeOut(sl, order, k, blank), RemoveOrder(order, k))
  {
    RemoveOrderItems(order, k);
    NextAt(sl, order, k);
    if k > 0 { NextAt(sl, order, k - 1); }
    hide RemoveOrder, NextOk, Distinct;
  }

  lemma TakeKeeps(sl: seq<Slot>, head: int, order: seq<nat>, k: nat, blank: Slot)
    requires Linked(sl, head, order) && k < |order| && blank.addr == UNUSED
    ensures Linked(TakeOut(sl, order, k, blank), if k == 0 then sl[order[0]].next else head, RemoveOrder(order, k))
  {
    var o, sl' := RemoveOrder(order, k), TakeOut(sl, order, k, blank);
    TakeDistinct(order, k);
    TakeUsed(sl, order, k, blank);
    RemoveOrderItems(order, k);
    NextAt(sl, order, 0);
    hide Distinct, UsedOk;
    forall l {:trigger sl'[o[l]]} | 0 <= l < |o| ensures o[l] < |sl'| && sl'[o[l]].next == At(o, l + 1) {
      TakeNext(sl, order, k, blank, l);
    }
  }

  lemma TakeRegionAt(sl: seq<Slot>, order: seq<nat>, k: nat, blank: Slot, l: nat)
    requires InSlots(sl, order) && Distinct(order) && k < |order| && l + 1 < |order|
    ensures var o, sl' := RemoveOrder(order, k), TakeOut(sl, order, k, blank);
            && |o| == |order| - 1 && o[l] < |sl| == |sl'|
            && sl'[o[l]].AsRegion() == sl[order[if l < k then l else l + 1]].AsRegion()
  {
    RemoveOrderItems(order, k);
    var l' := if l < k then l else l + 1;
    Apart(order, l', k);
    hide RemoveOrder, Distinct;
    assert order[l'] < |sl| && order[k] < |sl|;
    if k > 0 { assert order[k - 1] < |sl|; }
  }

  lemma TakeRegions(sl: seq<Slot>, order: seq<nat>, k: nat, blank: Slot)
    requires InSlots(sl, order) && Distinct(order) && k < |order|
    ensures var o, sl' := RemoveOrder(order, k), TakeOut(sl, order, k, blank);
            InSlots(sl', o) && Regions(sl', o) == Remove(Regions(sl, order), k)
  {
    RemoveOrderItems(order, k);
    hide RemoveOrder, Regions, TakeOut, Distinct;
    var o, sl' := RemoveOrder(order, k), TakeOut(sl, order, k, blank);
    var rs := Remove(Regions(sl, order), k);
    forall l | 0 <= l < |o| ensures o[l] < |sl'| && sl'[o[l]].AsRegion() == rs[l] {
      TakeRegionAt(sl, order, k, blank, l);
    }
  }

  /** Rewriting a slot of the list without relinking it. */
  lemma RewriteKeeps(sl: seq<Slot>, head: int, order: seq<nat>, k: nat, s: Slot)
    requires Linked(sl, head, order) && k < |order| && s.next == sl[order[k]].next && s.addr != UNUSED
    ensures Linked(sl[order[k] := s], head, order)
    ensures Regions(sl[order[k] := s], order) == Regions(sl, order)[k := s.AsRegion()]
  {
    hide Regions;
  }
}
