/** wmap.c: copy_maps, the moment after fork: the child's list, page table and frames. */
module WmapFork {
  import opened WmapRegions
  import opened WmapPages
  import opened WmapList
  import opened WmapProc

  type Page = seq<int>

  /** The reference count that copy_maps gives to a region. */
  function CountOf(r: Region): (n: nat) { if r.flags.isShared then 1 else 0 }

  /** The child's slot for region `r`, while `loaded` of its pages have been copied. */
  function SlotOf(r: Region, loaded: int): (s: Slot) { Slot(r.addr, r.length, r.flags, r.fd, loaded, -1) }

  /** How many frames copy_maps needs for the pages of region `r` from `va` on. */
  function FramesFor(r: Region, pt: map<nat, nat>, va: nat): (n: int) {
    if r.flags.isShared then 0 else Loaded(pt, va, r.End())
  }

  /** The present pages of the first `k` regions, as far as they are private. */
  function FramesNeeded(rs: seq<Region>, pt: map<nat, nat>, k: nat): (n: int)
    requires k <= |rs|
  {
    if k == 0 then 0 else FramesNeeded(rs, pt, k - 1) + FramesFor(rs[k - 1], pt, rs[k - 1].addr)
  }

  lemma {:induction false} LoadedNonneg(pt: map<nat, nat>, lo: nat, hi: int)
    ensures Loaded(pt, lo, hi) >= 0
    decreases hi - lo
  {
    if lo < hi { LoadedNonneg(pt, lo + PGSIZE, hi); }
  }

  lemma NeededNone(rs: seq<Region>, pt: map<nat, nat>)
    ensures FramesNeeded(rs, pt, 0) == 0
  {}

  lemma NeededNext(rs: seq<Region>, pt: map<nat, nat>, k: nat)
    requires k < |rs|
    ensures FramesNeeded(rs, pt, k + 1) == FramesNeeded(rs, pt, k) + FramesFor(rs[k], pt, rs[k].addr)
  {}

  /** The need grows with every region. */
  lemma {:induction false} NeededMono(rs: seq<Region>, pt: map<nat, nat>, k: nat, l: nat)
    requires k <= l <= |rs|
    ensures FramesNeeded(rs, pt, k) <= FramesNeeded(rs, pt, l)
    decreases l - k
  {
    if k < l {
      NeededMono(rs, pt, k, l - 1);
      LoadedNonneg(pt, rs[l - 1].addr, rs[l - 1].End());
    }
  }

  /** Frames that the parent maps are not free, and no free frame is listed twice. */
  ghost predicate Frames(pt: map<nat, nat>, free: seq<nat>, content: map<nat, Page>) {
    && (forall i, j | 0 <= i < j < |free| :: free[i] != free[j])
    && (forall v | v in pt :: pt[v] !in free && pt[v] in content)
  }

  /** The region that page `v` of the parent belongs to. */
  ghost predicate Belongs(rs: seq<Region>, k: nat, v: int) { k < |rs| && rs[k].addr <= v < rs[k].End() }

  /** Pages before `va` of region `k`, and of the regions before. */
  ghost predicate Done(rs: seq<Region>, k: nat, va: int, v: int) {
    exists i: nat :: Belongs(rs, i, v) && (i < k || (i == k && v < va))
  }

  /** What page `v` of the child is: the parent's frame if the region is shared, else a frame of its
      own with the same contents. */
  ghost predicate CopiedPage(r: Region, v: nat, pt: map<nat, nat>, childPt: map<nat, nat>, used: seq<nat>,
                             content0: map<nat, Page>, content: map<nat, Page>) {
    && v in pt && v in childPt
    && if r.flags.isShared then childPt[v] == pt[v]
       else childPt[v] in used && pt[v] in content0 && childPt[v] in content && content[childPt[v]] == content0[pt[v]]
  }

  /** The state of the copy when it stands at page `va` of region `k`. */
  ghost predicate Copying(rs: seq<Region>, pt: map<nat, nat>, k: nat, va: int, childPt: map<nat, nat>, used: seq<nat>,
                          content0: map<nat, Page>, content: map<nat, Page>) {
    && (forall v | v in childPt :: v in pt && Done(rs, k, va, v))
    && (forall v | v in pt && Done(rs, k, va, v) :: v in childPt)
    && (forall i: nat, v | Belongs(rs, i, v) && v in childPt :: CopiedPage(rs[i], v, pt, childPt, used, content0, content))
    && (forall v, w | v in childPt && w in childPt && v != w :: childPt[v] != childPt[w])
    && (forall f | f in content0 && f !in used :: f in content && content[f] == content0[f])
  }

  /** The child, with the frames that are still free in its memory; what the frames hold; and the
      reference counts in the child's slots. */
  class Kernel {
    const child: Proc
    var content: map<nat, Page>
    var refcnt: seq<nat>

    constructor (child: Proc, content: map<nat, Page>)
      ensures this.child == child && this.content == content && |refcnt| == MAX_NMMAP
    {
      this.child, this.content, refcnt := child, content, seq(MAX_NMMAP, _ => 0);
    }

    /** The page loops of copy_maps for region `k`, whose slot in the child is `m`. */
    method CopyPages(rs: seq<Region>, pt: map<nat, nat>, k: nat, m: nat, ghost sl: seq<Slot>, ghost free0: seq<nat>, ghost content0: map<nat, Page>)
      returns (ok: bool)
      requires WellFormed(rs) && PagesOk(rs, pt) && Frames(pt, free0, content0) && k < |rs|
      requires forall v, w | v in pt && w in pt && v != w :: pt[v] != pt[w]
      requires m < |sl| == child.slots.Length && child.slots[..] == sl[m := SlotOf(rs[k], 0)]
      requires |child.mem.free| <= |free0| && child.mem.free == free0[|free0| - |child.mem.free|..]
      requires Copying(rs, pt, k, 0, child.mem.pt, free0[..|free0| - |child.mem.free|], content0, content)
      modifies this`content, child`mem, child.slots
      ensures |child.mem.free| <= |free0| && child.mem.free == free0[|free0| - |child.mem.free|..]
      ensures forall v | v in pt :: pt[v] in content && pt[v] in content0 && content[pt[v]] == content0[pt[v]]
      ensures ok <==> |old(child.mem.free)| >= FramesFor(rs[k], pt, rs[k].addr)
      ensures !ok ==> child.mem.free == []
      ensures ok ==> |child.mem.free| == |old(child.mem.free)| - FramesFor(rs[k], pt, rs[k].addr)
      ensures ok ==>
                && child.slots[..] == sl[m := SlotOf(rs[k], rs[k].loaded)]
                && Copying(rs, pt, k + 1, 0, child.mem.pt, free0[..|free0| - |child.mem.free|], content0, content)
    {
      hide WellFormed, PagesOk, Aligned, Frames, Copying, Loaded;
      var free: seq<nat>, childPt: map<nat, nat> := child.mem.free, child.mem.pt;
      GoodAt(rs, k);
      CopyRegion(rs, pt, childPt, free0[..|free0| - |free|], content0, content, k);
      var va := rs[k].addr;
      ghost var start := |free|;
      LoadedFrom(pt, va, rs[k].End());
      while va < rs[k].End()
        invariant Aligned(va) && rs[k].addr <= va && |free| <= |free0| && free == free0[|free0| - |free|..]
        invariant child.mem == Memory(childPt, free) && m < child.slots.Length
        invariant Copying(rs, pt, k, va, childPt, free0[..|free0| - |free|], content0, content)
        invariant child.slots[..] == sl[m := SlotOf(rs[k], child.slots[m].loaded)]
        invariant start - |free| == FramesFor(rs[k], pt, rs[k].addr) - FramesFor(rs[k], pt, va)
        invariant child.slots[m].loaded + Loaded(pt, va, rs[k].End()) == Loaded(pt, rs[k].addr, rs[k].End())
        decreases rs[k].End() - va
      {
        ghost var n := |free0| - |free|;
        LoadedFrom(pt, va, rs[k].End());
        LoadedNonneg(pt, va + PGSIZE, rs[k].End());
        if va in pt {
          if rs[k].flags.isShared {
            CopyShared(rs, pt, childPt, free0, n, content0, content, k, va);
            childPt := childPt[va := pt[va]];
          } else {
            if free == [] {
              ParentKept(rs, pt, k, va, childPt, free0, n, content0, content);
              return false;
            }
            var frame := free[0];
            CopyPrivate(rs, pt, childPt, free0, n, content0, content, k, va);
            free := free[1..];
            content := content[frame := content[pt[va]]];
            childPt := childPt[va := frame];
            assert free0[..n + 1] == free0[..n] + [frame];
          }
          child.mem := Memory(childPt, free);
          child.Put(m, child.slots[m].(loaded := child.slots[m].loaded + 1));
        } else {
          CopyNothing(rs, pt, childPt, free0[..n], content0, content, k, va);
        }
        NextPage(va, va);
        va := va + PGSIZE;
      }
      LoadedFrom(pt, va, rs[k].End());
      CopyNext(rs, pt, childPt, free0[..|free0| - |free|], content0, content, k, va);
      CountIs(rs, pt, k);
      ParentKept(rs, pt, k + 1, 0, childPt, free0, |free0| - |free|, content0, content);
      ok := true;
    }

    /** Appends the region in slot `m` to the child's list, after the region in slot `prev`. */
    method Append(m: nat, prev: int, ghost sl: seq<Slot>, r: Region)
      requires Linked(sl, child.head, child.order) && child.total == |child.order| && prev == LastOf(child.order)
      requires |sl| == child.slots.Length
      requires m < |sl| && m !in child.order && r.addr != UNUSED && child.slots[..] == sl[m := SlotOf(r, r.loaded)] && m < |refcnt|
      modifies this`refcnt, child`head, child`order, child`total, child.slots
      ensures child.ListOk() && child.order == old(child.order) + [m]
      ensures child.List() == Regions(sl, old(child.order)) + [r]
      ensures refcnt == old(refcnt)[m := CountOf(r)]
    {
      hide Linked, Regions, InsertOrder;
      ghost var o, s := child.order, SlotOf(r, r.loaded);
      AppendOrder(sl, child.head, o, m);
      LinkKeeps(sl, child.head, o, |o|, m, s);
      LinkRegions(sl, o, |o|, m, s);
      if child.head == -1 {
        child.head := m;
      } else {
        child.Put(prev, child.slots[prev].(next := m));
      }
      child.total := child.total + 1;
      child.order := InsertOrder(o, |o|, m);
      refcnt := refcnt[m := CountOf(r)];
      assert child.slots[..] == LinkIn(sl, o, |o|, m, s);
    }

    /** copy_maps: false exactly when there are fewer free frames than present private pages. Otherwise the child's list, threaded through its own
        slots, has the parent's regions in the same order with the same counts; it maps the same pages,
        shares the frames of shared regions, and has fresh frames with equal contents for the others.
        The parent's frames are as they were. */
    method CopyMaps(rs: seq<Region>, pt: map<nat, nat>) returns (ok: bool)
      requires WellFormed(rs) && PagesOk(rs, pt) && Frames(pt, child.mem.free, content) && |refcnt| == MAX_NMMAP
      requires child.ListOk() && child.order == [] && child.mem.pt == map[]
      requires forall v, w | v in pt && w in pt && v != w :: pt[v] != pt[w]
      modifies this`content, this`refcnt, child, child.slots
      ensures var free0, free := old(child.mem.free), child.mem.free;
              |free| <= |free0| && free == free0[|free0| - |free|..]
      ensures ok <==> |old(child.mem.free)| >= FramesNeeded(rs, pt, |rs|)
      ensures !ok ==> child.mem.free == []
      ensures ok ==> |child.mem.free| == |old(child.mem.free)| - FramesNeeded(rs, pt, |rs|)
      ensures ok ==>
                && child.ListOk() && child.List() == rs && |refcnt| == MAX_NMMAP
                && (forall k | 0 <= k < |rs| :: child.order[k] < MAX_NMMAP && refcnt[child.order[k]] == CountOf(rs[k]))
                && (forall v :: v in child.mem.pt <==> v in pt)
                && PagesOk(child.List(), child.mem.pt)
                && Copying(rs, pt, |rs|, 0, child.mem.pt, old(child.mem.free)[..|old(child.mem.free)| - |child.mem.free|], old(content), content)
      ensures forall v | v in pt :: pt[v] in content && content[pt[v]] == old(content)[pt[v]]
    {
      hide WellFormed, PagesOk, Aligned, Frames, Copying, Linked, Regions, FramesNeeded, FramesFor, SlotOf, CountOf, Good;
      ghost var free0, content0 := child.mem.free, content;
      CopyStart(rs, pt, free0, content0);
      ParentKept(rs, pt, 0, 0, map[], free0, 0, content0, content);
      AtMost(rs);
      NoRegions(child.slots[..]);
      NeededNone(rs, pt);
      var prev := -1;
      for k := 0 to |rs|
        invariant child.ListOk() && |child.order| == k && child.List() == rs[..k] && prev == LastOf(child.order)
        invariant |refcnt| == MAX_NMMAP && forall i | 0 <= i < k :: child.order[i] < MAX_NMMAP && refcnt[child.order[i]] == CountOf(rs[i])
        invariant |child.mem.free| <= |free0| && child.mem.free == free0[|free0| - |child.mem.free|..]
        invariant |child.mem.free| == |free0| - FramesNeeded(rs, pt, k)
        invariant Copying(rs, pt, k, 0, child.mem.pt, free0[..|free0| - |child.mem.free|], content0, content)
        invariant forall v | v in pt :: pt[v] in content && pt[v] in content0 && content[pt[v]] == content0[pt[v]]
      {
        ghost var sl, o := child.slots[..], child.order;
        LinkedSize(sl, child.head, o);
        var m := child.FindUnused();
        GoodAt(rs, k);
        NeededNext(rs, pt, k);
        child.Put(m, SlotOf(rs[k], 0));
        ok := CopyPages(rs, pt, k, m, sl, free0, content0);
        if !ok {
          NeededMono(rs, pt, k + 1, |rs|);
          return;
        }
        Append(m, prev, sl, rs[k]);
        prev := m;
        assert rs[..k + 1] == rs[..k] + [rs[k]];
      }
      assert rs[..|rs|] == rs;
      AllCopied(rs, pt, child.mem.pt, free0[..|free0| - |child.mem.free|], content0, content);
      SamePages(rs, pt, child.mem.pt);
      ok := true;
    }
  }

  function LastOf(order: seq<nat>): (r: int) { if order == [] then -1 else order[|order| - 1] }

  lemma AppendOrder(sl: seq<Slot>, head: int, o: seq<nat>, m: nat)
    requires Linked(sl, head, o)
    ensures InsertOrder(o, |o|, m) == o + [m] && (head == -1 <==> o == []) && InSlots(sl, o)
    ensures o != [] ==> LastOf(o) >= 0 && LastOf(o) < |sl|
  {}

  lemma NoRegions(sl: seq<Slot>)
    ensures Regions(sl, []) == []
  {}

  lemma LoadedFrom(pt: map<nat, nat>, lo: nat, hi: int)
    ensures Loaded(pt, lo, hi) == if lo >= hi then 0 else (if lo in pt then 1 else 0) + Loaded(pt, lo + PGSIZE, hi)
  {}

  /** The counts are right for the child, too. */
  lemma SamePages(rs: seq<Region>, pt: map<nat, nat>, pt': map<nat, nat>)
    requires WellFormed(rs) && PagesOk(rs, pt) && forall v :: v in pt' <==> v in pt
    ensures PagesOk(rs, pt')
  {
    hide WellFormed, Aligned, Covers, Loaded;
    forall k | 0 <= k < |rs| ensures rs[k].loaded == Loaded(pt', rs[k].addr, rs[k].End()) {
      GoodAt(rs, k);
      LoadedSame(pt, pt', rs[k].addr, rs[k].End());
    }
  }

  lemma CountIs(rs: seq<Region>, pt: map<nat, nat>, k: nat)
    requires PagesOk(rs, pt) && k < |rs|
    ensures rs[k].loaded == Loaded(pt, rs[k].addr, rs[k].End())
  {}

  lemma CopyStart(rs: seq<Region>, pt: map<nat, nat>, free: seq<nat>, content: map<nat, Page>)
    requires Frames(pt, free, content)
    ensures Copying(rs, pt, 0, 0, map[], free[..0], content, content)
  {
    forall v ensures !Done(rs, 0, 0, v) { NotDone(rs, v); }
  }

  lemma NotDone(rs: seq<Region>, v: int)
    ensures !Done(rs, 0, 0, v)
  {}

  /** Region `k` is done up to its beginning when the regions before it are. */
  lemma CopyRegion(rs: seq<Region>, pt: map<nat, nat>, childPt: map<nat, nat>, used: seq<nat>, content0: map<nat, Page>, content: map<nat, Page>, k: nat)
    requires k < |rs| && Copying(rs, pt, k, 0, childPt, used, content0, content)
    ensures Copying(rs, pt, k, rs[k].addr, childPt, used, content0, content)
  {
    forall v ensures Done(rs, k, rs[k].addr, v) <==> Done(rs, k, 0, v) {
      if Done(rs, k, rs[k].addr, v) {
        var i: nat :| Belongs(rs, i, v) && (i < k || (i == k && v < rs[k].addr));
        assert i < k;
      }
      if Done(rs, k, 0, v) {
        var i: nat :| Belongs(rs, i, v) && (i < k || (i == k && v < 0));
        assert i < k;
      }
    }
  }

  lemma CopyNext(rs: seq<Region>, pt: map<nat, nat>, childPt: map<nat, nat>, used: seq<nat>, content0: map<nat, Page>, content: map<nat, Page>, k: nat, va: int)
    requires k < |rs| && va >= rs[k].End() && Copying(rs, pt, k, va, childPt, used, content0, content)
    ensures Copying(rs, pt, k + 1, 0, childPt, used, content0, content)
  {
    forall v: nat ensures Done(rs, k + 1, 0, v) <==> Done(rs, k, va, v) {
      if Done(rs, k + 1, 0, v) {
        var i: nat :| Belongs(rs, i, v) && (i < k + 1 || (i == k + 1 && v < 0));
        assert i < k || (i == k && v < va);
      }
      if Done(rs, k, va, v) {
        var i: nat :| Belongs(rs, i, v) && (i < k || (i == k && v < va));
        assert i < k + 1;
      }
    }
  }

  /** One page further. */
  lemma DoneStep(rs: seq<Region>, pt: map<nat, nat>, k: nat, va: nat, v: nat)
    requires WellFormed(rs) && k < |rs| && Belongs(rs, k, va) && Aligned(va) && Aligned(v)
    ensures Done(rs, k, va + PGSIZE, v) <==> Done(rs, k, va, v) || v == va
    ensures !Done(rs, k, va, va)
  {
    NextPage(va, v);
    if Done(rs, k, va + PGSIZE, v) {
      var i: nat :| Belongs(rs, i, v) && (i < k || (i == k && v < va + PGSIZE));
      hide WellFormed, Aligned;
    }
    if Done(rs, k, va, v) {
      var i: nat :| Belongs(rs, i, v) && (i < k || (i == k && v < va));
      hide WellFormed, Aligned;
      assert i < k || (i == k && v < va + PGSIZE);
    }
    if v == va { assert Belongs(rs, k, v) && v < va + PGSIZE; }
    OnlyRegion(rs, k, va);
  }

  lemma AlignedPages(rs: seq<Region>, pt: map<nat, nat>)
    requires PagesOk(rs, pt)
    ensures forall v | v in pt :: Aligned(v)
  {}

  lemma CopyNothing(rs: seq<Region>, pt: map<nat, nat>, childPt: map<nat, nat>, used: seq<nat>, content0: map<nat, Page>, content: map<nat, Page>, k: nat, va: nat)
    requires WellFormed(rs) && PagesOk(rs, pt) && k < |rs| && Belongs(rs, k, va) && Aligned(va) && va !in pt
    requires Copying(rs, pt, k, va, childPt, used, content0, content)
    ensures Copying(rs, pt, k, va + PGSIZE, childPt, used, content0, content)
  {
    AlignedPages(rs, pt);
    forall v | v in pt ensures Done(rs, k, va + PGSIZE, v) <==> Done(rs, k, va, v) { DoneStep(rs, pt, k, va, v); }
    hide WellFormed, PagesOk, Aligned, Done, CopiedPage;
  }

  /** The page belongs to region `k` and to no other. */
  lemma OnlyRegion(rs: seq<Region>, k: nat, va: nat)
    requires WellFormed(rs) && Belongs(rs, k, va) && Aligned(va)
    ensures forall i: nat | Belongs(rs, i, va) :: i == k
  {
    forall i: nat | Belongs(rs, i, va) ensures i == k { PagesDisjoint(rs, i, k, va); }
  }

  lemma CopyShared(rs: seq<Region>, pt: map<nat, nat>, childPt: map<nat, nat>, free0: seq<nat>, n: nat, content0: map<nat, Page>, content: map<nat, Page>, k: nat, va: nat)
    requires WellFormed(rs) && PagesOk(rs, pt) && k < |rs| && Belongs(rs, k, va) && Aligned(va) && va in pt && rs[k].flags.isShared
    requires n <= |free0| && Frames(pt, free0, content0) && Copying(rs, pt, k, va, childPt, free0[..n], content0, content)
    requires forall v, w | v in pt && w in pt && v != w :: pt[v] != pt[w]
    ensures Copying(rs, pt, k, va + PGSIZE, childPt[va := pt[va]], free0[..n], content0, content)
  {
    AlignedPages(rs, pt);
    OnlyRegion(rs, k, va);
    forall v | v in pt ensures Done(rs, k, va + PGSIZE, v) <==> Done(rs, k, va, v) || v == va { DoneStep(rs, pt, k, va, v); }
    DoneStep(rs, pt, k, va, va);
    var childPt' := childPt[va := pt[va]];
    forall v | v in childPt ensures childPt[v] != pt[va] { FrameOther(rs, pt, childPt, free0, n, content0, content, k, va, v); }
    hide WellFormed, PagesOk, Aligned, Done, Frames;
    forall i: nat, v | Belongs(rs, i, v) && v in childPt' ensures CopiedPage(rs[i], v, pt, childPt', free0[..n], content0, content) {
      if v != va { assert CopiedPage(rs[i], v, pt, childPt, free0[..n], content0, content); }
    }
    hide CopiedPage, Belongs;
  }

  /** A frame of the child so far is not the parent's frame of another page. */
  lemma FrameOther(rs: seq<Region>, pt: map<nat, nat>, childPt: map<nat, nat>, free0: seq<nat>, n: nat, content0: map<nat, Page>, content: map<nat, Page>, k: nat, va: nat, v: nat)
    requires n <= |free0| && Frames(pt, free0, content0) && Copying(rs, pt, k, va, childPt, free0[..n], content0, content)
    requires v in childPt && va in pt && va !in childPt && forall v, w | v in pt && w in pt && v != w :: pt[v] != pt[w]
    ensures childPt[v] != pt[va]
  {
    var i: nat :| Belongs(rs, i, v) && (i < k || (i == k && v < va));
    assert CopiedPage(rs[i], v, pt, childPt, free0[..n], content0, content);
    hide Done;
    if !rs[i].flags.isShared { assert childPt[v] in free0; }
  }

  lemma CopyPrivate(rs: seq<Region>, pt: map<nat, nat>, childPt: map<nat, nat>, free0: seq<nat>, n: nat, content0: map<nat, Page>, content: map<nat, Page>, k: nat, va: nat)
    requires WellFormed(rs) && PagesOk(rs, pt) && k < |rs| && Belongs(rs, k, va) && Aligned(va) && va in pt && !rs[k].flags.isShared
    requires n < |free0| && Frames(pt, free0, content0) && Copying(rs, pt, k, va, childPt, free0[..n], content0, content)
    ensures pt[va] in content
    ensures Copying(rs, pt, k, va + PGSIZE, childPt[va := free0[n]], free0[..n] + [free0[n]], content0, content[free0[n] := content[pt[va]]])
  {
    AlignedPages(rs, pt);
    OnlyRegion(rs, k, va);
    forall v | v in pt ensures Done(rs, k, va + PGSIZE, v) <==> Done(rs, k, va, v) || v == va { DoneStep(rs, pt, k, va, v); }
    DoneStep(rs, pt, k, va, va);
    PrefixIn(free0, n, pt[va]);
    forall v | v in childPt ensures childPt[v] != free0[n] { FrameFresh(rs, pt, childPt, free0, n, content0, content, k, va, v); }
    hide WellFormed, PagesOk, Aligned, Done, Frames;
    var content', childPt' := content[free0[n] := content[pt[va]]], childPt[va := free0[n]];
    var used' := free0[..n] + [free0[n]];
    forall i: nat, v | Belongs(rs, i, v) && v in childPt' ensures CopiedPage(rs[i], v, pt, childPt', used', content0, content') {
      if v != va { assert CopiedPage(rs[i], v, pt, childPt, free0[..n], content0, content); }
    }
    hide CopiedPage, Belongs;
  }

  lemma FrameFresh(rs: seq<Region>, pt: map<nat, nat>, childPt: map<nat, nat>, free0: seq<nat>, n: nat, content0: map<nat, Page>, content: map<nat, Page>, k: nat, va: nat, v: nat)
    requires n < |free0| && Frames(pt, free0, content0) && Copying(rs, pt, k, va, childPt, free0[..n], content0, content) && v in childPt
    ensures childPt[v] != free0[n]
  {
    var i: nat :| Belongs(rs, i, v) && (i < k || (i == k && v < va));
    assert CopiedPage(rs[i], v, pt, childPt, free0[..n], content0, content);
    hide Done;
  }

  lemma ParentKept(rs: seq<Region>, pt: map<nat, nat>, k: nat, va: int, childPt: map<nat, nat>, free0: seq<nat>, n: nat, content0: map<nat, Page>, content: map<nat, Page>)
    requires n <= |free0| && Frames(pt, free0, content0) && Copying(rs, pt, k, va, childPt, free0[..n], content0, content)
    ensures forall v | v in pt :: pt[v] in content && pt[v] in content0 && content[pt[v]] == content0[pt[v]]
  {
    forall v | v in pt ensures pt[v] in content && pt[v] in content0 && content[pt[v]] == content0[pt[v]] {
      PrefixIn(free0, n, pt[v]);
    }
  }

  lemma PrefixIn(free: seq<nat>, n: nat, f: nat)
    requires n <= |free|
    ensures f in free[..n] ==> f in free
  {}

  lemma AllCopied(rs: seq<Region>, pt: map<nat, nat>, childPt: map<nat, nat>, used: seq<nat>, content0: map<nat, Page>, content: map<nat, Page>)
    requires PagesOk(rs, pt) && Copying(rs, pt, |rs|, 0, childPt, used, content0, content)
    ensures forall v :: v in childPt <==> v in pt
  {
    forall v | v in pt ensures v in childPt {
      assert Covers(rs, v);
      var i :| 0 <= i < |rs| && rs[i].addr <= v < rs[i].End();
      assert Belongs(rs, i, v);
      assert Done(rs, |rs|, 0, v);
    }
  }
}
