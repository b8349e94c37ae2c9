/** wmap.c: a process's regions, page table and frames, as wmap, wunmap, wpunmap and page faults
    change them, for regions that no child shares. Of the file behind a region only its size matters. */
module WmapProc {
  import opened Counting
  import opened WmapRegions
  import opened WmapPages
  import opened WmapList

  const NOFLAGS := Flags(false, false, false, false)
  const BLANK := Slot(UNUSED, -1, NOFLAGS, -1, 0, -1)
  const FAILED: int := -1

  /** Every present page belongs to a region, and every region counts its present pages. */
  ghost predicate PagesOk(rs: seq<Region>, pt: map<nat, nat>) {
    && (forall v | v in pt :: Aligned(v) && Covers(rs, v))
    && (forall k | 0 <= k < |rs| :: rs[k].loaded == Loaded(pt, rs[k].addr, rs[k].End()))
  }

  /** validate_input, with `hasFile` for a file descriptor that names an open file. */
  predicate ValidInput(addr: nat, length: int, flags: Flags, hasFile: bool) {
    && length > 0
    && flags.isShared != flags.isPrivate
    && (flags.anonymous || hasFile)
    && (flags.fixed ==> Aligned(addr) && MMAPBASE <= addr < KERNBASE && U32(addr + length) <= KERNBASE)
  }

  /** Which requests are admitted: exactly one of shared and private; a file unless the mapping is anonymous;
      and for a fixed mapping, an address at which the region would be in order. */
  lemma ValidMeans(addr: nat, length: int, flags: Flags, hasFile: bool)
    requires addr < TWO32 && -TWO31 <= length < TWO31
    ensures ValidInput(addr, length, flags, hasFile) <==>
              && 0 < length && ((flags.isShared && !flags.isPrivate) || (flags.isPrivate && !flags.isShared))
              && (!flags.anonymous ==> hasFile)
              && (flags.fixed ==> Good(Region(addr, length, flags, -1, 0)))
  {
    if flags.fixed && 0 < length && addr < KERNBASE { U32Small(addr + length); }
    hide U32;
  }

  /** What handle_page_fault returns: 0; FAILED; FAILED after readi has failed; or not at all, because
      mappages panics. */
  datatype FaultResult = Served | Failed | Unread | Remap

  class Proc {
    const slots: array<Slot>
    var head: int
    var total: nat
    var mem: Memory
    ghost var order: seq<nat>
    ghost var frames: set<nat>

    ghost predicate ListOk()
      reads this, slots
    {
      Linked(slots[..], head, order) && total == |order|
    }

    ghost function List(): (r: seq<Region>)
      requires ListOk()
      reads this, slots
    {
      Regions(slots[..], order)
    }

    ghost predicate Valid()
      reads this, slots
    {
      ListOk() && WellFormed(List()) && PagesOk(List(), mem.pt) && Partition(mem, frames)
    }

    /** init_mmaps */
    constructor (free: seq<nat>)
      requires forall i, j | 0 <= i < j < |free| :: free[i] != free[j]
      ensures Valid() && List() == [] && mem == Memory(map[], free) && fresh(slots)
    {
      slots := new Slot[MAX_NMMAP](_ => BLANK);
      head, total, mem, order := -1, 0, Memory(map[], free), [];
      frames := set f | f in free;
    }

    /** find_unused_mmap */
    method FindUnused() returns (m: int)
      requires Linked(slots[..], head, order)
      ensures m == -1 <==> |order| == MAX_NMMAP
      ensures m == -1 || (0 <= m < slots.Length && slots[m].addr == UNUSED && m !in order)
    {
      ghost var sl := slots[..];
      UnusedSlots(sl, head, order);
      for i := 0 to MAX_NMMAP
        invariant forall j | 0 <= j < i :: sl[j].addr != UNUSED
      {
        if slots[i].addr == UNUSED { assert sl[i].addr == UNUSED; return i; }
      }
      return -1;
    }

    /** The search for an overlap in fix_addr_place_mmap. */
    method IsFree(addr: nat, length: int) returns (free: bool)
      requires ListOk() && WellFormed(List()) && length > 0 && addr + length <= KERNBASE
      ensures free <==> FreeAt(List(), addr, length)
    {
      hide WellFormed, Linked, Regions, Aligned, U32, FreeAt, Overlaps;
      ghost var sl, rs := slots[..], List();
      ghost var k := 0;
      U32Small(addr + length);
      var end := U32(addr + length);
      var cur := head;
      LinkedSize(sl, head, order);
      FreeSoFar(rs, addr, length, 0);
      while cur != -1
        invariant k <= |order| && cur == At(order, k) && FreeAt(rs[..k], addr, length)
        decreases |order| - k
      {
        Visit(sl, head, order, k);
        GoodAt(rs, k);
        FreeSoFar(rs, addr, length, k);
        var s := slots[cur];
        assert s.AsRegion() == rs[k];
        U32Small(s.addr + s.length);
        if addr < U32(s.addr + s.length) && end > s.addr {
          return false;
        }
        cur := s.next;
        k := k + 1;
      }
      assert rs[..k] == rs;
      return true;
    }

    method Put(i: nat, s: Slot)
      requires i < slots.Length
      modifies slots
      ensures slots[..] == old(slots[..])[i := s]
    {
      slots[i] := s;
    }

    /** The region after which one starting at `addr` belongs, read from the slots `sl` of which `m` has
        been rewritten. */
    method PrevOf(addr: nat, ghost sl: seq<Slot>, ghost rs: seq<Region>, ghost m: nat) returns (prev: nat, ghost k: nat)
      requires Linked(sl, head, order) && rs == Regions(sl, order) && Rising(rs)
      requires m < |sl| == slots.Length && m !in order && forall i: nat | i < |sl| && i != m :: slots[i] == sl[i]
      requires order != [] && rs[0].addr < addr && (forall i | 0 <= i < |rs| :: rs[i].addr != addr)
      ensures 0 < k <= |order| && prev == order[k - 1] && k == Before(rs, addr)
    {
      ghost var o := order;
      ghost var p := 0;
      hide Linked, Regions, Before, Rising;
      Look(sl, rs, head, o, m, 0);
      prev := head;
      while slots[prev].next != -1 && slots[slots[prev].next].addr < addr
        invariant p < |o| == |rs| && prev == o[p] && prev < slots.Length && rs[p].addr < addr
        invariant slots[prev].next == At(o, p + 1)
        invariant p + 1 < |o| ==> o[p + 1] < slots.Length && slots[o[p + 1]].addr == rs[p + 1].addr
        decreases |o| - p
      {
        p := p + 1;
        prev := slots[prev].next;
        Look(sl, rs, head, o, m, p);
      }
      k := p + 1;
      BeforeIs(rs, addr, k);
    }

    /** The insertion of fix_addr_place_mmap: slot `m` joins the list before the regions that start
        later. */
    method Link(m: nat, addr: nat, ghost sl: seq<Slot>, ghost rs: seq<Region>, ghost o: seq<nat>)
      requires slots[..] == sl && order == o && Linked(sl, head, o) && rs == Regions(sl, o) && Rising(rs)
      requires m < |sl| && m !in o && addr < UNUSED && forall i | 0 <= i < |rs| :: rs[i].addr != addr
      modifies this`head, this`order, slots
      ensures var k := Before(rs, addr);
              k <= |o| && InSlots(sl, o) && slots[..] == LinkIn(sl, o, k, m, sl[m].(addr := addr)) && order == InsertOrder(o, k, m)
      ensures Linked(slots[..], head, order)
    {
      hide Linked, Regions, InsertOrder, Before, InSlots, Rising;
      ghost var k := 0;
      LinkedSize(sl, head, o);
      if head != -1 { Look(sl, rs, head, o, m, 0); }
      Put(m, slots[m].(addr := addr));
      if head == -1 || slots[head].addr > addr {
        BeforeIs(rs, addr, 0);
        LinkKeeps(sl, head, o, 0, m, sl[m].(addr := addr));
        Put(m, slots[m].(next := head));
        head := m;
      } else {
        var prev;
        prev, k := PrevOf(addr, sl, rs, m);
        Look(sl, rs, head, o, m, k - 1);
        LinkKeeps(sl, head, o, k, m, sl[m].(addr := addr));
        Put(m, slots[m].(next := slots[prev].next));
        Put(prev, slots[prev].(next := m));
      }
      order := InsertOrder(o, k, m);
    }

    /** fix_addr_place_mmap: the slot that now holds `addr`, in the list, or -1. */
    method FixPlace(addr: nat, length: int, ghost sl: seq<Slot>, ghost rs: seq<Region>, ghost o: seq<nat>) returns (m: int)
      requires slots[..] == sl && order == o && ListOk() && rs == List() && WellFormed(rs)
      requires length > 0 && addr + length <= KERNBASE
      modifies this`head, this`order, slots
      ensures m == -1 <==> !FreeAt(rs, addr, length) || |o| == MAX_NMMAP
      ensures if m == -1 then slots[..] == sl && order == o && head == old(head)
              else && 0 <= m < |sl| && m !in o && Linked(slots[..], head, order)
                   && var k := Before(rs, addr);
                      k <= |o| && InSlots(sl, o) && slots[..] == LinkIn(sl, o, k, m, sl[m].(addr := addr)) && order == InsertOrder(o, k, m)
    {
      Increasing(rs);
      hide WellFormed, Linked, Regions, InsertOrder, Before, InSlots, LinkIn, FreeAt;
      var free := IsFree(addr, length);
      if !free { return -1; }
      m := FindUnused();
      if m == -1 { return -1; }
      NotThere(rs, addr, length);
      Link(m, addr, sl, rs, o);
    }

    /** Moves `start` past region `k`, which leaves no room before it, and up to the next page. */
    method PastRegion(start: nat, s: Slot, ghost rs: seq<Region>, ghost k: nat, ghost length: int) returns (next: nat)
      requires WellFormed(rs) && k < |rs| && Scanned(rs, k, start, length) && length > 0 && start <= KERNBASE
      requires s.AsRegion() == rs[k] && s.addr < start + length
      ensures Scanned(rs, k + 1, next, length) && next <= KERNBASE
    {
      GoodAt(rs, k);
      ScanStep(rs, k, start, length);
      AlignedRound(rs[k].End());
      U32Small(s.addr + s.length);
      ScannedAligned(rs, k, start, length);
      hide WellFormed, Good, Aligned, Scanned, RoundUp, U32;
      next := start;
      var cend := U32(s.addr + s.length);
      assert cend == rs[k].End();
      if cend > next { next := cend; }
      if !Aligned(next) { next := RoundUp(next); }
    }

    /** The scan of find_addr_place_mmap, up to the first gap that is long enough. */
    method Scan(length: int, ghost rs: seq<Region>) returns (start: nat, ghost k: nat)
      requires ListOk() && rs == List() && WellFormed(rs) && 0 < length < TWO31
      ensures k <= |rs| && start <= KERNBASE && Scanned(rs, k, start, length) && (k < |rs| ==> rs[k].addr >= start + length)
    {
      hide WellFormed, Linked, Regions, Scanned, Aligned, U32;
      ghost var sl := slots[..];
      k := 0;
      start := MMAPBASE;
      var cur := head;
      LinkedSize(sl, head, order);
      ScanStart(rs, length);
      while cur != -1
        invariant k <= |order| == |rs| && cur == At(order, k)
        invariant Scanned(rs, k, start, length) && start <= KERNBASE
        decreases |order| - k
      {
        Visit(sl, head, order, k);
        var s := slots[cur];
        assert s.AsRegion() == rs[k];
        U32Small(start + length);
        if s.addr >= U32(start + length) { return; }
        start := PastRegion(start, s, rs, k, length);
        cur := s.next;
        k := k + 1;
      }
    }

    /** find_addr_place_mmap, up to its call of fix_addr_place_mmap: the first fit, or nothing. */
    method FindAddr(length: int, ghost rs: seq<Region>) returns (start: nat, found: bool)
      requires ListOk() && rs == List() && WellFormed(rs) && 0 < length < TWO31
      ensures if found then IsFirstFit(rs, start, length) else forall s :: !Candidate(rs, s, length)
    {
      hide WellFormed, Scanned, Aligned, U32, Candidate, IsFirstFit;
      ghost var k;
      start, k := Scan(length, rs);
      ScanEnd(rs, k, start, length);
      U32Small(start + length);
      found := U32(start + length) <= KERNBASE;
    }

    /** sys_wmap: the address of the new region, or FAILED with nothing changed. A fixed region goes
        where it is asked to go, any other to the first fit. */
    method Wmap(addr: nat, length: int, flags: Flags, fd: int, hasFile: bool) returns (r: int)
      requires Valid() && addr < TWO32 && -TWO31 <= length < TWO31
      modifies this`head, this`order, this`total, slots
      ensures Valid()
      ensures r == FAILED <==>
                || length <= 0 || flags.isShared == flags.isPrivate || (!flags.anonymous && !hasFile) || |old(List())| == MAX_NMMAP
                || (flags.fixed && !Good(Region(addr, length, flags, fd, 0)))
                || if flags.fixed then !FreeAt(old(List()), addr, length) else forall s :: !Candidate(old(List()), s, length)
      ensures r == FAILED ==> List() == old(List())
      ensures r != FAILED ==>
                && 0 <= r && List() == Insert(old(List()), Region(r, length, flags, fd, 0))
                && if flags.fixed then r == addr else IsFirstFit(old(List()), r, length)
    {
      hide Linked, Regions, WellFormed, Partition, PagesOk, InsertOrder, LinkIn, InSlots, FreeAt, Candidate, IsFirstFit, Insert, Before;
      ghost var sl, rs, o := slots[..], List(), order;
      LinkedSize(sl, head, o);
      ValidMeans(addr, length, flags, hasFile);
      if !ValidInput(addr, length, flags, hasFile) { return FAILED; }
      if total >= MAX_NMMAP { AtMost(rs); return FAILED; }
      var at, m := addr, -1;
      if flags.fixed {
        NoWrap(addr, length);
      } else {
        var found;
        at, found := FindAddr(length, rs);
        if !found { return FAILED; }
        FirstFitIs(rs, at, length);
      }
      m := FixPlace(at, length, sl, rs, o);
      if m == -1 { return FAILED; }
      ghost var k := Before(rs, at);
      Placed(sl, slots[..], head, o, order, rs, k, m, at, length, flags, fd);
      Put(m, slots[m].(length := length, flags := flags, fd := fd, loaded := 0));
      total := total + 1;
      PlacedOk(rs, mem.pt, Region(at, length, flags, fd, 0));
      return at;
    }

    /** The page loop of remove_map and sys_wpunmap; `n` counts the pages it frees. */
    method ClearPages(lo: nat, hi: nat) returns (n: nat)
      requires Aligned(lo)
      modifies this`mem
      ensures mem == Clear(old(mem), lo, hi) && n == Loaded(old(mem).pt, lo, hi)
    {
      ghost var m := mem;
      n := 0;
      var va := lo;
      while va < hi
        invariant Aligned(va) && lo <= va && Clear(mem, va, hi) == Clear(m, lo, hi)
        invariant n + Loaded(mem.pt, va, hi) == Loaded(m.pt, lo, hi)
        decreases hi - va
      {
        ClearOne(mem, va, hi);
        if va in mem.pt {
          mem := Drop(mem, va);
          n := n + 1;
        }
        va := va + PGSIZE;
      }
    }

    /** The search of remove_map: the slot whose region starts at `addr`, and the slot before it. */
    method Find(addr: nat, ghost sl: seq<Slot>, ghost rs: seq<Region>) returns (prev: int, cur: int, ghost k: nat)
      requires slots[..] == sl && Linked(sl, head, order) && rs == Regions(sl, order)
      ensures k <= |order| == |rs| && cur == At(order, k) && prev == (if k == 0 then -1 else order[k - 1])
      ensures (k < |order| ==> rs[k].addr == addr) && forall i | 0 <= i < k :: rs[i].addr != addr
    {
      hide Linked, Regions;
      LinkedSize(sl, head, order);
      k := 0;
      prev, cur := -1, head;
      while cur != -1
        invariant k <= |order| && cur == At(order, k) && prev == (if k == 0 then -1 else order[k - 1])
        invariant forall i | 0 <= i < k :: rs[i].addr != addr
        decreases |order| - k
      {
        Visit(sl, head, order, k);
        if slots[cur].addr == addr { return; }
        prev := cur;
        cur := slots[cur].next;
        k := k + 1;
      }
    }

    /** sys_wunmap and remove_map: the region that starts at `addr` goes, and its frames are free again. */
    method Wunmap(addr: nat) returns (r: int)
      requires Valid() && addr < TWO32
      modifies this`head, this`order, this`total, this`mem, slots
      ensures Valid() && frames == old(frames)
      ensures r == FAILED <==> forall i | 0 <= i < |old(List())| :: old(List())[i].addr != addr
      ensures r == FAILED ==> List() == old(List()) && mem == old(mem)
      ensures r != FAILED ==>
                exists k :: (0 <= k < |old(List())| && old(List())[k].addr == addr
                             && List() == Remove(old(List()), k) && mem == Clear(old(mem), addr, old(List())[k].End()))
    {
      hide Linked, Regions, WellFormed, Partition, PagesOk, RemoveOrder, TakeOut, Remove, InSlots, Distinct, Clear, Aligned;
      ghost var sl, rs, o, m := slots[..], List(), order, mem;
      LinkedSize(sl, head, o);
      if !Aligned(addr) { UnalignedMissing(rs, addr); return FAILED; }
      var prev, cur;
      ghost var k;
      prev, cur, k := Find(addr, sl, rs);
      if cur == -1 { return FAILED; }
      Visit(sl, head, o, k);
      GoodAt(rs, k);
      TakeKeeps(sl, head, o, k, BLANK);
      DistinctSlots(sl, head, o);
      TakeRegions(sl, o, k, BLANK);
      var n := ClearPages(slots[cur].addr, U32(slots[cur].addr + slots[cur].length));
      if prev == -1 {
        head := slots[cur].next;
      } else {
        Visit(sl, old(head), o, k - 1);
        Put(prev, slots[prev].(next := slots[cur].next));
      }
      total := total - 1;
      Put(cur, BLANK);
      Unlinked(sl, slots[..], o, k, BLANK);
      order := RemoveOrder(o, k);
      RemovedOk(rs, m, k, frames);
      return 0;
    }

    /** handle_page_fault: the page of the faulting address, if it lies in a region, gets a frame. For a
        region with a file, `size` is the size of the file: a page that starts beyond it cannot be read,
        and then the frame stays in place but is not counted. A fault on a page that is present already
        panics in mappages. */
    method PageFault(vaddr: nat, size: nat) returns (r: FaultResult)
      requires Valid() && vaddr < TWO32
      modifies this`mem, slots
      ensures ListOk() && WellFormed(List()) && Partition(mem, frames) && frames == old(frames)
      ensures Valid() <==> !r.Unread?
      ensures var va, rs, m := vaddr / PGSIZE * PGSIZE, old(List()), old(mem);
              && (r.Failed? <==> !Covers(rs, va) || m.free == [])
              && (r.Remap? <==> Covers(rs, va) && m.free != [] && va in m.pt)
              && (r.Unread? <==> Covers(rs, va) && m.free != [] && va !in m.pt && PastFile(rs, va, size))
      ensures mem == if r.Served? || r.Unread? then Fill(old(mem), vaddr / PGSIZE * PGSIZE) else old(mem)
      ensures !r.Served? ==> List() == old(List())
      ensures r.Served? ==> |List()| == |old(List())|
      ensures r.Served? ==> forall i | 0 <= i < |List()| :: List()[i] == LoadedAt(old(List())[i], vaddr / PGSIZE * PGSIZE)
    {
      hide Linked, Regions, WellFormed, Partition, PagesOk, InSlots, Aligned, Loaded, Covers, LoadedAt, PastFile;
      ghost var sl, rs, o, m := slots[..], List(), order, mem;
      LinkedSize(sl, head, o);
      var va := PageOf(vaddr);
      var cur;
      ghost var k;
      cur, k := FindPage(va, sl, rs);
      if cur == -1 { return Failed; }
      if mem.free == [] { return Failed; }
      if va in mem.pt { return Remap; }
      Visit(sl, head, o, k);
      mem := Fill(mem, va);
      FilledOk(rs, m, k, va, frames);
      PastFileAt(rs, k, va, size);
      if !slots[cur].flags.anonymous && va - slots[cur].addr > size {
        NotCounted(rs, m, k, va);
        return Unread;
      }
      Put(cur, slots[cur].(loaded := slots[cur].loaded + 1));
      RewriteKeeps(sl, head, o, k, sl[cur].(loaded := sl[cur].loaded + 1));
      return Served;
    }

    /** The search of handle_page_fault. */
    method FindPage(va: nat, ghost sl: seq<Slot>, ghost rs: seq<Region>) returns (cur: int, ghost k: nat)
      requires slots[..] == sl && Linked(sl, head, order) && rs == Regions(sl, order) && WellFormed(rs)
      ensures k <= |order| == |rs| && cur == At(order, k)
      ensures (k < |order| ==> rs[k].addr <= va < rs[k].End()) && (k < |order| <==> Covers(rs, va))
    {
      hide Linked, Regions, WellFormed;
      LinkedSize(sl, head, order);
      k := 0;
      cur := head;
      while cur != -1
        invariant k <= |order| && cur == At(order, k)
        invariant forall i | 0 <= i < k :: !(rs[i].addr <= va < rs[i].End())
        decreases |order| - k
      {
        Visit(sl, head, order, k);
        GoodAt(rs, k);
        if va >= slots[cur].addr && va < U32(slots[cur].addr + slots[cur].length) { return; }
        cur := slots[cur].next;
        k := k + 1;
      }
    }

    /** The search of sys_wpunmap. */
    method FindCovering(addr: nat, end: nat, ghost sl: seq<Slot>, ghost rs: seq<Region>) returns (cur: int, ghost k: nat)
      requires slots[..] == sl && Linked(sl, head, order) && rs == Regions(sl, order)
      ensures k == Covering(rs, addr, end) && |rs| == |order| && cur == At(order, k)
    {
      hide Linked, Regions, U32, Covering;
      LinkedSize(sl, head, order);
      k := 0;
      cur := head;
      while cur != -1
        invariant k <= |order| && cur == At(order, k)
        invariant forall i | 0 <= i < k :: !(rs[i].addr <= addr && U32(rs[i].End()) >= end)
        decreases |order| - k
      {
        Visit(sl, head, order, k);
        if slots[cur].addr <= addr && U32(slots[cur].addr + slots[cur].length) >= end {
          FirstCovering(rs, addr, end, k);
          return;
        }
        cur := slots[cur].next;
        k := k + 1;
      }
      FirstCovering(rs, addr, end, k);
    }

    /** count_loaded_pages */
    method Count(lo: nat, hi: nat) returns (n: nat)
      ensures n == Loaded(mem.pt, lo, hi)
    {
      n := 0;
      var va := lo;
      while va < hi
        invariant lo <= va && n + Loaded(mem.pt, va, hi) == Loaded(mem.pt, lo, hi)
        decreases hi - va
      {
        if va in mem.pt { n := n + 1; }
        va := va + PGSIZE;
      }
    }

    /** The last case of sys_wpunmap: the region in slot `cur` is cut in two. */
    method Split(addr: nat, length: int, cur: nat, ghost sl: seq<Slot>, ghost rs: seq<Region>, ghost k: nat) returns (r: int)
      requires slots[..] == sl && ListOk() && rs == List()
      requires Checked(addr, length) && k < |order| == |rs| && cur == order[k] && cur < |sl| && sl[cur].AsRegion() == rs[k]
      modifies this`order, this`total, slots
      ensures ListOk()
      ensures r == FAILED <==> |rs| == MAX_NMMAP
      ensures List() == if r == FAILED then rs else Cut(rs, k, addr, length, mem.pt)
    {
      hide Linked, Regions, InSlots, Aligned, Loaded, U32, I32, InsertOrder, Cut;
      ghost var o := order;
      var m := FindUnused();
      if m == -1 { return FAILED; }
      var newAddr := U32(addr + length);
      var newLength := I32(slots[cur].addr + slots[cur].length - newAddr);
      Visit(sl, head, o, k);
      NotUnused(addr, length);
      Put(cur, slots[cur].(length := I32(addr - slots[cur].addr)));
      var newLoaded := Count(newAddr, U32(newAddr + newLength));
      var loaded := Count(slots[cur].addr, U32(slots[cur].addr + slots[cur].length));
      Put(cur, slots[cur].(loaded := loaded));
      RewriteKeeps(sl, head, o, k, slots[cur]);
      ghost var sl1 := slots[..];
      assert sl1 == sl[o[k] := slots[cur]];
      var s := Slot(newAddr, newLength, slots[cur].flags, slots[cur].fd, newLoaded, slots[cur].next);
      LinkedSize(sl1, head, o);
      LinkKeeps(sl1, head, o, k + 1, m, s);
      LinkRegions(sl1, o, k + 1, m, s);
      NewSlot(sl1, o, k + 1, m, s);
      Put(m, s);
      Put(cur, slots[cur].(next := m));
      order := InsertOrder(o, k + 1, m);
      total := total + 1;
      CutIs(rs, k, addr, length, mem.pt, sl1[cur].AsRegion(), s.AsRegion());
      r := 0;
    }

    /** Rewrites the slot at position `k` of the list, but for its link. */
    method Rewrite(cur: nat, s: Slot, ghost k: nat)
      requires ListOk() && k < |order| && cur == order[k] && cur < slots.Length && s.next == slots[cur].next && s.addr != UNUSED
      modifies slots
      ensures ListOk() && slots[..] == old(slots[..])[cur := s] && List() == old(List())[k := s.AsRegion()]
    {
      RewriteKeeps(slots[..], head, order, k, s);
      hide Linked, Regions;
      Put(cur, s);
    }

    /** The part of sys_wpunmap that changes the list, after it has freed `n` pages. */
    method Shrink(addr: nat, length: int, cur: nat, n: nat, ghost rs: seq<Region>, ghost k: nat) returns (r: int)
      requires ListOk() && rs == List() && |rs| <= MAX_NMMAP
      requires Checked(addr, length) && k < |order| == |rs| && cur == order[k] && cur < slots.Length
      requires slots[cur].AsRegion() == rs[k] && slots[cur].addr != UNUSED
      modifies this`order, this`total, slots
      ensures ListOk()
      ensures r == FAILED <==> IsSplit(rs[k], addr, length) && |rs| == MAX_NMMAP
      ensures List() == if r == FAILED then rs[k := rs[k].(loaded := rs[k].loaded - n)] else Trimmed(rs, k, addr, length, n, mem.pt)
    {
      hide ListOk, List, Linked, Regions, InSlots, Aligned, Loaded, Covering, U32, I32, Cut, Checked, Trimmed, IsSplit;
      NotUnused(addr, length);
      var s := slots[cur].(loaded := slots[cur].loaded - n);
      assert s.AsRegion() == rs[k].(loaded := rs[k].loaded - n);
      SameEnd(s, rs[k], addr, length);
      Rewrite(cur, s, k);
      if addr == s.addr {
        s := s.(addr := U32(addr + length), length := I32(s.length - length));
        TrimmedIs(rs, k, addr, length, n, mem.pt, s.AsRegion());
        Rewrite(cur, s, k);
        r := 0;
      } else if U32(addr + length) == U32(s.addr + s.length) {
        s := s.(length := I32(s.length - length));
        TrimmedIs(rs, k, addr, length, n, mem.pt, s.AsRegion());
        Rewrite(cur, s, k);
        r := 0;
      } else {
        r := Split(addr, length, cur, slots[..], rs[k := s.AsRegion()], k);
        CutSame(rs, k, addr, length, n, mem.pt);
        TrimmedIs(rs, k, addr, length, n, mem.pt, rs[k]);
      }
    }

    /** sys_wpunmap once it has found the region in slot `cur`. */
    method Unmap(addr: nat, length: int, cur: nat, ghost rs: seq<Region>, ghost m: Memory, ghost k: nat) returns (r: int)
      requires Valid() && rs == List() && m == mem && Checked(addr, length)
      requires k == Covering(rs, addr, U32(addr + length)) < |rs| == |order| <= MAX_NMMAP && cur == order[k] && cur < slots.Length
      requires slots[cur].AsRegion() == rs[k] && slots[cur].addr != UNUSED
      modifies this`order, this`total, this`mem, slots
      ensures ListOk() && Partition(mem, frames) && frames == old(frames) && mem == Clear(m, addr, U32(addr + length))
      ensures r == FAILED <==> IsSplit(rs[k], addr, length) && |rs| == MAX_NMMAP
      ensures SameAddrs(if r == FAILED then rs else Trim(rs, k, addr, length), List())
      ensures WellFormed(List()) && PagesOk(List(), mem.pt) <==> r == FAILED || Proper(rs, k, addr, length)
    {
      hide Linked, Regions, WellFormed, Partition, PagesOk, InSlots, Aligned, Loaded, Covers, Clear, U32, I32;
      hide Covering, Trim, Trimmed, SameAddrs, Proper, IsSplit, Checked;
      CheckedAligned(addr, length);
      var n := ClearPages(addr, U32(addr + length));
      ClearKeeps(m, addr, U32(addr + length), frames);
      r := Shrink(addr, length, cur, n, rs, k);
      if r == FAILED { TrimFailed(rs, m, k, addr, length); } else { TrimDone(rs, m, k, addr, length); }
    }

    /** sys_wpunmap: frees the pages of the range and takes it out of the region that holds it. The
        list and the counts stay in order exactly when the call fails or its request is proper. */
    method Wpunmap(addr: nat, length: int) returns (r: int)
      requires Valid() && addr < TWO32 && -TWO31 <= length < TWO31
      modifies this`order, this`total, this`mem, slots
      ensures ListOk() && Partition(mem, frames) && frames == old(frames)
      ensures var rs, end, k := old(List()), U32(addr + length), Covering(old(List()), addr, U32(addr + length));
              if !Checked(addr, length) || k == |rs| then
                r == FAILED && Valid() && List() == rs && mem == old(mem)
              else
                && mem == Clear(old(mem), addr, end)
                && (r == FAILED <==> IsSplit(rs[k], addr, length) && |rs| == MAX_NMMAP)
                && SameAddrs(if r == FAILED then rs else Trim(rs, k, addr, length), List())
                && (Valid() <==> r == FAILED || Proper(rs, k, addr, length))
      ensures addr + length <= KERNBASE ==>
                (r != FAILED <==> 0 < length && Aligned(addr) && Aligned(addr + length)
                                  && exists j: nat :: Removable(old(List()), j, addr, length))
    {
      hide Linked, Regions, WellFormed, Partition, PagesOk, InSlots, Aligned, Loaded, Covers, Clear, U32, I32;
      hide Covering, Trim, Trimmed, SameAddrs, Proper, IsSplit, Checked;
      ghost var sl, rs := slots[..], List();
      LinkedSize(sl, head, order);
      AtMost(rs);
      if addr + length <= KERNBASE { AcceptsExactly(rs, addr, length); }
      if !Checked(addr, length) { return FAILED; }
      var cur;
      ghost var k;
      cur, k := FindCovering(addr, U32(addr + length), sl, rs);
      if cur == -1 { return FAILED; }
      Visit(sl, head, order, k);
      r := Unmap(addr, length, cur, rs, mem, k);
    }
  }

  lemma {:induction false} FirstCovering(rs: seq<Region>, addr: nat, end: nat, k: nat)
    requires k <= |rs| && forall i | 0 <= i < k :: !(rs[i].addr <= addr && U32(rs[i].End()) >= end)
    requires k < |rs| ==> rs[k].addr <= addr && U32(rs[k].End()) >= end
    ensures Covering(rs, addr, end) == k
  {
    hide U32;
    if k > 0 { FirstCovering(rs[1..], addr, end, k - 1); }
  }

  lemma CheckedAligned(addr: nat, length: int)
    requires Checked(addr, length)
    ensures Aligned(addr)
  {}

  lemma NotUnused(addr: nat, length: int)
    requires Checked(addr, length)
    ensures U32(addr + length) != UNUSED
  {}

  /** A region with its pages counted afresh. */
  function Recounted(r: Region, pt: map<nat, nat>): (res: Region) {
    r.(loaded := Loaded(pt, r.addr, U32(r.End())))
  }

  /** Region `k` cut in two around the range, and both parts recounted. */
  function Cut(rs: seq<Region>, k: nat, addr: nat, length: int, pt: map<nat, nat>): (r: seq<Region>)
    requires k < |rs|
  {
    var r := rs[k];
    var rest := r.(addr := U32(addr + length), length := I32(r.End() - U32(addr + length)));
    rs[..k] + [Recounted(r.(length := I32(addr - r.addr)), pt), Recounted(rest, pt)] + rs[k + 1..]
  }

  lemma CutIs(rs: seq<Region>, k: nat, addr: nat, length: int, pt: map<nat, nat>, left: Region, right: Region)
    requires k < |rs| && left.addr == rs[k].addr && left.flags == right.flags == rs[k].flags && left.fd == right.fd == rs[k].fd
    requires left.length == I32(addr - rs[k].addr) && left.loaded == Loaded(pt, left.addr, U32(left.End()))
    requires right.addr == U32(addr + length) && right.length == I32(rs[k].End() - right.addr)
    requires right.loaded == Loaded(pt, right.addr, U32(right.End()))
    ensures var rs1 := rs[k := left]; rs1[..k + 1] + [right] + rs1[k + 1..] == Cut(rs, k, addr, length, pt)
  {
    hide Loaded, U32, I32;
  }

  lemma SameEnd(s: Slot, r: Region, addr: nat, length: int)
    requires s.addr == r.addr && s.length == r.length
    ensures IsSplit(r, addr, length) <==> addr != s.addr && U32(addr + length) != U32(s.addr + s.length)
  {
    assert r.End() == s.addr + s.length;
  }

  lemma TrimmedIs(rs: seq<Region>, k: nat, addr: nat, length: int, n: nat, pt: map<nat, nat>, r: Region)
    requires k < |rs|
    ensures !IsSplit(rs[k], addr, length)
            && r == rs[k].(addr := if addr == rs[k].addr then U32(addr + length) else rs[k].addr, length := I32(rs[k].length - length), loaded := rs[k].loaded - n)
            ==> rs[k := rs[k].(loaded := rs[k].loaded - n)][k := r] == Trimmed(rs, k, addr, length, n, pt)
    ensures IsSplit(rs[k], addr, length) ==> Cut(rs, k, addr, length, pt) == Trimmed(rs, k, addr, length, n, pt)
  {
    hide U32, I32, Loaded;
  }

  /** Recounting makes the earlier count irrelevant. */
  lemma CutSame(rs: seq<Region>, k: nat, addr: nat, length: int, n: int, pt: map<nat, nat>)
    requires k < |rs|
    ensures Cut(rs[k := rs[k].(loaded := rs[k].loaded - n)], k, addr, length, pt) == Cut(rs, k, addr, length, pt)
  {
    hide Loaded, U32, I32;
  }

  /** What Shrink makes of the list, with the counts. */
  function Trimmed(rs: seq<Region>, k: nat, addr: nat, length: int, n: nat, pt: map<nat, nat>): (r: seq<Region>)
    requires k < |rs|
  {
    if IsSplit(rs[k], addr, length) then Cut(rs, k, addr, length, pt)
    else Trim(rs, k, addr, length)[k := Trim(rs, k, addr, length)[k].(loaded := rs[k].loaded - n)]
  }

  // ----- the counts after sys_wpunmap

  /** A call that fails for want of a slot has freed the pages of its range, and counted them. */
  lemma TrimFailed(rs: seq<Region>, m: Memory, k: nat, addr: nat, length: int)
    requires WellFormed(rs) && PagesOk(rs, m.pt) && Checked(addr, length) && k == Covering(rs, addr, U32(addr + length)) < |rs|
    ensures var end, n := U32(addr + length), Loaded(m.pt, addr, U32(addr + length));
            var rs' := rs[k := rs[k].(loaded := rs[k].loaded - n)];
            SameAddrs(rs, rs') && WellFormed(rs') && PagesOk(rs', Clear(m, addr, end).pt)
  {
    var end, n := U32(addr + length), Loaded(m.pt, addr, U32(addr + length));
    var rs' := rs[k := rs[k].(loaded := rs[k].loaded - n)];
    hide WellFormed, PagesOk, Loaded, Clear, Aligned, Covering, Covers, U32, SameAddrs, Checked;
    Relabelled(rs, k, rs[k].loaded - n);
    FailedPages(rs, m, k, addr, length);
  }

  lemma FailedPages(rs: seq<Region>, m: Memory, k: nat, addr: nat, length: int)
    requires WellFormed(rs) && PagesOk(rs, m.pt) && Checked(addr, length) && k == Covering(rs, addr, U32(addr + length)) < |rs|
    ensures PagesOk(rs[k := rs[k].(loaded := rs[k].loaded - Loaded(m.pt, addr, U32(addr + length)))], Clear(m, addr, U32(addr + length)).pt)
  {
    var rs' := rs[k := rs[k].(loaded := rs[k].loaded - Loaded(m.pt, addr, U32(addr + length)))];
    var pt' := Clear(m, addr, U32(addr + length)).pt;
    ClearLess(m, addr, U32(addr + length));
    forall v | v in pt' ensures Aligned(v) && Covers(rs', v) {
      hide Loaded, Clear, Aligned, Covering, U32, Checked;
      assert v in m.pt;
      Relabelled(rs, k, rs'[k].loaded);
    }
    forall i | 0 <= i < |rs'| ensures rs'[i].loaded == Loaded(pt', rs'[i].addr, rs'[i].End()) {
      hide WellFormed, PagesOk, Loaded, Clear, Aligned, Covering, U32, Checked;
      FailedCount(rs, m, k, addr, length, i);
    }
    hide WellFormed, Loaded, Clear, Aligned, Covering, Covers, U32, Checked;
  }

  lemma FailedCount(rs: seq<Region>, m: Memory, k: nat, addr: nat, length: int, i: nat)
    requires WellFormed(rs) && PagesOk(rs, m.pt) && Checked(addr, length) && k == Covering(rs, addr, U32(addr + length)) < |rs|
    requires i < |rs|
    ensures var n := Loaded(m.pt, addr, U32(addr + length));
            var r := rs[k := rs[k].(loaded := rs[k].loaded - n)][i];
            r.loaded == Loaded(Clear(m, addr, U32(addr + length)).pt, r.addr, r.End())
  {
    hide WellFormed, PagesOk, Loaded, Clear, Aligned, Covering, U32, Checked;
    if i == k { LoadedInside(rs, m, k, addr, length); } else { LoadedElsewhere(rs, m, k, addr, length, i); }
  }

  lemma Relabelled(rs: seq<Region>, k: nat, n: int)
    requires WellFormed(rs) && k < |rs|
    ensures var rs' := rs[k := rs[k].(loaded := n)];
            SameAddrs(rs, rs') && WellFormed(rs') && forall v :: Covers(rs, v) <==> Covers(rs', v)
  {
    var rs' := rs[k := rs[k].(loaded := n)];
    SameShape(rs, rs');
    SameCovers(rs, rs');
  }

  /** Without 32-bit overflow the range lies in region `k`; with it, the page loop does nothing. */
  lemma RangeIn(rs: seq<Region>, k: nat, addr: nat, length: int)
    requires WellFormed(rs) && Checked(addr, length) && k == Covering(rs, addr, U32(addr + length)) < |rs|
    ensures var end := U32(addr + length);
            if addr + length <= KERNBASE then end == addr + length && rs[k].addr <= addr < end <= rs[k].End() && Aligned(end)
            else end <= addr
    ensures Aligned(addr) && Aligned(rs[k].addr)
  {
    if addr + length <= KERNBASE { InRegion(rs, k, addr, length); } else { Wrapped(rs, k, addr, length); }
    GoodAt(rs, k);
    hide WellFormed, Covering;
  }

  lemma Wrapped(rs: seq<Region>, k: nat, addr: nat, length: int)
    requires WellFormed(rs) && Checked(addr, length) && k == Covering(rs, addr, U32(addr + length)) < |rs|
    requires addr + length > KERNBASE
    ensures U32(addr + length) <= addr
  {
    GoodAt(rs, k);
    Accepted(rs, addr, U32(addr + length));
    hide WellFormed, Covering, Aligned;
  }

  lemma LoadedElsewhere(rs: seq<Region>, m: Memory, k: nat, addr: nat, length: int, i: nat)
    requires WellFormed(rs) && PagesOk(rs, m.pt) && Checked(addr, length) && k == Covering(rs, addr, U32(addr + length)) < |rs|
    requires i < |rs| && i != k
    ensures rs[i].loaded == Loaded(Clear(m, addr, U32(addr + length)).pt, rs[i].addr, rs[i].End())
  {
    RangeIn(rs, k, addr, length);
    GoodAt(rs, i);
    GoodAt(rs, k);
    var end := U32(addr + length);
    hide WellFormed, Aligned, Covering, U32;
    if end <= addr {
      assert Clear(m, addr, end) == m;
    } else {
      LoadedClear(m, addr, end, rs[i].addr, rs[i].End());
    }
  }

  /** What is left of region `k`, in three ranges. */
  lemma LoadedInside(rs: seq<Region>, m: Memory, k: nat, addr: nat, length: int)
    requires WellFormed(rs) && PagesOk(rs, m.pt) && Checked(addr, length) && k == Covering(rs, addr, U32(addr + length)) < |rs|
    ensures var end, m' := U32(addr + length), Clear(m, addr, U32(addr + length));
            && rs[k].loaded - Loaded(m.pt, addr, end) == Loaded(m'.pt, rs[k].addr, rs[k].End())
            && (addr + length <= KERNBASE ==>
                  Loaded(m'.pt, rs[k].addr, rs[k].End()) == Loaded(m'.pt, rs[k].addr, addr) + Loaded(m'.pt, end, rs[k].End()))
  {
    RangeIn(rs, k, addr, length);
    var end, m', a, e := U32(addr + length), Clear(m, addr, U32(addr + length)), rs[k].addr, rs[k].End();
    if end <= addr {
      assert m' == m && Loaded(m.pt, addr, end) == 0;
    } else {
      hide WellFormed, Aligned, Covering, U32, Loaded, Clear;
      LoadedSplit(m.pt, a, addr, e);
      LoadedSplit(m.pt, addr, end, e);
      LoadedSplit(m'.pt, a, addr, e);
      LoadedSplit(m'.pt, addr, end, e);
      LoadedCleared(m, addr, end);
      LoadedClear(m, addr, end, a, addr);
      LoadedClear(m, addr, end, end, e);
    }
  }

  lemma TrimDone(rs: seq<Region>, m: Memory, k: nat, addr: nat, length: int)
    requires WellFormed(rs) && PagesOk(rs, m.pt) && Checked(addr, length) && k == Covering(rs, addr, U32(addr + length)) < |rs|
    requires IsSplit(rs[k], addr, length) ==> |rs| < MAX_NMMAP
    ensures var m' := Clear(m, addr, U32(addr + length));
            var rs' := Trimmed(rs, k, addr, length, Loaded(m.pt, addr, U32(addr + length)), m'.pt);
            SameAddrs(Trim(rs, k, addr, length), rs') && (WellFormed(rs') && PagesOk(rs', m'.pt) <==> Proper(rs, k, addr, length))
  {
    var n, m', t := Loaded(m.pt, addr, U32(addr + length)), Clear(m, addr, U32(addr + length)), Trim(rs, k, addr, length);
    var rs' := Trimmed(rs, k, addr, length, n, m'.pt);
    TrimmedSame(rs, k, addr, length, n, m'.pt);
    TrimExactly(rs, k, addr, length);
    hide WellFormed, PagesOk, Loaded, Clear, Aligned, Covering, U32, I32, Trim, Trimmed, IsSplit;
    if Proper(rs, k, addr, length) {
      SameShape(t, rs');
      TrimmedPages(rs, m, k, addr, length);
    } else if WellFormed(rs') {
      SameBack(t, rs');
      SameShape(rs', t);
    }
  }

  lemma SameBack(rs: seq<Region>, rs': seq<Region>)
    requires SameAddrs(rs, rs')
    ensures SameAddrs(rs', rs)
  {}

  lemma TrimmedSame(rs: seq<Region>, k: nat, addr: nat, length: int, n: nat, pt: map<nat, nat>)
    requires k < |rs|
    ensures SameAddrs(Trim(rs, k, addr, length), Trimmed(rs, k, addr, length, n, pt))
  {
    hide Loaded, U32, I32;
  }

  lemma TrimmedPages(rs: seq<Region>, m: Memory, k: nat, addr: nat, length: int)
    requires WellFormed(rs) && PagesOk(rs, m.pt) && Checked(addr, length) && k == Covering(rs, addr, U32(addr + length)) < |rs|
    requires Proper(rs, k, addr, length)
    ensures var m' := Clear(m, addr, U32(addr + length));
            PagesOk(Trimmed(rs, k, addr, length, Loaded(m.pt, addr, U32(addr + length)), m'.pt), m'.pt)
  {
    var n, m', t := Loaded(m.pt, addr, U32(addr + length)), Clear(m, addr, U32(addr + length)), Trim(rs, k, addr, length);
    var rs' := Trimmed(rs, k, addr, length, n, m'.pt);
    TrimmedSame(rs, k, addr, length, n, m'.pt);
    SameCovers(t, rs');
    ClearLess(m, addr, U32(addr + length));
    hide WellFormed, Loaded, Clear, Aligned, Covering, U32, I32, Trim, Trimmed, Covers, SameAddrs, Proper;
    forall v | v in m'.pt ensures Aligned(v) && Covers(rs', v) {
      KeptPage(rs, m, k, addr, length, v);
      TrimMeans(rs, k, addr, length, v);
    }
    forall i | 0 <= i < |rs'| ensures rs'[i].loaded == Loaded(m'.pt, rs'[i].addr, rs'[i].End()) {
      TrimmedCount(rs, m, k, addr, length, i);
    }
  }

  lemma KeptPage(rs: seq<Region>, m: Memory, k: nat, addr: nat, length: int, v: nat)
    requires PagesOk(rs, m.pt) && Checked(addr, length) && addr + length <= KERNBASE
    requires v in m.pt && v in Clear(m, addr, U32(addr + length)).pt
    ensures Aligned(v) && Covers(rs, v) && !(addr <= v < addr + length)
  {
    hide Covers, Clear, Aligned;
    ClearMeans(m, addr, U32(addr + length), v);
    assert U32(addr + length) == addr + length;
  }

  lemma TrimmedCount(rs: seq<Region>, m: Memory, k: nat, addr: nat, length: int, i: nat)
    requires WellFormed(rs) && PagesOk(rs, m.pt) && Checked(addr, length) && k == Covering(rs, addr, U32(addr + length)) < |rs|
    requires Proper(rs, k, addr, length)
    requires var m' := Clear(m, addr, U32(addr + length));
             i < |Trimmed(rs, k, addr, length, Loaded(m.pt, addr, U32(addr + length)), m'.pt)|
    ensures var m' := Clear(m, addr, U32(addr + length));
            var r := Trimmed(rs, k, addr, length, Loaded(m.pt, addr, U32(addr + length)), m'.pt)[i];
            r.loaded == Loaded(m'.pt, r.addr, r.End())
  {
    hide WellFormed, PagesOk, Loaded, Clear, Aligned, Covering, U32, I32, Trimmed;
    RangeIn(rs, k, addr, length);
    GoodAt(rs, k);
    var n, pt' := Loaded(m.pt, addr, U32(addr + length)), Clear(m, addr, U32(addr + length)).pt;
    TrimmedOthers(rs, k, addr, length, n, pt', i);
    var parts := if IsSplit(rs[k], addr, length) then 2 else 1;
    if i < k {
      LoadedElsewhere(rs, m, k, addr, length, i);
    } else if i >= k + parts {
      LoadedElsewhere(rs, m, k, addr, length, i - parts + 1);
    } else {
      LoadedInside(rs, m, k, addr, length);
      TrimmedPart(rs, k, addr, length, n, pt', i);
    }
  }

  lemma TrimmedOthers(rs: seq<Region>, k: nat, addr: nat, length: int, n: nat, pt: map<nat, nat>, i: nat)
    requires k < |rs| && i < |Trimmed(rs, k, addr, length, n, pt)|
    ensures var r, parts := Trimmed(rs, k, addr, length, n, pt)[i], if IsSplit(rs[k], addr, length) then 2 else 1;
            && |Trimmed(rs, k, addr, length, n, pt)| == |rs| + parts - 1
            && (i < k ==> r == rs[i]) && (i >= k + parts ==> r == rs[i - parts + 1])
  {
    hide Loaded, U32, I32;
    if IsSplit(rs[k], addr, length) {
      assert Trimmed(rs, k, addr, length, n, pt)[i] == Cut(rs, k, addr, length, pt)[i];
    }
  }

  lemma TrimmedPart(rs: seq<Region>, k: nat, addr: nat, length: int, n: nat, pt: map<nat, nat>, i: nat)
    requires k < |rs| && Good(rs[k]) && rs[k].addr <= addr && 0 < length && addr + length <= rs[k].End()
    requires k <= i < k + if IsSplit(rs[k], addr, length) then 2 else 1
    requires i < |Trimmed(rs, k, addr, length, n, pt)| && !(addr == rs[k].addr && length == rs[k].length)
    requires rs[k].loaded - n == Loaded(pt, rs[k].addr, rs[k].End()) == Loaded(pt, rs[k].addr, addr) + Loaded(pt, addr + length, rs[k].End())
    ensures var r := Trimmed(rs, k, addr, length, n, pt)[i]; r.loaded == Loaded(pt, r.addr, r.End())
  {
    TrimmedParts(rs, k, addr, length, n, pt, i);
    NoneIn(pt, rs[k].addr);
    NoneIn(pt, rs[k].End());
    hide Trimmed, Loaded, IsSplit, U32;
  }

  /** The regions after a proper request, one by one. */
  lemma TrimmedParts(rs: seq<Region>, k: nat, addr: nat, length: int, n: nat, pt: map<nat, nat>, i: nat)
    requires k < |rs| && Good(rs[k]) && rs[k].addr <= addr && 0 < length && addr + length <= rs[k].End()
    requires i < |Trimmed(rs, k, addr, length, n, pt)|
    ensures var r, end, parts := Trimmed(rs, k, addr, length, n, pt)[i], addr + length, if IsSplit(rs[k], addr, length) then 2 else 1;
            && U32(addr + length) == end
            && (i == k && parts == 2 ==> r.addr == rs[k].addr && r.End() == addr && r.loaded == Loaded(pt, rs[k].addr, addr))
            && (i == k + 1 && parts == 2 ==> r.addr == end && r.End() == rs[k].End() && r.loaded == Loaded(pt, end, rs[k].End()))
            && (i == k && parts == 1 && addr == rs[k].addr ==> r.addr == end && r.End() == rs[k].End() && r.loaded == rs[k].loaded - n)
            && (i == k && parts == 1 && addr != rs[k].addr ==>
                  end == rs[k].End() && r.addr == rs[k].addr && r.End() == addr && r.loaded == rs[k].loaded - n)
  {
    U32Small(addr + length);
    U32Small(rs[k].End());
    U32Small(addr);
    I32Small(rs[k].length - length);
    I32Small(addr - rs[k].addr);
    I32Small(rs[k].End() - (addr + length));
    hide Loaded, Aligned, U32, I32;
    if IsSplit(rs[k], addr, length) {
      assert Trimmed(rs, k, addr, length, n, pt)[i] == Cut(rs, k, addr, length, pt)[i];
    }
  }

  lemma NoneIn(pt: map<nat, nat>, a: nat)
    ensures Loaded(pt, a, a) == 0
  {}

  /** PGROUNDDOWN */
  function PageOf(x: nat): (r: nat)
    ensures Aligned(r) && r <= x < r + PGSIZE && r == x / PGSIZE * PGSIZE
  {
    x / PGSIZE * PGSIZE
  }

  /** One more loaded page for the region that holds `va`. */
  function LoadedAt(r: Region, va: nat): (res: Region) {
    if r.addr <= va < r.End() then r.(loaded := r.loaded + 1) else r
  }

  /** The page lies in a region with a file, beyond the end of the file. */
  ghost predicate PastFile(rs: seq<Region>, va: nat, size: nat) {
    exists i :: 0 <= i < |rs| && rs[i].addr <= va < rs[i].End() && !rs[i].flags.anonymous && va - rs[i].addr > size
  }

  /** A page lies in one region only, so its first region decides. */
  lemma PastFileAt(rs: seq<Region>, k: nat, va: nat, size: nat)
    requires WellFormed(rs) && k < |rs| && rs[k].addr <= va < rs[k].End() && Aligned(va)
    ensures PastFile(rs, va, size) <==> !rs[k].flags.anonymous && va - rs[k].addr > size
  {
    hide WellFormed, Aligned;
    if PastFile(rs, va, size) {
      var i :| 0 <= i < |rs| && rs[i].addr <= va < rs[i].End() && !rs[i].flags.anonymous && va - rs[i].addr > size;
      PagesDisjoint(rs, i, k, va);
    }
  }

  /** A frame that is in place without being counted: the counts are wrong by one. */
  lemma NotCounted(rs: seq<Region>, m: Memory, k: nat, va: nat)
    requires WellFormed(rs) && PagesOk(rs, m.pt) && k < |rs|
    requires rs[k].addr <= va < rs[k].End() && Aligned(va) && va !in m.pt && m.free != []
    ensures rs[k].loaded + 1 == Loaded(Fill(m, va).pt, rs[k].addr, rs[k].End())
    ensures !PagesOk(rs, Fill(m, va).pt)
  {
    GoodAt(rs, k);
    LoadedFill(m, va, rs[k].addr, rs[k].End());
    hide Loaded, WellFormed, Covers, Aligned, Fill;
  }

  lemma FilledOk(rs: seq<Region>, m: Memory, k: nat, va: nat, frames: set<nat>)
    requires WellFormed(rs) && PagesOk(rs, m.pt) && Partition(m, frames) && k < |rs|
    requires rs[k].addr <= va < rs[k].End() && Aligned(va) && va !in m.pt && m.free != []
    ensures var rs' := rs[k := rs[k].(loaded := rs[k].loaded + 1)];
            && WellFormed(rs') && PagesOk(rs', Fill(m, va).pt) && Partition(Fill(m, va), frames)
            && forall i | 0 <= i < |rs| :: rs'[i] == LoadedAt(rs[i], va)
  {
    var rs' := rs[k := rs[k].(loaded := rs[k].loaded + 1)];
    FillKeeps(m, va, frames);
    SameShape(rs, rs');
    hide Loaded, Partition, LoadedAt, WellFormed, Covers, Aligned, Fill;
    forall i | 0 <= i < |rs| ensures rs'[i] == LoadedAt(rs[i], va) && rs'[i].loaded == Loaded(Fill(m, va).pt, rs'[i].addr, rs'[i].End()) {
      FilledAt(rs, m, k, va, i);
    }
    forall v | v in Fill(m, va).pt ensures Aligned(v) && Covers(rs', v) { FilledCovers(rs, rs', m, k, va, v); }
  }

  lemma FilledCovers(rs: seq<Region>, rs': seq<Region>, m: Memory, k: nat, va: nat, v: nat)
    requires PagesOk(rs, m.pt) && k < |rs| && SameAddrs(rs, rs')
    requires rs[k].addr <= va < rs[k].End() && Aligned(va) && m.free != [] && v in Fill(m, va).pt
    ensures Aligned(v) && Covers(rs', v)
  {
    hide Covers, Aligned;
    CoversAt(rs, k, va);
    SameCovers(rs, rs');
    assert v == va || v in m.pt;
  }

  lemma CoversAt(rs: seq<Region>, k: nat, va: int)
    requires k < |rs| && rs[k].addr <= va < rs[k].End()
    ensures Covers(rs, va)
  {}

  lemma FilledAt(rs: seq<Region>, m: Memory, k: nat, va: nat, i: nat)
    requires WellFormed(rs) && PagesOk(rs, m.pt) && k < |rs| && i < |rs|
    requires rs[k].addr <= va < rs[k].End() && Aligned(va) && va !in m.pt && m.free != []
    ensures var r := rs[k := rs[k].(loaded := rs[k].loaded + 1)][i];
            r == LoadedAt(rs[i], va) && r.loaded == Loaded(Fill(m, va).pt, r.addr, r.End())
  {
    GoodAt(rs, i);
    GoodAt(rs, k);
    LoadedFill(m, va, rs[i].addr, rs[i].End());
    if i != k && rs[i].addr <= va < rs[i].End() { PagesDisjoint(rs, i, k, va); }
  }

  /** Only the counts differ. */
  ghost predicate SameAddrs(rs: seq<Region>, rs': seq<Region>) {
    |rs| == |rs'| && forall i | 0 <= i < |rs| :: rs'[i] == rs[i].(loaded := rs'[i].loaded)
  }

  lemma SameShape(rs: seq<Region>, rs': seq<Region>)
    requires SameAddrs(rs, rs') && WellFormed(rs)
    ensures WellFormed(rs')
  {
    forall i, j | 0 <= i < j < |rs'| ensures rs'[i].End() <= rs'[j].addr { InOrder(rs, i, j); }
    forall i | 0 <= i < |rs'| ensures Good(rs'[i]) { assert Good(rs[i]); }
  }

  lemma SameCovers(rs: seq<Region>, rs': seq<Region>)
    requires SameAddrs(rs, rs')
    ensures forall v :: Covers(rs, v) <==> Covers(rs', v)
  {
    forall v ensures Covers(rs, v) <==> Covers(rs', v) {
      if i :| 0 <= i < |rs| && rs[i].addr <= v < rs[i].End() { assert rs'[i].addr <= v < rs'[i].End(); }
      if i :| 0 <= i < |rs'| && rs'[i].addr <= v < rs'[i].End() { assert rs[i].addr <= v < rs[i].End(); }
    }
  }

  lemma ClearOne(m: Memory, va: nat, hi: nat)
    requires Aligned(va) && va < hi
    ensures Aligned(va + PGSIZE)
    ensures var m1 := if va in m.pt then Drop(m, va) else m;
            && Clear(m, va, hi) == Clear(m1, va + PGSIZE, hi)
            && Loaded(m.pt, va, hi) == (if va in m.pt then 1 else 0) + Loaded(m1.pt, va + PGSIZE, hi)
  {
    var m1 := if va in m.pt then Drop(m, va) else m;
    NextPage(va, va);
    hide Aligned;
    LoadedSame(m1.pt, m.pt, va + PGSIZE, hi);
  }

  lemma UnalignedMissing(rs: seq<Region>, addr: nat)
    requires WellFormed(rs) && !Aligned(addr)
    ensures forall i | 0 <= i < |rs| :: rs[i].addr != addr
  {
    forall i | 0 <= i < |rs| ensures rs[i].addr != addr { assert Good(rs[i]); }
  }

  lemma DistinctSlots(sl: seq<Slot>, head: int, order: seq<nat>)
    requires Linked(sl, head, order)
    ensures InSlots(sl, order) && Distinct(order)
  {}

  /** The writes of the unlinking amount to TakeOut. */
  lemma Unlinked(sl: seq<Slot>, sl': seq<Slot>, o: seq<nat>, k: nat, blank: Slot)
    requires InSlots(sl, o) && Distinct(o) && k < |o| && o[k] < |sl|
    requires if k == 0 then sl' == sl[o[k] := blank]
             else o[k - 1] < |sl| && sl' == sl[o[k - 1] := sl[o[k - 1]].(next := sl[o[k]].next)][o[k] := blank]
    ensures sl' == TakeOut(sl, o, k, blank) && |RemoveOrder(o, k)| == |o| - 1
  {}

  /** Without region `k` and its pages everything else is as before. */
  lemma RemovedOk(rs: seq<Region>, m: Memory, k: nat, frames: set<nat>)
    requires WellFormed(rs) && PagesOk(rs, m.pt) && Partition(m, frames) && k < |rs|
    ensures var m' := Clear(m, rs[k].addr, rs[k].End());
            WellFormed(Remove(rs, k)) && PagesOk(Remove(rs, k), m'.pt) && Partition(m', frames)
  {
    var r := rs[k];
    var rs', m' := Remove(rs, k), Clear(m, r.addr, r.End());
    RemoveKeeps(rs, k);
    ClearKeeps(m, r.addr, r.End(), frames);
    ClearLess(m, r.addr, r.End());
    GoodAt(rs, k);
    hide Partition, Clear, Aligned, Loaded;
    forall i | 0 <= i < |rs'| ensures rs'[i].loaded == Loaded(m'.pt, rs'[i].addr, rs'[i].End()) {
      var j := if i < k then i else i + 1;
      assert rs'[i] == rs[j];
      GoodAt(rs, j);
      LoadedClear(m, r.addr, r.End(), rs[j].addr, rs[j].End());
    }
    forall v | v in m'.pt ensures Aligned(v) && Covers(rs', v) { StillCovered(rs, m, k, v); }
  }

  lemma StillCovered(rs: seq<Region>, m: Memory, k: nat, v: nat)
    requires WellFormed(rs) && PagesOk(rs, m.pt) && k < |rs| && v in m.pt && v in Clear(m, rs[k].addr, rs[k].End()).pt
    ensures Aligned(v) && Covers(Remove(rs, k), v)
  {
    hide Loaded, Clear, WellFormed, Good;
    assert Covers(rs, v) && Aligned(v);
    var i :| 0 <= i < |rs| && rs[i].addr <= v < rs[i].End();
    GoodAt(rs, k);
    hide Aligned, PagesOk;
    ClearMeans(m, rs[k].addr, rs[k].End(), v);
    assert Remove(rs, k)[if i < k then i else i - 1] == rs[i];
  }

  lemma AtMost(rs: seq<Region>)
    requires WellFormed(rs)
    ensures |rs| <= MAX_NMMAP
  {}

  lemma NoWrap(addr: nat, length: int)
    requires addr < KERNBASE && length < TWO31 && U32(addr + length) <= KERNBASE && length > 0
    ensures addr + length <= KERNBASE
  {}

  lemma FirstFitIs(rs: seq<Region>, start: nat, length: int)
    requires IsFirstFit(rs, start, length)
    ensures Aligned(start) && MMAPBASE <= start && start + length <= KERNBASE && FreeAt(rs, start, length)
    ensures Candidate(rs, start, length)
  {}

  /** The list after slot `m` has been linked in and filled. */
  lemma Placed(sl: seq<Slot>, sl1: seq<Slot>, head1: int, o: seq<nat>, o1: seq<nat>, rs: seq<Region>, k: nat, m: nat,
               addr: nat, length: int, flags: Flags, fd: int)
    requires k == Before(rs, addr) <= |o| && m < |sl| && m !in o && InSlots(sl, o) && rs == Regions(sl, o) && addr != UNUSED
    requires sl1 == LinkIn(sl, o, k, m, sl[m].(addr := addr)) && o1 == InsertOrder(o, k, m) && Linked(sl1, head1, o1)
    ensures |sl1| == |sl| && |o1| == |o| + 1
    ensures var sl2 := sl1[m := sl1[m].(length := length, flags := flags, fd := fd, loaded := 0)];
            Linked(sl2, head1, o1) && Regions(sl2, o1) == Insert(rs, Region(addr, length, flags, fd, 0))
  {
    hide Linked, Regions, LinkIn, InsertOrder, InSlots, Before;
    NewSlot(sl, o, k, m, sl[m].(addr := addr));
    LinkRegions(sl, o, k, m, sl[m].(addr := addr));
    Filled(sl1, head1, o1, rs, k, sl1[m].(length := length, flags := flags, fd := fd, loaded := 0), sl[m].(addr := addr).AsRegion());
  }

  lemma NewSlot(sl: seq<Slot>, o: seq<nat>, k: nat, m: nat, s: Slot)
    requires k <= |o| && m < |sl| && m !in o && InSlots(sl, o)
    ensures |InsertOrder(o, k, m)| == |o| + 1 && InsertOrder(o, k, m)[k] == m
    ensures |LinkIn(sl, o, k, m, s)| == |sl| && LinkIn(sl, o, k, m, s)[m].addr == s.addr
  {
    LinkInAt(sl, o, k, m, s, m);
    InsertOrderItems(o, k, m);
    hide LinkIn, InsertOrder;
  }

  lemma Filled(sl1: seq<Slot>, head1: int, o1: seq<nat>, rs: seq<Region>, k: nat, s: Slot, was: Region)
    requires Linked(sl1, head1, o1) && k < |o1| && k <= |rs| && o1[k] < |sl1| && s.next == sl1[o1[k]].next && s.addr != UNUSED
    requires Regions(sl1, o1) == rs[..k] + [was] + rs[k..]
    ensures Linked(sl1[o1[k] := s], head1, o1) && Regions(sl1[o1[k] := s], o1) == rs[..k] + [s.AsRegion()] + rs[k..]
  {
    RewriteKeeps(sl1, head1, o1, k, s);
    hide Linked, Regions;
  }

  /** A region placed where nothing is has no pages yet. */
  lemma PlacedOk(rs: seq<Region>, pt: map<nat, nat>, r: Region)
    requires WellFormed(rs) && |rs| < MAX_NMMAP && Good(r) && FreeAt(rs, r.addr, r.length) && r.loaded == 0 && PagesOk(rs, pt)
    ensures WellFormed(Insert(rs, r)) && PagesOk(Insert(rs, r), pt)
  {
    InsertKeeps(rs, r);
    NoPages(rs, pt, r);
    var k, rs' := Before(rs, r.addr), Insert(rs, r);
    hide WellFormed, Good, FreeAt, Aligned, Before, Loaded, Covers, Insert;
    forall i | 0 <= i < |rs'| ensures rs'[i].loaded == Loaded(pt, rs'[i].addr, rs'[i].End()) { InsertAt(rs, r, i); }
    forall v | v in pt ensures Covers(rs', v) { InsertCovers(rs, r, v); }
  }

  lemma InsertAt(rs: seq<Region>, r: Region, i: nat)
    requires i < |Insert(rs, r)|
    ensures var k := Before(rs, r.addr);
            |Insert(rs, r)| == |rs| + 1 && Insert(rs, r)[i] == if i < k then rs[i] else if i == k then r else rs[i - 1]
  {}

  lemma InsertCovers(rs: seq<Region>, r: Region, v: int)
    requires Covers(rs, v)
    ensures Covers(Insert(rs, r), v)
  {
    var i :| 0 <= i < |rs| && rs[i].addr <= v < rs[i].End();
    var j := if i < Before(rs, r.addr) then i else i + 1;
    InsertAt(rs, r, j);
  }

  lemma NoPages(rs: seq<Region>, pt: map<nat, nat>, r: Region)
    requires Good(r) && FreeAt(rs, r.addr, r.length) && PagesOk(rs, pt)
    ensures Loaded(pt, r.addr, r.End()) == 0
  {
    forall v: nat | r.addr <= v < r.End() && Aligned(v) ensures v !in pt {
      if v in pt { assert Covers(rs, v); Meets(rs, r, v); }
    }
    LoadedNone(pt, r.addr, r.End());
  }

  lemma Meets(rs: seq<Region>, r: Region, v: nat)
    requires Covers(rs, v) && r.addr <= v < r.End()
    ensures !FreeAt(rs, r.addr, r.length)
  {
    var i :| 0 <= i < |rs| && rs[i].addr <= v < rs[i].End();
    assert Overlaps(rs[i], r.addr, r.length);
  }

  lemma FreeSoFar(rs: seq<Region>, addr: nat, length: int, k: nat)
    requires k <= |rs|
    ensures FreeAt(rs[..0], addr, length)
    ensures k < |rs| && FreeAt(rs[..k], addr, length) && !(addr < rs[k].End() && addr + length > rs[k].addr) ==> FreeAt(rs[..k + 1], addr, length)
    ensures k < |rs| && addr < rs[k].End() && addr + length > rs[k].addr ==> !FreeAt(rs, addr, length)
  {
    if k < |rs| && addr < rs[k].End() && addr + length > rs[k].addr { assert Overlaps(rs[k], addr, length); }
  }

  lemma NotThere(rs: seq<Region>, addr: nat, length: int)
    requires WellFormed(rs) && length > 0 && FreeAt(rs, addr, length)
    ensures forall i | 0 <= i < |rs| :: rs[i].addr != addr
  {
    forall i | 0 <= i < |rs| ensures rs[i].addr != addr { assert !Overlaps(rs[i], addr, length) && Good(rs[i]); }
  }

  lemma ScanStart(rs: seq<Region>, length: int)
    ensures Scanned(rs, 0, MMAPBASE, length)
  {}

  lemma ScannedAligned(rs: seq<Region>, k: nat, start: int, length: int)
    requires k <= |rs| && Scanned(rs, k, start, length)
    ensures Aligned(start)
  {}

  lemma AlignedRound(x: nat)
    ensures Aligned(x) ==> RoundUp(x) == x
  {}

  ghost predicate Rising(rs: seq<Region>) {
    forall i, j | 0 <= i < j < |rs| :: rs[i].addr < rs[j].addr
  }

  /** What a traversal finds at position `k` when another slot has been written. */
  lemma Look(sl: seq<Slot>, rs: seq<Region>, head: int, order: seq<nat>, m: nat, k: nat)
    requires Linked(sl, head, order) && rs == Regions(sl, order) && k < |order| && m !in order
    ensures |rs| == |order| && order[k] < |sl| && order[k] != m
    ensures sl[order[k]].next == At(order, k + 1) && sl[order[k]].addr == rs[k].addr && head == At(order, 0)
    ensures k + 1 < |order| ==> order[k + 1] < |sl| && order[k + 1] != m && sl[order[k + 1]].addr == rs[k + 1].addr
  {
    assert order[k] in order && (k + 1 < |order| ==> order[k + 1] in order);
  }

  lemma LinkedSize(sl: seq<Slot>, head: int, order: seq<nat>)
    requires Linked(sl, head, order)
    ensures |sl| == MAX_NMMAP && InSlots(sl, order) && |Regions(sl, order)| == |order| && head == At(order, 0)
  {}

  lemma {:induction false} BeforeIs(rs: seq<Region>, addr: int, k: nat)
    requires k <= |rs| && (k > 0 ==> rs[k - 1].addr < addr) && (k < |rs| ==> rs[k].addr >= addr)
    requires Rising(rs)
    ensures Before(rs, addr) == k
  {
    var n := |rs| - 1;
    if k < |rs| {
      assert rs[n].addr >= rs[k].addr;
      BeforeIs(rs[..n], addr, k);
    }
  }

  /** What a traversal finds at position `k`. */
  lemma Visit(sl: seq<Slot>, head: int, order: seq<nat>, k: nat)
    requires Linked(sl, head, order) && k < |order|
    ensures order[k] < |sl| && sl[order[k]].next == At(order, k + 1) && sl[order[k]].AsRegion() == Regions(sl, order)[k]
    ensures sl[order[k]].addr != UNUSED
  {
    assert order[k] in order;
  }
}
