/** wmap.c: the present pages of the mapped regions and the frames behind them. */
module WmapPages {
  import opened WmapRegions

  /** Page table entries that are present, by page address, and the allocator's list of free frames. */
  datatype Memory = Memory(pt: map<nat, nat>, free: seq<nat>)

  /** Every frame is either free, once, or behind exactly one page. */
  ghost predicate Partition(m: Memory, frames: set<nat>) {
    && (forall i, j | 0 <= i < j < |m.free| :: m.free[i] != m.free[j])
    && (forall v, w | v in m.pt && w in m.pt && v != w :: m.pt[v] != m.pt[w])
    && (forall v | v in m.pt :: m.pt[v] !in m.free)
    && (forall f | f in m.free :: f in frames)
    && (forall v | v in m.pt :: m.pt[v] in frames)
    && (forall f | f in frames :: f in m.free || exists v :: v in m.pt && m.pt[v] == f)
  }

  /** kfree of the frame behind a present page, and clearing its entry. */
  function Drop(m: Memory, va: nat): (r: Memory)
    requires va in m.pt
  {
    Memory(m.pt - {va}, [m.pt[va]] + m.free)
  }

  /** kalloc and mappages of an absent page. */
  function Fill(m: Memory, va: nat): (r: Memory)
    requires m.free != []
  {
    Memory(m.pt[va := m.free[0]], m.free[1..])
  }

  lemma DropKeeps(m: Memory, va: nat, frames: set<nat>)
    requires Partition(m, frames) && va in m.pt
    ensures Partition(Drop(m, va), frames)
  {
    var m' := Drop(m, va);
    forall f | f in frames ensures f in m'.free || exists v :: v in m'.pt && m'.pt[v] == f {
      if f in m.free {
        assert f in m'.free;
      } else {
        var v :| v in m.pt && m.pt[v] == f;
        if v == va { assert m'.free[0] == f; } else { assert v in m'.pt; }
      }
    }
  }

  lemma FillKeeps(m: Memory, va: nat, frames: set<nat>)
    requires Partition(m, frames) && va !in m.pt && m.free != []
    ensures Partition(Fill(m, va), frames)
  {
    var m' := Fill(m, va);
    assert m.free == [m.free[0]] + m'.free;
    forall f | f in frames ensures f in m'.free || exists v :: v in m'.pt && m'.pt[v] == f {
      if f == m.free[0] {
        assert va in m'.pt && m'.pt[va] == f;
      } else if f !in m.free {
        var v :| v in m.pt && m.pt[v] == f;
        assert v in m'.pt && m'.pt[v] == f;
      }
    }
  }

  /** Filling a page and dropping it again. */
  lemma FillDrop(m: Memory, va: nat)
    requires va !in m.pt && m.free != []
    ensures va in Fill(m, va).pt && Drop(Fill(m, va), va) == m
  {
    assert m.free == [m.free[0]] + m.free[1..];
    assert m.pt[va := m.free[0]] - {va} == m.pt;
  }

  /** The page loop of remove_map and sys_wpunmap over the addresses from `lo` below `hi`. */
  function Clear(m: Memory, lo: nat, hi: int): (r: Memory)
    decreases hi - lo
  {
    if lo >= hi then m else Clear(if lo in m.pt then Drop(m, lo) else m, lo + PGSIZE, hi)
  }

  /** count_loaded_pages */
  function Loaded(pt: map<nat, nat>, lo: nat, hi: int): (r: nat)
    decreases hi - lo
  {
    if lo >= hi then 0 else (if lo in pt then 1 else 0) + Loaded(pt, lo + PGSIZE, hi)
  }

  lemma {:induction false} ClearKeeps(m: Memory, lo: nat, hi: int, frames: set<nat>)
    requires Partition(m, frames)
    ensures Partition(Clear(m, lo, hi), frames)
    decreases hi - lo
  {
    hide Partition;
    if lo < hi {
      if lo in m.pt { DropKeeps(m, lo, frames); }
      ClearKeeps(if lo in m.pt then Drop(m, lo) else m, lo + PGSIZE, hi, frames);
    }
  }

  /** The loop clears the pages in its range and leaves every other page and its frame alone. */
  lemma {:induction false} ClearMeans(m: Memory, lo: nat, hi: int, v: nat)
    requires Aligned(lo) && Aligned(v)
    ensures v in Clear(m, lo, hi).pt <==> v in m.pt && !(lo <= v < hi)
    ensures v in Clear(m, lo, hi).pt ==> Clear(m, lo, hi).pt[v] == m.pt[v]
    decreases hi - lo
  {
    if lo < hi {
      NextPage(lo, v);
      hide Aligned;
      ClearMeans(if lo in m.pt then Drop(m, lo) else m, lo + PGSIZE, hi, v);
    }
  }

  lemma NextPage(lo: int, v: int)
    requires Aligned(lo) && Aligned(v)
    ensures Aligned(lo + PGSIZE) && (lo < v ==> lo + PGSIZE <= v)
  {
    assert (v - lo) % PGSIZE == 0;
  }

  /** Nothing is added, nothing else is moved. */
  lemma {:induction false} ClearLess(m: Memory, lo: nat, hi: int)
    ensures forall v | v in Clear(m, lo, hi).pt :: v in m.pt && Clear(m, lo, hi).pt[v] == m.pt[v]
    decreases hi - lo
  {
    if lo < hi { ClearLess(if lo in m.pt then Drop(m, lo) else m, lo + PGSIZE, hi); }
  }

  /** The number of pages cleared is the number that was loaded. */
  lemma {:induction false} ClearCounts(m: Memory, lo: nat, hi: int)
    requires Aligned(lo)
    ensures |m.free| + Loaded(m.pt, lo, hi) == |Clear(m, lo, hi).free|
    decreases hi - lo
  {
    if lo < hi {
      var m1 := if lo in m.pt then Drop(m, lo) else m;
      NextPage(lo, lo);
      hide Aligned;
      ClearCounts(m1, lo + PGSIZE, hi);
      LoadedSame(m1.pt, m.pt, lo + PGSIZE, hi);
    }
  }

  /** Only the entries of the pages in the range matter. */
  lemma {:induction false} LoadedSame(pt: map<nat, nat>, pt': map<nat, nat>, lo: nat, hi: int)
    requires Aligned(lo) && forall v: nat | lo <= v < hi && Aligned(v) :: v in pt <==> v in pt'
    ensures Loaded(pt, lo, hi) == Loaded(pt', lo, hi)
    decreases hi - lo
  {
    if lo < hi {
      NextPage(lo, lo);
      hide Aligned;
      LoadedSame(pt, pt', lo + PGSIZE, hi);
    }
  }

  /** Clearing one range does not change the count of another. */
  lemma LoadedClear(m: Memory, lo: nat, hi: int, a: nat, e: int)
    requires Aligned(lo) && Aligned(a) && (e <= lo || hi <= a)
    ensures Loaded(Clear(m, lo, hi).pt, a, e) == Loaded(m.pt, a, e)
  {
    hide Aligned, Clear;
    forall v: nat | a <= v < e && Aligned(v) ensures v in Clear(m, lo, hi).pt <==> v in m.pt { ClearMeans(m, lo, hi, v); }
    LoadedSame(Clear(m, lo, hi).pt, m.pt, a, e);
  }

  /** Nothing is left of a range that has been cleared. */
  lemma LoadedCleared(m: Memory, lo: nat, hi: int)
    requires Aligned(lo)
    ensures Loaded(Clear(m, lo, hi).pt, lo, hi) == 0
  {
    hide Aligned, Clear;
    forall v: nat | lo <= v < hi && Aligned(v) ensures v !in Clear(m, lo, hi).pt { ClearMeans(m, lo, hi, v); }
    LoadedNone(Clear(m, lo, hi).pt, lo, hi);
  }

  lemma {:induction false} LoadedSplit(pt: map<nat, nat>, lo: nat, mid: nat, hi: int)
    requires Aligned(lo) && Aligned(mid) && lo <= mid <= hi
    ensures Loaded(pt, lo, hi) == Loaded(pt, lo, mid) + Loaded(pt, mid, hi)
    decreases mid - lo
  {
    if lo < mid {
      NextPage(lo, mid);
      hide Aligned;
      LoadedSplit(pt, lo + PGSIZE, mid, hi);
    }
  }

  lemma {:induction false} LoadedNone(pt: map<nat, nat>, lo: nat, hi: int)
    requires Aligned(lo) && forall v: nat | lo <= v < hi && Aligned(v) :: v !in pt
    ensures Loaded(pt, lo, hi) == 0
    decreases hi - lo
  {
    if lo < hi {
      NextPage(lo, lo);
      hide Aligned;
      LoadedNone(pt, lo + PGSIZE, hi);
    }
  }

  /** One more page. */
  lemma {:induction false} LoadedFill(m: Memory, va: nat, lo: nat, hi: int)
    requires Aligned(lo) && Aligned(va) && va !in m.pt && m.free != []
    ensures Loaded(Fill(m, va).pt, lo, hi) == Loaded(m.pt, lo, hi) + if lo <= va < hi then 1 else 0
    decreases hi - lo
  {
    if lo < hi {
      NextPage(lo, va);
      hide Aligned;
      LoadedFill(m, va, lo + PGSIZE, hi);
    }
  }
}
