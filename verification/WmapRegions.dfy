/** wmap.c: the memory-mapped regions of a process as a sorted list, and what placing, removing,
    trimming and splitting do to it. Addresses and lengths are C's 32-bit values. */
module WmapRegions {
  const PGSIZE: nat := 4096
  const MMAPBASE: nat := 0x6000_0000
  const KERNBASE: nat := 0x8000_0000
  const MAX_NMMAP: nat := 16
  const TWO32: int := 0x1_0000_0000
  const TWO31: int := 0x8000_0000

  /** The value an unsigned 32-bit sum or difference takes. */
  function U32(x: int): (r: nat) { x % TWO32 }

  /** The same bits read as a signed int. */
  function I32(x: int): (r: int) {
    if U32(x) < TWO31 then U32(x) else U32(x) - TWO32
  }

  lemma U32Small(x: int)
    requires 0 <= x < TWO32
    ensures U32(x) == x
  {}

  lemma I32Small(x: int)
    requires -TWO31 <= x < TWO31
    ensures I32(x) == x
  {}

  predicate Aligned(x: int) { x % PGSIZE == 0 }

  datatype Flags = Flags(isPrivate: bool, isShared: bool, anonymous: bool, fixed: bool)

  /** A region; `loaded` is n_loaded_pages. */
  datatype Region = Region(addr: nat, length: int, flags: Flags, fd: int, loaded: int) {
    function End(): (r: int) { addr + length }
  }

  predicate Good(r: Region) {
    Aligned(r.addr) && MMAPBASE <= r.addr && r.length > 0 && r.End() <= KERNBASE
  }

  ghost predicate Sorted(rs: seq<Region>) {
    forall i, j | 0 <= i < j < |rs| :: rs[i].End() <= rs[j].addr
  }

  /** Sorted, disjoint, page-aligned regions of positive length between MMAPBASE and KERNBASE. */
  ghost predicate WellFormed(rs: seq<Region>) {
    |rs| <= MAX_NMMAP && Sorted(rs) && forall i | 0 <= i < |rs| :: Good(rs[i])
  }

  /** No page belongs to two regions, although lengths need not be whole pages. */
  lemma PagesDisjoint(rs: seq<Region>, i: nat, j: nat, page: nat)
    requires WellFormed(rs) && i < |rs| && j < |rs| && Aligned(page)
    requires rs[i].addr <= page < rs[i].End() && rs[j].addr <= page < rs[j].End()
    ensures i == j
  {
    if i < j { InOrder(rs, i, j); }
    if j < i { InOrder(rs, j, i); }
  }

  lemma InOrder(rs: seq<Region>, i: nat, j: nat)
    requires Sorted(rs) && i < j < |rs|
    ensures rs[i].End() <= rs[j].addr
  {}

  // ----- placing

  predicate Overlaps(r: Region, start: int, length: int) {
    start < r.End() && start + length > r.addr
  }

  predicate InRange(start: int, end: int, x: int) { start <= x < end }

  /** Two ranges overlap exactly if they have an address in common. */
  lemma OverlapsMeans(r: Region, start: int, length: int)
    requires r.length > 0 && length > 0
    ensures Overlaps(r, start, length) <==> exists x :: InRange(r.addr, r.End(), x) && InRange(start, start + length, x)
  {
    if Overlaps(r, start, length) {
      var x := if start < r.addr then r.addr as int else start;
      assert InRange(r.addr, r.End(), x) && InRange(start, start + length, x);
    }
  }

  ghost predicate FreeAt(rs: seq<Region>, start: int, length: int) {
    forall i | 0 <= i < |rs| :: !Overlaps(rs[i], start, length)
  }

  /** A place where a mapping of this length may start. */
  ghost predicate Candidate(rs: seq<Region>, start: int, length: int) {
    Aligned(start) && MMAPBASE <= start && start + length <= KERNBASE && FreeAt(rs, start, length)
  }

  /** The lowest candidate. */
  ghost predicate IsFirstFit(rs: seq<Region>, start: int, length: int) {
    Candidate(rs, start, length) && forall s | Candidate(rs, s, length) :: start <= s
  }

  /** How many regions lie before `addr`. */
  function Before(rs: seq<Region>, addr: int): (k: nat)
    ensures k <= |rs|
  {
    if rs == [] then 0
    else if rs[|rs| - 1].addr < addr then |rs|
    else Before(rs[..|rs| - 1], addr)
  }

  function Insert(rs: seq<Region>, r: Region): (res: seq<Region>) {
    var k := Before(rs, r.addr);
    rs[..k] + [r] + rs[k..]
  }

  lemma {:induction false} BeforeSplits(rs: seq<Region>, addr: int)
    requires forall i, j | 0 <= i < j < |rs| :: rs[i].addr < rs[j].addr
    ensures forall i | 0 <= i < Before(rs, addr) :: rs[i].addr < addr
    ensures forall i | Before(rs, addr) <= i < |rs| :: rs[i].addr >= addr
  {
    if rs != [] && rs[|rs| - 1].addr >= addr { BeforeSplits(rs[..|rs| - 1], addr); }
  }

  lemma Increasing(rs: seq<Region>)
    requires WellFormed(rs)
    ensures forall i, j | 0 <= i < j < |rs| :: rs[i].addr < rs[j].addr
  {
    forall i, j | 0 <= i < j < |rs| ensures rs[i].addr < rs[j].addr { assert Good(rs[i]); }
  }

  /** Placing a region on a free place keeps the list well formed. */
  lemma InsertKeeps(rs: seq<Region>, r: Region)
    requires WellFormed(rs) && |rs| < MAX_NMMAP && Good(r) && FreeAt(rs, r.addr, r.length)
    ensures WellFormed(Insert(rs, r))
  {
    Increasing(rs);
    BeforeSplits(rs, r.addr);
    var k, rs' := Before(rs, r.addr), Insert(rs, r);
    forall i | 0 <= i < |rs'| ensures Good(rs'[i]) {
      assert rs'[i] == if i < k then rs[i] else if i == k then r else rs[i - 1];
    }
    forall i, j | 0 <= i < j < |rs'| ensures rs'[i].End() <= rs'[j].addr {
      InsertPair(rs, r, k, i, j);
    }
  }

  lemma InsertPair(rs: seq<Region>, r: Region, k: nat, i: nat, j: nat)
    requires WellFormed(rs) && Good(r) && FreeAt(rs, r.addr, r.length) && k <= |rs| && i < j <= |rs|
    requires (forall l | 0 <= l < k :: rs[l].addr < r.addr) && (forall l | k <= l < |rs| :: rs[l].addr >= r.addr)
    ensures var rs' := rs[..k] + [r] + rs[k..]; rs'[i].End() <= rs'[j].addr
  {
    if j == k { assert !Overlaps(rs[i], r.addr, r.length); }
    if i == k { assert !Overlaps(rs[j - 1], r.addr, r.length) && Good(rs[j - 1]); }
  }

  // ----- first fit

  /** `start` after the scan of find_addr_place_mmap over the first `k` regions. */
  ghost predicate Scanned(rs: seq<Region>, k: nat, start: int, length: int)
    requires k <= |rs|
  {
    && Aligned(start) && MMAPBASE <= start
    && (forall i | 0 <= i < k :: rs[i].End() <= start)
    && (forall s | Aligned(s) && MMAPBASE <= s < start :: exists i :: 0 <= i < k && Overlaps(rs[i], s, length))
  }

  function RoundUp(x: nat): (r: nat)
    ensures x <= r < x + PGSIZE && Aligned(r)
  {
    (x + PGSIZE - 1) / PGSIZE * PGSIZE
  }

  lemma PageAfter(x: nat, s: int)
    requires Aligned(s) && x <= s
    ensures RoundUp(x) <= s
  {
    var r := RoundUp(x);
    assert (r - s) % PGSIZE == 0;
  }

  /** One more region that leaves no room before it. */
  lemma ScanStep(rs: seq<Region>, k: nat, start: int, length: int)
    requires WellFormed(rs) && k < |rs| && Scanned(rs, k, start, length) && length > 0 && rs[k].addr < start + length
    ensures var e := if rs[k].End() > start then RoundUp(rs[k].End()) else start;
            Scanned(rs, k + 1, e, length) && e <= (if start <= KERNBASE then KERNBASE else start)
  {
    hide Aligned, RoundUp, WellFormed, Good;
    var e := if rs[k].End() > start then RoundUp(rs[k].End()) else start;
    GoodAt(rs, k);
    KernAligned();
    if rs[k].End() > start { PageAfter(rs[k].End(), KERNBASE); }
    forall s | Aligned(s) && MMAPBASE <= s < e ensures exists i :: 0 <= i < k + 1 && Overlaps(rs[i], s, length) {
      if s >= start {
        if rs[k].End() <= s { PageAfter(rs[k].End(), s); }
        assert Overlaps(rs[k], s, length);
      }
    }
  }

  lemma GoodAt(rs: seq<Region>, k: nat)
    requires WellFormed(rs) && k < |rs|
    ensures Good(rs[k]) && Aligned(rs[k].addr) && MMAPBASE <= rs[k].addr < rs[k].End() <= KERNBASE
    ensures forall j | k < j < |rs| :: rs[k].End() <= rs[j].addr
  {}

  lemma KernAligned()
    ensures Aligned(KERNBASE)
  {}

  lemma Taken(rs: seq<Region>, k: nat, start: int, length: int, s: int)
    requires k <= |rs| && Scanned(rs, k, start, length) && Aligned(s) && MMAPBASE <= s < start
    ensures !FreeAt(rs, s, length)
  {}

  /** When the scan stops, its place is the first fit, or nothing fits. */
  lemma ScanEnd(rs: seq<Region>, k: nat, start: int, length: int)
    requires WellFormed(rs) && k <= |rs| && Scanned(rs, k, start, length) && length > 0
    requires k < |rs| ==> rs[k].addr >= start + length
    ensures if start + length <= KERNBASE then IsFirstFit(rs, start, length) else forall s :: !Candidate(rs, s, length)
  {
    hide Aligned, WellFormed, Good;
    forall i | 0 <= i < |rs| ensures !Overlaps(rs[i], start, length) {
      if i > k { GoodAt(rs, k); }
    }
    if start + length <= KERNBASE { assert Candidate(rs, start, length); }
    forall s | Candidate(rs, s, length) ensures start <= s {
      if s < start { Taken(rs, k, start, length, s); }
    }
  }

  // ----- removing and trimming

  function Remove(rs: seq<Region>, k: nat): (r: seq<Region>)
    requires k < |rs|
  {
    rs[..k] + rs[k + 1..]
  }

  lemma RemoveKeeps(rs: seq<Region>, k: nat)
    requires WellFormed(rs) && k < |rs|
    ensures WellFormed(Remove(rs, k))
  {
    var rs' := Remove(rs, k);
    assert forall i | 0 <= i < |rs'| :: rs'[i] == if i < k then rs[i] else rs[i + 1];
  }

  /** Placing a region and removing it again. */
  lemma InsertRemove(rs: seq<Region>, r: Region)
    ensures var k := Before(rs, r.addr);
            k < |Insert(rs, r)| && Insert(rs, r)[k] == r && Remove(Insert(rs, r), k) == rs
  {
    var k := Before(rs, r.addr);
    assert rs == rs[..k] + rs[k..];
  }

  // ----- sys_wpunmap

  /** The first region that the search of sys_wpunmap accepts, or |rs|. */
  function Covering(rs: seq<Region>, addr: nat, end: nat): (k: nat)
    ensures k <= |rs|
  {
    if rs == [] then 0
    else if rs[0].addr <= addr && U32(rs[0].End()) >= end then 0
    else Covering(rs[1..], addr, end) + 1
  }

  lemma {:induction false} CoveringMeans(rs: seq<Region>, addr: nat, end: nat)
    ensures var k := Covering(rs, addr, end);
            && (k < |rs| ==> rs[k].addr <= addr && U32(rs[k].End()) >= end)
            && (forall i | 0 <= i < k :: !(rs[i].addr <= addr && U32(rs[i].End()) >= end))
  {
    hide U32;
    if rs != [] { CoveringMeans(rs[1..], addr, end); }
  }

  lemma Accepted(rs: seq<Region>, addr: nat, end: nat)
    ensures var k := Covering(rs, addr, end); k < |rs| ==> rs[k].addr <= addr && U32(rs[k].End()) >= end
  {
    CoveringMeans(rs, addr, end);
  }

  predicate IsSplit(r: Region, addr: nat, length: int) {
    addr != r.addr && U32(addr + length) != U32(r.End())
  }

  /** Region `k` after its part from `addr` on has been taken away: shrunk at the front, at the back,
      or split in two. */
  function Trim(rs: seq<Region>, k: nat, addr: nat, length: int): (r: seq<Region>)
    requires k < |rs|
  {
    var r := rs[k];
    if addr == r.addr then rs[k := r.(addr := U32(addr + length), length := I32(r.length - length))]
    else if U32(addr + length) == U32(r.End()) then rs[k := r.(length := I32(r.length - length))]
    else
      var rest := r.(addr := U32(addr + length), length := I32(r.End() - U32(addr + length)));
      rs[..k] + [r.(length := I32(addr - r.addr)), rest] + rs[k + 1..]
  }

  predicate Covers(rs: seq<Region>, x: int) { exists i :: 0 <= i < |rs| && rs[i].addr <= x < rs[i].End() }

  /** The arguments that pass the checks of sys_wpunmap. */
  predicate Checked(addr: nat, length: int) {
    addr < TWO32 && 0 < length < TWO31 && Aligned(addr) && Aligned(U32(addr + length))
  }

  /** The request ends below KERNBASE and takes only a part of the region it falls into. */
  predicate Proper(rs: seq<Region>, k: nat, addr: nat, length: int)
    requires k < |rs|
  {
    addr + length <= KERNBASE && !(addr == rs[k].addr && length == rs[k].length)
  }

  /** The pages from `addr` on lie in region `j`, and taking them away leaves at most one part of it, or
      there is a slot for the second part. */
  predicate Removable(rs: seq<Region>, j: nat, addr: nat, length: int) {
    && j < |rs| && rs[j].addr <= addr && addr + length <= rs[j].End()
    && (addr == rs[j].addr || addr + length == rs[j].End() || |rs| < MAX_NMMAP)
  }

  /** What sys_wpunmap accepts below KERNBASE, in plain terms: whole pages that lie in one region. */
  lemma AcceptsExactly(rs: seq<Region>, addr: nat, length: int)
    requires WellFormed(rs) && -TWO31 <= length < TWO31 && addr + length <= KERNBASE && addr < TWO32
    ensures var k := Covering(rs, addr, U32(addr + length));
            (Checked(addr, length) && k < |rs| && !(IsSplit(rs[k], addr, length) && |rs| == MAX_NMMAP))
            <==> 0 < length && Aligned(addr) && Aligned(addr + length) && exists j: nat :: Removable(rs, j, addr, length)
  {
    if 0 < length {
      var end, k := U32(addr + length), Covering(rs, addr, U32(addr + length));
      U32Small(addr + length);
      CoveringMeans(rs, addr, end);
      hide Aligned, U32, Covering, WellFormed;
      if k < |rs| {
        GoodAt(rs, k);
        U32Small(rs[k].End());
        assert AtMostSlots(rs) by { SlotBound(rs); }
        if !(IsSplit(rs[k], addr, length) && |rs| == MAX_NMMAP) { assert Removable(rs, k, addr, length); }
      }
      if j: nat :| Removable(rs, j, addr, length) {
        GoodAt(rs, j);
        U32Small(rs[j].End());
        assert k == j;
      }
    }
  }

  predicate AtMostSlots(rs: seq<Region>) { |rs| <= MAX_NMMAP }

  lemma SlotBound(rs: seq<Region>)
    requires WellFormed(rs)
    ensures AtMostSlots(rs) && Sorted(rs)
  {}

  lemma InRegion(rs: seq<Region>, k: nat, addr: nat, length: int)
    requires WellFormed(rs) && Checked(addr, length) && k == Covering(rs, addr, U32(addr + length)) < |rs|
    requires addr + length <= KERNBASE
    ensures rs[k].addr <= addr < addr + length <= rs[k].End() && Aligned(addr + length)
  {
    GoodAt(rs, k);
    Accepted(rs, addr, U32(addr + length));
    hide WellFormed, Aligned, U32, Covering, Good;
    U32Small(addr + length);
    U32Small(rs[k].End());
  }

  /** A region replaced by parts of itself. */
  lemma PartsKeep(rs: seq<Region>, k: nat, parts: seq<Region>)
    requires WellFormed(rs) && k < |rs| && |rs| + |parts| <= MAX_NMMAP + 1 && Sorted(parts)
    requires forall i | 0 <= i < |parts| :: Good(parts[i]) && rs[k].addr <= parts[i].addr && parts[i].End() <= rs[k].End()
    ensures WellFormed(rs[..k] + parts + rs[k + 1..])
  {
    var rs' := rs[..k] + parts + rs[k + 1..];
    forall i | 0 <= i < |rs'| ensures Good(rs'[i]) { PartAt(rs, k, parts, i); }
    forall i, j | 0 <= i < j < |rs'| ensures rs'[i].End() <= rs'[j].addr {
      PartAt(rs, k, parts, i);
      PartAt(rs, k, parts, j);
    }
  }

  /** What stands at position `i` after the replacement, and where it lies. */
  lemma PartAt(rs: seq<Region>, k: nat, parts: seq<Region>, i: nat)
    requires k < |rs| && i < |rs| + |parts| - 1
    ensures var rs' := rs[..k] + parts + rs[k + 1..];
            rs'[i] == if i < k then rs[i] else if i < k + |parts| then parts[i - k] else rs[i - |parts| + 1]
  {}

  lemma TrimProper(rs: seq<Region>, k: nat, addr: nat, length: int)
    requires WellFormed(rs) && Checked(addr, length) && k == Covering(rs, addr, U32(addr + length)) < |rs|
    requires Proper(rs, k, addr, length) && (IsSplit(rs[k], addr, length) ==> |rs| < MAX_NMMAP)
    ensures WellFormed(Trim(rs, k, addr, length))
  {
    InRegion(rs, k, addr, length);
    GoodAt(rs, k);
    var parts := Parts(rs[k], addr, length);
    hide WellFormed, Aligned, U32, I32, Trim, Good;
    PartsGood(rs[k], addr, length);
    TrimParts(rs, k, addr, length);
    PartsKeep(rs, k, parts);
  }

  /** What is left of a region, without 32-bit arithmetic. */
  function Parts(r: Region, addr: nat, length: int): (res: seq<Region>)
    requires addr + length >= 0
  {
    var end := addr + length;
    if addr == r.addr then [r.(addr := end, length := r.length - length)]
    else if end == r.End() then [r.(length := r.length - length)]
    else [r.(length := addr - r.addr), r.(addr := end, length := r.End() - end)]
  }

  lemma PartsGood(r: Region, addr: nat, length: int)
    requires Good(r) && Aligned(addr) && Aligned(addr + length) && length > 0
    requires r.addr <= addr && addr + length <= r.End() && !(addr == r.addr && length == r.length)
    ensures var parts := Parts(r, addr, length);
            Sorted(parts) && |parts| <= 2
            && forall i | 0 <= i < |parts| :: Good(parts[i]) && r.addr <= parts[i].addr && parts[i].End() <= r.End()
  {
    hide Aligned;
  }

  lemma TrimParts(rs: seq<Region>, k: nat, addr: nat, length: int)
    requires k < |rs| && Good(rs[k]) && rs[k].addr <= addr && 0 < length && addr + length <= rs[k].End()
    ensures Trim(rs, k, addr, length) == rs[..k] + Parts(rs[k], addr, length) + rs[k + 1..]
    ensures |Parts(rs[k], addr, length)| == if IsSplit(rs[k], addr, length) then 2 else 1
  {
    U32Small(addr + length);
    U32Small(rs[k].End());
    I32Small(rs[k].length - length);
    I32Small(addr - rs[k].addr);
    I32Small(rs[k].End() - (addr + length));
    hide Aligned, U32, I32;
  }

  lemma TrimImproper(rs: seq<Region>, k: nat, addr: nat, length: int)
    requires WellFormed(rs) && Checked(addr, length) && k == Covering(rs, addr, U32(addr + length)) < |rs|
    requires !Proper(rs, k, addr, length)
    ensures k < |Trim(rs, k, addr, length)| && !Good(Trim(rs, k, addr, length)[k])
  {
    GoodAt(rs, k);
    Accepted(rs, addr, U32(addr + length));
    hide WellFormed, Aligned, Covering;
    if addr + length > KERNBASE {
      TrimWrapped(rs, k, addr, length);
    } else {
      I32Small(0);
      hide I32, Good;
    }
  }

  /** A sum beyond KERNBASE that is accepted has wrapped round. */
  lemma TrimWrapped(rs: seq<Region>, k: nat, addr: nat, length: int)
    requires k < |rs| && Good(rs[k]) && addr < TWO32 && 0 < length < TWO31 && addr + length > KERNBASE
    requires U32(rs[k].End()) >= U32(addr + length)
    ensures k < |Trim(rs, k, addr, length)| && !Good(Trim(rs, k, addr, length)[k])
  {
    U32Small(rs[k].End());
    if addr + length < TWO32 {
      U32Small(addr + length);
      assert false;
    }
    WrapsTo(addr, length);
    I32Small(rs[k].length - length);
    hide Aligned;
  }

  lemma WrapsTo(addr: nat, length: int)
    requires addr < TWO32 <= addr + length && length < TWO31
    ensures U32(addr + length) == addr + length - TWO32 && addr > KERNBASE
  {}

  /** sys_wpunmap leaves a well-formed list exactly when the request stays below KERNBASE and does not
      cover a whole region: a whole region stays behind with length 0, and a sum that wraps round
      extends a region beyond KERNBASE or makes its length negative. */
  lemma TrimExactly(rs: seq<Region>, k: nat, addr: nat, length: int)
    requires WellFormed(rs) && Checked(addr, length) && k == Covering(rs, addr, U32(addr + length)) < |rs|
    requires IsSplit(rs[k], addr, length) ==> |rs| < MAX_NMMAP
    ensures WellFormed(Trim(rs, k, addr, length)) <==> Proper(rs, k, addr, length)
  {
    if Proper(rs, k, addr, length) { TrimProper(rs, k, addr, length); } else { TrimImproper(rs, k, addr, length); }
  }

  /** A proper request takes away exactly the addresses it names. */
  lemma TrimMeans(rs: seq<Region>, k: nat, addr: nat, length: int, x: int)
    requires WellFormed(rs) && Checked(addr, length) && k == Covering(rs, addr, U32(addr + length)) < |rs|
    requires Proper(rs, k, addr, length)
    ensures Covers(Trim(rs, k, addr, length), x) <==> Covers(rs, x) && !(addr <= x < addr + length)
  {
    InRegion(rs, k, addr, length);
    GoodAt(rs, k);
    hide Aligned, U32, I32, Trim, Good, WellFormed, Covering, Parts, Covers;
    TrimParts(rs, k, addr, length);
    if Covers(Trim(rs, k, addr, length), x) { TrimFewer(rs, k, addr, length, x); }
    if Covers(rs, x) && !(addr <= x < addr + length) { TrimOthers(rs, k, addr, length, x); }
  }

  lemma TrimFewer(rs: seq<Region>, k: nat, addr: nat, length: int, x: int)
    requires WellFormed(rs) && k < |rs| && 0 < length && rs[k].addr <= addr && addr + length <= rs[k].End()
    requires Covers(rs[..k] + Parts(rs[k], addr, length) + rs[k + 1..], x)
    ensures Covers(rs, x) && !(addr <= x < addr + length)
  {
    hide WellFormed, Parts;
    var parts := Parts(rs[k], addr, length);
    var rs' := rs[..k] + parts + rs[k + 1..];
    var i :| 0 <= i < |rs'| && rs'[i].addr <= x < rs'[i].End();
    PartAt(rs, k, parts, i);
    TrimLess(rs, k, addr, length, i, x);
  }

  lemma TrimOthers(rs: seq<Region>, k: nat, addr: nat, length: int, x: int)
    requires k < |rs| && 0 < length && rs[k].addr <= addr && addr + length <= rs[k].End()
    requires Covers(rs, x) && !(addr <= x < addr + length)
    ensures Covers(rs[..k] + Parts(rs[k], addr, length) + rs[k + 1..], x)
  {
    hide Parts;
    var i :| 0 <= i < |rs| && rs[i].addr <= x < rs[i].End();
    TrimRest(rs, k, addr, length, i, x);
  }

  lemma TrimLess(rs: seq<Region>, k: nat, addr: nat, length: int, i: nat, x: int)
    requires WellFormed(rs) && k < |rs| && 0 < length && rs[k].addr <= addr && addr + length <= rs[k].End()
    requires var parts := Parts(rs[k], addr, length);
             i < |rs| + |parts| - 1
             && var r := if i < k then rs[i] else if i < k + |parts| then parts[i - k] else rs[i - |parts| + 1]; r.addr <= x < r.End()
    ensures Covers(rs, x) && !(addr <= x < addr + length)
  {
    var parts := Parts(rs[k], addr, length);
    if i < k { GoodAt(rs, i); assert rs[i].addr <= x < rs[i].End(); }
    else if i < k + |parts| { assert rs[k].addr <= x < rs[k].End(); }
    else { GoodAt(rs, k); assert rs[i - |parts| + 1].addr <= x < rs[i - |parts| + 1].End(); }
  }

  lemma TrimRest(rs: seq<Region>, k: nat, addr: nat, length: int, i: nat, x: int)
    requires k < |rs| && 0 < length && rs[k].addr <= addr && addr + length <= rs[k].End()
    requires i < |rs| && rs[i].addr <= x < rs[i].End() && !(addr <= x < addr + length)
    ensures Covers(rs[..k] + Parts(rs[k], addr, length) + rs[k + 1..], x)
  {
    var parts := Parts(rs[k], addr, length);
    var rs' := rs[..k] + parts + rs[k + 1..];
    var j := if i < k then i else if i > k then i + |parts| - 1 else if x < addr then k else k + |parts| - 1;
    assert rs'[j].addr <= x < rs'[j].End();
  }
}
