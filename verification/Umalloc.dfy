/** umalloc.c: free, morecore and malloc over a memory of headers, with every unit of memory accounted
    for. */
module Umalloc {
  import opened UmallocList

  const TWO32: nat := 0x1_0000_0000
  const NULL: int := -1
  const STRAY: int := -2
  const MMAPBASE: nat := 0x6000_0000

  ghost predicate InLive(live: map<nat, nat>, u: int) { exists a :: a in live && Within(Blk(a, live[a]), u) }

  /** Every unit obtained from sbrk belongs to one free block or to one block in use, never to both. */
  ghost predicate Parts(fl: seq<Blk>, live: map<nat, nat>, units: set<nat>) {
    && (forall u: nat :: u in units <==> InFree(fl, u) || InLive(live, u))
    && (forall u: nat :: !(InFree(fl, u) && InLive(live, u)))
    && (forall a, a', u | a in live && a' in live && Within(Blk(a, live[a]), u) && Within(Blk(a', live[a']), u) :: a == a')
  }

  /** The headers of the blocks in use. */
  ghost predicate LiveOk(mem: map<nat, Header>, live: map<nat, nat>) {
    forall a | a in live :: live[a] > 0 && a in mem && mem[a].size == live[a]
  }

  ghost predicate HasEntry(fl: seq<Blk>, a: int) { exists k :: 0 <= k < |fl| && fl[k].addr == a }

  /** The number of header-sized units malloc asks for, in C's unsigned arithmetic. */
  function Units(nbytes: nat): (r: nat) { (nbytes + 8 - 1) % TWO32 / 8 + 1 }

  /** They hold the header and the bytes exactly when the sum does not wrap round. */
  lemma UnitsSuffice(nbytes: nat)
    requires nbytes < TWO32
    ensures 8 * (Units(nbytes) - 1) >= nbytes <==> nbytes + 7 < TWO32
    ensures nbytes + 7 < TWO32 ==> 8 * (Units(nbytes) - 1) < nbytes + 8
  {
    if nbytes + 7 < TWO32 {
      Remainder(nbytes + 7);
    } else {
      assert (nbytes + 7) % TWO32 == nbytes + 7 - TWO32;
    }
  }

  /** What morecore asks sbrk for: the bytes of `nu` units, as a signed int. */
  function SbrkArg(nu: nat): (n: int)
    ensures -(TWO32 / 2) <= n < TWO32 / 2
  {
    var bytes := 8 * nu % TWO32;
    if bytes < TWO32 / 2 then bytes else bytes - TWO32
  }

  /** What sbrk returns, -1 when it fails, and how far the memory of the process reaches afterwards. */
  datatype Break = Break(p: int, end: nat)

  /** sys_sbrk and growproc in a process of `sz` bytes; `room` says whether there are frames to grow. A
      size below zero wraps round, and then nothing is freed; a size of zero frees everything and reads
      as a failure. */
  function Sbrk(sz: nat, n: int, room: bool): (b: Break)
    requires sz < MMAPBASE && -(TWO32 / 2) <= n < TWO32 / 2
  {
    if n > 0 then (if sz + n >= MMAPBASE || !room then Break(-1, sz) else Break(sz, sz + n))
    else if n == 0 then Break(sz, sz)
    else
      var size := (sz + n) % TWO32;
      if size >= sz then Break(sz, sz) else if size == 0 then Break(-1, 0) else Break(sz, size)
  }

  /** sbrk never returns anything but the old end of the memory or -1. It supplies the memory that
      morecore will use exactly when it is asked for a positive number of bytes; otherwise the header
      that morecore writes lies beyond the end of the memory. */
  lemma SbrkSupplies(sz: nat, nu: nat, room: bool)
    requires sz < MMAPBASE && 0 < nu <= TWO32 / 8
    ensures var b := Sbrk(sz, SbrkArg(nu), room);
            && (b.p == -1 || b.p == sz)
            && (b.p != -1 ==> (b.p + 8 * nu <= b.end <==> SbrkArg(nu) > 0))
            && (SbrkArg(nu) > 0 ==> (b.p == -1 <==> sz + 8 * nu >= MMAPBASE || !room))
            && (SbrkArg(nu) <= 0 ==> b.end <= sz && (b.p != -1 ==> b.p >= b.end))
  {
    ArgIs(nu);
  }

  lemma ArgIs(nu: nat)
    requires 0 < nu <= TWO32 / 8
    ensures SbrkArg(nu) == if nu < TWO32 / 16 then 8 * nu else 8 * nu - TWO32
  {}

  /** sbrk is asked to grow exactly for requests up to 2 to the 31 less 16 bytes, apart from those whose
      rounding wraps round. */
  lemma GrowsMemory(nbytes: nat)
    requires nbytes < TWO32
    ensures 0 < Grown(Units(nbytes)) <= TWO32 / 8
    ensures SbrkArg(Grown(Units(nbytes))) > 0 <==> nbytes <= 0x7fff_fff0 || nbytes + 7 >= TWO32
  {
    if nbytes + 7 < TWO32 {
      Remainder(nbytes + 7);
    } else {
      assert (nbytes + 7) % TWO32 == nbytes + 7 - TWO32;
    }
    ArgIs(Grown(Units(nbytes)));
    hide SbrkArg;
  }

  lemma Remainder(x: nat)
    requires x < TWO32
    ensures x % TWO32 == x && x / 8 * 8 <= x < x / 8 * 8 + 8
  {}

  class Allocator {
    var mem: map<nat, Header>
    var freep: int
    const base: nat
    ghost var fl: seq<Blk>
    ghost var live: map<nat, nat>
    ghost var units: set<nat>

    /** Before the first malloc there is no list and nothing is in use. */
    ghost predicate Valid()
      reads this
    {
      && LiveOk(mem, live) && Parts(fl, live, units) && (forall u | u in units :: u > base)
      && if freep == NULL then fl == [] && live == map[]
         else Sorted(fl) && fl[0].addr == base && Rep(mem, fl) && HasEntry(fl, freep)
    }

    constructor (base: nat)
      ensures Valid() && freep == NULL && units == {}
    {
      this.base := base;
      mem, freep, fl, live, units := map[], NULL, [], map[], {};
    }

    /** The loop of free: the last entry before `bp`, found by following the circle from freep. */
    method FindPlace(bp: nat) returns (p: nat, ghost k: nat)
      requires Sorted(fl) && Rep(mem, fl) && HasEntry(fl, freep) && fl[0].addr < bp && !HasEntry(fl, bp)
      ensures p == fl[Pos(fl, bp)].addr < bp && k == Pos(fl, bp)
      ensures k + 1 < |fl| ==> bp < fl[k + 1].addr
    {
      hide Sorted, Rep, InMem;
      ghost var target := Pos(fl, bp);
      PosMeans(fl, bp);
      k :| 0 <= k < |fl| && fl[k].addr == freep;
      RepAt(mem, fl, k);
      p := freep;
      while !(bp > p && bp < mem[p].ptr)
        invariant k < |fl| && p == fl[k].addr && p in mem && mem[p].ptr == Nxt(fl, k)
        invariant target == Pos(fl, bp) < |fl|
        decreases if k <= target then target - k else target - k + |fl|
      {
        Stops(fl, bp, k);
        if p >= mem[p].ptr && (bp > p || bp < mem[p].ptr) { return; }
        p := mem[p].ptr;
        k := if k + 1 < |fl| then k + 1 else 0;
        RepAt(mem, fl, k);
      }
      Stops(fl, bp, k);
    }

    /** The writes of free, once the entry `p` before the block is known. */
    method Relink(bp: nat, p: nat, ghost k: nat, ghost b: Blk)
      requires Rep(mem, fl) && k < |fl| && p == fl[k].addr != bp && bp in mem && b == Blk(bp, mem[bp].size)
      modifies this`mem, this`freep
      ensures mem == PutMem(old(mem), fl, k, b) && freep == p
    {
      hide Rep, InMem, PutMem;
      PutMemAll(mem, fl, k, b);
      var next := mem[p].ptr;
      if bp + mem[bp].size == next {
        mem := mem[bp := Header(mem[next].ptr, mem[bp].size + mem[next].size)];
      } else {
        mem := mem[bp := Header(next, mem[bp].size)];
      }
      if p + mem[p].size == bp {
        mem := mem[p := Header(mem[bp].ptr, mem[p].size + mem[bp].size)];
      } else {
        mem := mem[p := Header(bp, mem[p].size)];
      }
      freep := p;
    }

    /** free: the block goes back to the list, merged with the free blocks it touches. */
    method Free(ap: nat)
      requires Valid() && ap > 0 && ap - 1 in live
      modifies this
      ensures Valid() && freep != NULL && units == old(units) && live == old(live) - {ap - 1}
      ensures var b := Blk(ap - 1, old(live)[ap - 1]);
              && |old(fl)| > 0 && old(fl)[0].addr < b.addr
              && fl == Put(old(fl), Pos(old(fl), b.addr), b)
              && freep == old(fl)[Pos(old(fl), b.addr)].addr
      ensures Untouched(old(mem), mem, live)
    {
      hide LiveOk, Parts, Sorted, Rep, InMem, ApartFrom, Put, Pos, PutMem, Untouched, HasEntry;
      var bp := ap - 1;
      ghost var b, mem0, fl0, live0 := Blk(bp, live[bp]), mem, fl, live;
      LiveAt(mem, live, bp);
      NotEmpty(fl, base);
      LiveApart(fl, live, units, base, bp);
      var p;
      ghost var k;
      p, k := FindPlace(bp);
      PutOk(mem, fl, live, units, base, k, bp);
      Relink(bp, p, k, b);
      fl := Put(fl, k, b);
      live := live - {bp};
    }

    /** morecore: at least 4096 units from sbrk, given to free, in a process of `sz` bytes. It does not go
        on if sbrk was asked for a number of bytes that is not positive: see SbrkSupplies. */
    method Morecore(nu: nat, sz: nat, room: bool) returns (p: int)
      requires Valid() && freep != NULL && 0 < nu && Grown(nu) <= TWO32 / 8
      requires sz % 8 == 0 && sz < MMAPBASE && base < sz / 8 && forall u | u in units :: u < sz / 8
      modifies this
      ensures Valid() && live == old(live)
      ensures p == STRAY <==> SbrkArg(Grown(nu)) <= 0
      ensures p == NULL <==> SbrkArg(Grown(nu)) > 0 && Sbrk(sz, SbrkArg(Grown(nu)), room).p == -1
      ensures p == NULL || p == STRAY ==> mem == old(mem) && fl == old(fl) && units == old(units) && freep == old(freep)
      ensures p != NULL && p != STRAY ==>
                var grow := sz / 8;
                && p == freep && |old(fl)| > 0 && old(fl)[0].addr < grow
                && fl == Put(old(fl), Pos(old(fl), grow), Blk(grow, Grown(nu))) && freep == old(fl)[Pos(old(fl), grow)].addr
                && units == old(units) + Range(grow, Grown(nu)) && Untouched(old(mem), mem, live)
    {
      hide LiveOk, Parts, Sorted, Rep, InMem, Put, Pos, Untouched, HasEntry, Range, SbrkArg, Sbrk;
      var nu' := if nu < 4096 then 4096 else nu;
      SbrkSupplies(sz, nu', room);
      var n := SbrkArg(nu');
      if n <= 0 { return STRAY; }
      var b := Sbrk(sz, n, room);
      if b.p == -1 { return NULL; }
      var grow := b.p / 8;
      ghost var mem0, live0 := mem, live;
      GrowOk(mem, fl, live, units, base, grow, nu');
      mem := mem[grow := Header(if grow in mem then mem[grow].ptr else 0, nu')];
      live := live[grow := nu'];
      units := units + Range(grow, nu');
      ghost var mem1 := mem;
      Free(grow + 1);
      assert live == live0;
      UntouchedBoth(mem0, mem1, mem, live0);
      p := freep;
    }

    /** malloc takes the block or its tail from entry `k`. */
    method Carve(prevp: nat, p: nat, n: nat, ghost k: nat) returns (a: nat)
      requires Valid() && freep != NULL && 0 < n && 0 < k < |fl| && p == fl[k].addr && prevp == fl[k - 1].addr && n <= fl[k].size
      modifies this
      ensures Valid() && freep == prevp && units == old(units)
      ensures fl == Take(old(fl), k, n) && a == Taken(old(fl), k, n).addr && a !in old(live) && live == old(live)[a := n]
      ensures Untouched(old(mem), mem, old(live))
    {
      hide LiveOk, Parts, Sorted, Rep, InMem, Take, TakeMem, Untouched, HasEntry;
      TakeOk(mem, fl, live, units, base, k, n);
      RepAt(mem, fl, k);
      RepAt(mem, fl, k - 1);
      ghost var mem0 := mem;
      TakeMemCode(mem, fl, k, n);
      a := p;
      if mem[p].size == n {
        mem := mem[prevp := mem[prevp].(ptr := mem[p].ptr)];
      } else {
        mem := mem[p := mem[p].(size := mem[p].size - n)];
        a := p + mem[p].size;
        mem := mem[a := Header(if a in mem then mem[a].ptr else 0, n)];
      }
      freep := prevp;
      fl := Take(fl, k, n);
      live := live[a := n];
    }

    /** One round of malloc's loop, from the entry after freep to the first that is large enough, or back
        to freep itself. */
    method Scan(n: nat) returns (prevp: nat, p: nat, fits: bool, ghost f: nat, ghost c: nat)
      requires Sorted(fl) && Rep(mem, fl) && HasEntry(fl, freep) && n > 0
      ensures f < |fl| && fl[f].addr == freep && c < |fl|
      ensures fits ==> FirstFrom(fl, f, c, n) && Rot(f, c, |fl|) > 0
      ensures fits ==> p == fl[Rot(f, c, |fl|)].addr && prevp == fl[Rot(f, c, |fl|) - 1].addr
      ensures fits <==> Fits(fl, n)
    {
      hide Sorted, Rep, InMem, Fits, Visited;
      f, c :| 0 <= f < |fl| && fl[f].addr == freep && c == 0;
      prevp := freep;
      RepAt(mem, fl, f);
      p := mem[prevp].ptr;
      VisitNone(fl, f, n);
      while true
        invariant c < |fl| && Visited(fl, f, c, n) && p == fl[Rot(f, c, |fl|)].addr
        invariant prevp == fl[Prev(f, c, |fl|)].addr
        decreases |fl| - c
      {
        RepAt(mem, fl, Rot(f, c, |fl|));
        if mem[p].size >= n {
          Chosen(fl, f, c, n);
          return prevp, p, true, f, c;
        }
        VisitMore(fl, f, c, n);
        if p == freep {
          AllVisited(fl, f, c, n);
          return prevp, p, false, f, c;
        }
        NotRound(fl, f, c);
        prevp := p;
        p := mem[p].ptr;
        c := c + 1;
      }
    }

    /** malloc: units from the first entry after freep that is large enough, going round the circle; or
        from the memory that sbrk supplies at the end of the `sz` bytes of the process. Null exactly when
        nothing fits and sbrk fails; no proper end when nothing fits and sbrk is asked for a number of
        bytes that is not positive. The loop of the source goes round once, and once more from the new
        freep after morecore. */
    method Malloc(nbytes: nat, sz: nat, room: bool) returns (r: int)
      requires Valid() && nbytes < TWO32
      requires sz % 8 == 0 && sz < MMAPBASE && base < sz / 8 && forall u | u in units :: u < sz / 8
      modifies this
      ensures Valid() && freep != NULL
      ensures var list, n := Listed(old(freep), base, old(fl)), Units(nbytes);
              var arg := SbrkArg(Grown(n));
              && (r == STRAY <==> !Fits(list, n) && arg <= 0)
              && (r == 0 <==> !Fits(list, n) && arg > 0 && Sbrk(sz, arg, room).p == -1)
              && if r == 0 || r == STRAY then fl == list && live == old(live) && units == old(units)
                 else
                   && r > 0 && r - 1 !in old(live) && live == old(live)[r - 1 := n] && Untouched(old(mem), mem, old(live))
                   && (Fits(list, n) ==> units == old(units) && TakenFrom(list, Begin(old(freep), base), n, fl, r - 1))
                   && (!Fits(list, n) ==>
                         var grow, k := sz / 8, Pos(list, sz / 8);
                         && |list| > 0 && list[0].addr < grow && units == old(units) + Range(grow, Grown(n))
                         && TakenFrom(Put(list, k, Blk(grow, Grown(n))), list[k].addr, n, fl, r - 1))
    {
      hide LiveOk, Parts, Sorted, Rep, InMem, Put, Pos, Untouched, HasEntry, Take, Taken, Fits, TakenFrom, FirstFrom, Range, Rot, SbrkArg, Sbrk;
      GrowsMemory(nbytes);
      var n := Units(nbytes);
      ghost var mem0, live0, list := mem, live, Listed(freep, base, fl);
      if freep == NULL {
        BaseOk(mem, base, units);
        mem := mem[base := Header(base, 0)];
        freep := base;
        fl := [Blk(base, 0)];
      }
      SameUntouched(mem0, mem, live);
      NotEmpty(fl, base);
      ghost var mem1, f, c := mem, 0, 0;
      var prevp, p, fits;
      prevp, p, fits, f, c := Scan(n);
      if !fits {
        var q := Morecore(n, sz, room);
        if q == STRAY { return STRAY; }
        if q == NULL { return 0; }
        ghost var grow := sz / 8;
        GrownFits(list, Pos(list, grow), Blk(grow, Grown(n)), n);
        UntouchedBoth(mem0, mem1, mem, live0);
        mem1 := mem;
        prevp, p, fits, f, c := Scan(n);
      }
      ghost var k, was := Rot(f, c, |fl|), fl;
      FirstSize(fl, f, c, n);
      var a := Carve(prevp, p, n, k);
      UntouchedBoth(mem0, mem1, mem, live0);
      TakenIs(was, f, c, n, fl, a);
      r := a + 1;
    }
  }

  function Listed(freep: int, base: nat, fl: seq<Blk>): (r: seq<Blk>) { if freep == NULL then [Blk(base, 0)] else fl }

  function Begin(freep: int, base: nat): (r: int) { if freep == NULL then base else freep }

  ghost predicate Fits(fl: seq<Blk>, n: nat) { exists k :: 0 <= k < |fl| && fl[k].size >= n }

  /** The position `c` steps after the successor of position `f`, in a circle of `m`. */
  function Rot(f: nat, c: nat, m: nat): (k: nat)
    requires f < m && c < m
    ensures k < m
  {
    if f + 1 + c < m then f + 1 + c else f + 1 + c - m
  }

  function Prev(f: nat, c: nat, m: nat): (k: nat)
    requires f < m && c < m
    ensures k < m
  {
    if c == 0 then f else Rot(f, c - 1, m)
  }

  ghost predicate Visited(fl: seq<Blk>, f: nat, c: nat, n: nat)
    requires f < |fl| && c <= |fl|
  {
    forall d: nat | d < c :: fl[Rot(f, d, |fl|)].size < n
  }

  /** Entry Rot(f, c) is the first after `f` that is large enough. */
  ghost predicate FirstFrom(fl: seq<Blk>, f: nat, c: nat, n: nat) {
    f < |fl| && c < |fl| && Visited(fl, f, c, n) && fl[Rot(f, c, |fl|)].size >= n
  }

  /** The new list and the block handed out, when the search starts at the entry at `start`. */
  ghost predicate TakenFrom(list: seq<Blk>, start: int, n: nat, fl: seq<Blk>, a: int) {
    exists f: nat, c: nat :: FirstFrom(list, f, c, n) && list[f].addr == start
      && fl == Take(list, Rot(f, c, |list|), n) && a == Taken(list, Rot(f, c, |list|), n).addr
  }

  lemma TakenIs(list: seq<Blk>, f: nat, c: nat, n: nat, fl: seq<Blk>, a: int)
    requires FirstFrom(list, f, c, n) && fl == Take(list, Rot(f, c, |list|), n) && a == Taken(list, Rot(f, c, |list|), n).addr
    ensures TakenFrom(list, list[f].addr, n, fl, a)
  {}

  lemma FirstSize(fl: seq<Blk>, f: nat, c: nat, n: nat)
    requires FirstFrom(fl, f, c, n)
    ensures f < |fl| && c < |fl| && fl[Rot(f, c, |fl|)].size >= n
  {}

  lemma VisitNone(fl: seq<Blk>, f: nat, n: nat)
    requires f < |fl|
    ensures Visited(fl, f, 0, n)
  {}

  lemma VisitMore(fl: seq<Blk>, f: nat, c: nat, n: nat)
    requires f < |fl| && c < |fl| && Visited(fl, f, c, n) && fl[Rot(f, c, |fl|)].size < n
    ensures Visited(fl, f, c + 1, n)
  {}

  lemma Chosen(fl: seq<Blk>, f: nat, c: nat, n: nat)
    requires Sorted(fl) && f < |fl| && c < |fl| && Visited(fl, f, c, n) && fl[Rot(f, c, |fl|)].size >= n > 0
    ensures FirstFrom(fl, f, c, n) && Fits(fl, n) && Rot(f, c, |fl|) > 0 && Prev(f, c, |fl|) == Rot(f, c, |fl|) - 1
  {
    assert fl[0].size == 0;
  }

  /** Back at the entry where it began, the scan has seen every entry. */
  lemma AllVisited(fl: seq<Blk>, f: nat, c: nat, n: nat)
    requires Sorted(fl) && f < |fl| && c < |fl| && Visited(fl, f, c + 1, n) && fl[Rot(f, c, |fl|)].addr == fl[f].addr
    ensures !Fits(fl, n)
  {
    if Rot(f, c, |fl|) != f { Distinct(fl, Rot(f, c, |fl|), f); }
    forall k: nat | k < |fl| ensures fl[k].size < n {
      var d := if k > f then k - f - 1 else k + |fl| - f - 1;
      assert Rot(f, d, |fl|) == k;
    }
  }

  lemma NotRound(fl: seq<Blk>, f: nat, c: nat)
    requires f < |fl| && c < |fl| && fl[Rot(f, c, |fl|)].addr != fl[f].addr
    ensures c + 1 < |fl| && Nxt(fl, Rot(f, c, |fl|)) == fl[Rot(f, c + 1, |fl|)].addr
  {}

  /** The empty list that the first malloc sets up. */
  lemma BaseOk(mem: map<nat, Header>, base: nat, units: set<nat>)
    requires Parts([], map[], units)
    ensures var fl, mem' := [Blk(base, 0)], mem[base := Header(base, 0)];
            Sorted(fl) && Rep(mem', fl) && HasEntry(fl, base) && LiveOk(mem', map[]) && Parts(fl, map[], units)
  {
    assert [Blk(base, 0)][0].addr == base;
  }

  lemma SameUntouched(mem: map<nat, Header>, mem': map<nat, Header>, live: map<nat, nat>)
    requires mem' == mem || live == map[]
    ensures Untouched(mem, mem', live)
  {}

  /** What morecore supplies is enough. */
  lemma GrownFits(list: seq<Blk>, k: nat, b: Blk, n: nat)
    requires k < |list| && b.size >= n
    ensures Fits(Put(list, k, b), n)
  {
    PutItems(list, k, b);
    var r := Put(list, k, b);
    assert r[k + if Down(list, k, b) then 0 else 1].size >= n;
  }

  /** morecore asks for as many units as are needed, and for no fewer than 4096. */
  function Grown(nu: nat): (r: nat)
    ensures r >= nu && r >= 4096 && (r == nu || r == 4096)
  {
    if nu < 4096 then 4096 else nu
  }

  function Range(start: nat, n: nat): (r: set<nat>)
    ensures forall u: nat :: u in r <==> start <= u < start + n
  {
    if n == 0 then {} else Range(start, n - 1) + {start + n - 1}
  }

  lemma UntouchedBoth(mem0: map<nat, Header>, mem1: map<nat, Header>, mem2: map<nat, Header>, live: map<nat, nat>)
    requires Untouched(mem0, mem1, live) && Untouched(mem1, mem2, live)
    ensures Untouched(mem0, mem2, live)
  {}

  lemma LiveMore(live: map<nat, nat>, a: nat, n: nat, u: int)
    requires a !in live
    ensures InLive(live[a := n], u) <==> InLive(live, u) || Within(Blk(a, n), u)
  {
    var live' := live[a := n];
    LiveLess(live', a, u);
    assert live' - {a} == live;
  }

  /** Memory fresh from sbrk, seen as a block in use. */
  lemma GrowOk(mem: map<nat, Header>, fl: seq<Blk>, live: map<nat, nat>, units: set<nat>, base: nat, start: nat, n: nat)
    requires Sorted(fl) && fl[0].addr == base < start && Rep(mem, fl) && LiveOk(mem, live) && Parts(fl, live, units)
    requires n > 0 && forall u | u in units :: base < u < start
    ensures var live', mem' := live[start := n], mem[start := Header(if start in mem then mem[start].ptr else 0, n)];
            && start !in live && Rep(mem', fl) && LiveOk(mem', live') && Parts(fl, live', units + Range(start, n))
            && Untouched(mem, mem', live)
  {
    var live', mem' := live[start := n], mem[start := Header(if start in mem then mem[start].ptr else 0, n)];
    forall u | InLive(live, u) || InFree(fl, u) ensures u < start { assert u >= 0 && u in units; }
    forall a | a in live ensures a != start { LiveAt(mem, live, a); assert Within(Blk(a, live[a]), a); assert InLive(live, a); }
    forall k | 0 <= k < |fl| ensures fl[k].addr != start { Starts(fl, k); }
    assert Rep(mem', fl) by { RepSame(mem, mem', fl, start); }
    assert LiveOk(mem', live') by { LiveNew(mem, mem', live, start, n); }
    hide Sorted, Rep, LiveOk, InFree;
    GrowParts(fl, live, units, start, n);
  }

  lemma RepSame(mem: map<nat, Header>, mem': map<nat, Header>, fl: seq<Blk>, x: nat)
    requires Rep(mem, fl) && x in mem' && mem' == mem[x := mem'[x]] && forall k | 0 <= k < |fl| :: fl[k].addr != x
    ensures Rep(mem', fl)
  {
    forall k | 0 <= k < |fl| ensures fl[k].addr in mem' && mem'[fl[k].addr] == Header(Nxt(fl, k), fl[k].size) { RepAt(mem, fl, k); }
  }

  lemma LiveNew(mem: map<nat, Header>, mem': map<nat, Header>, live: map<nat, nat>, x: nat, n: nat)
    requires LiveOk(mem, live) && x !in live && n > 0 && x in mem' && mem' == mem[x := mem'[x]] && mem'[x].size == n
    ensures LiveOk(mem', live[x := n])
  {}

  lemma GrowParts(fl: seq<Blk>, live: map<nat, nat>, units: set<nat>, start: nat, n: nat)
    requires Parts(fl, live, units) && start !in live
    requires forall u | InLive(live, u) || InFree(fl, u) :: u < start
    ensures Parts(fl, live[start := n], units + Range(start, n))
  {
    var live' := live[start := n];
    forall u: nat
      ensures (u in units + Range(start, n) <==> InFree(fl, u) || InLive(live', u)) && !(InFree(fl, u) && InLive(live', u))
    {
      LiveMore(live, start, n, u);
    }
    forall a, a', u | a in live' && a' in live' && Within(Blk(a, live'[a]), u) && Within(Blk(a', live'[a']), u) ensures a == a' {
      OneOwner(fl, live, units, start, n, a, a', u);
    }
  }

  lemma OneOwner(fl: seq<Blk>, live: map<nat, nat>, units: set<nat>, start: nat, n: nat, a: nat, a': nat, u: int)
    requires Parts(fl, live, units) && start !in live && forall v | InLive(live, v) :: !Within(Blk(start, n), v)
    requires var live' := live[start := n]; a in live' && a' in live' && Within(Blk(a, live'[a]), u) && Within(Blk(a', live'[a']), u)
    ensures a == a'
  {
    hide InFree;
    if a != start { assert a in live && Within(Blk(a, live[a]), u) && InLive(live, u); }
    if a' != start { assert a' in live && Within(Blk(a', live[a']), u) && InLive(live, u); }
  }

  lemma TakeMemCode(mem: map<nat, Header>, fl: seq<Blk>, k: nat, n: nat)
    requires Rep(mem, fl) && 0 < k < |fl| && 0 < n <= fl[k].size
    ensures var p, prev := fl[k].addr, fl[k - 1].addr;
            && p in mem && prev in mem && mem[p].size == fl[k].size
            && (mem[p].size == n ==> TakeMem(mem, fl, k, n) == mem[prev := mem[prev].(ptr := mem[p].ptr)] && Taken(fl, k, n).addr == p)
            && (mem[p].size != n ==>
                  var mem1, t := mem[p := mem[p].(size := mem[p].size - n)], p + mem[p].size - n;
                  TakeMem(mem, fl, k, n) == mem1[t := Header(if t in mem1 then mem1[t].ptr else 0, n)] && Taken(fl, k, n).addr == t)
  {
    RepAt(mem, fl, k);
    RepAt(mem, fl, k - 1);
    hide Rep, InMem;
  }

  /** Everything is accounted for after units have been handed out. */
  lemma TakeOk(mem: map<nat, Header>, fl: seq<Blk>, live: map<nat, nat>, units: set<nat>, base: nat, k: nat, n: nat)
    requires Sorted(fl) && fl[0].addr == base && Rep(mem, fl) && LiveOk(mem, live) && Parts(fl, live, units)
    requires 0 < k < |fl| && 0 < n <= fl[k].size && forall u | u in units :: u > base
    ensures var a := Taken(fl, k, n).addr;
            var fl', mem', live' := Take(fl, k, n), TakeMem(mem, fl, k, n), live[a := n];
            && a !in live && Sorted(fl') && fl'[0].addr == base && Rep(mem', fl') && HasEntry(fl', fl[k - 1].addr)
            && LiveOk(mem', live') && Parts(fl', live', units) && Untouched(mem, mem', live)
  {
    var a := Taken(fl, k, n).addr;
    TakeSorted(fl, k, n);
    TakeRep(mem, fl, k, n);
    TakeItems(fl, k, n);
    assert HasEntry(Take(fl, k, n), fl[k - 1].addr) by { assert Take(fl, k, n)[k - 1].addr == fl[k - 1].addr; }
    InEntry(fl, k, a);
    NotLive(mem, fl, live, units, a);
    TakeUntouched(mem, fl, live, units, k, n);
    hide Take, TakeMem, Sorted, Rep;
    LiveStays(mem, TakeMem(mem, fl, k, n), live, live);
    TakeParts(fl, live, units, k, n);
  }

  lemma NotLive(mem: map<nat, Header>, fl: seq<Blk>, live: map<nat, nat>, units: set<nat>, a: nat)
    requires Parts(fl, live, units) && LiveOk(mem, live) && InFree(fl, a)
    ensures a !in live && !InLive(live, a)
  {
    if a in live { assert Within(Blk(a, live[a]), a); }
  }

  lemma TakeParts(fl: seq<Blk>, live: map<nat, nat>, units: set<nat>, k: nat, n: nat)
    requires Sorted(fl) && Parts(fl, live, units) && k < |fl| && 0 < n <= fl[k].size && Taken(fl, k, n).addr !in live
    ensures Parts(Take(fl, k, n), live[Taken(fl, k, n).addr := n], units)
  {
    var a := Taken(fl, k, n).addr;
    var fl', live' := Take(fl, k, n), live[a := n];
    forall u: nat ensures (u in units <==> InFree(fl', u) || InLive(live', u)) && !(InFree(fl', u) && InLive(live', u)) {
      TakeUnits(fl, k, n, u);
      LiveMore(live, a, n, u);
    }
    forall v | InLive(live, v) ensures !Within(Blk(a, n), v) {
      if Within(Blk(a, n), v) { TakeUnits(fl, k, n, v); }
    }
    forall b, b', u | b in live' && b' in live' && Within(Blk(b, live'[b]), u) && Within(Blk(b', live'[b']), u) ensures b == b' {
      OneOwner(fl, live, units, a, n, b, b', u);
    }
    hide Take, InFree, InLive, Sorted;
  }

  lemma TakeUntouched(mem: map<nat, Header>, fl: seq<Blk>, live: map<nat, nat>, units: set<nat>, k: nat, n: nat)
    requires Sorted(fl) && Rep(mem, fl) && Parts(fl, live, units) && 0 < k < |fl| && 0 < n <= fl[k].size
    requires forall u | u in units :: u > fl[0].addr
    ensures Untouched(mem, TakeMem(mem, fl, k, n), live)
  {
    forall u | u in mem && InLive(live, u) ensures u in TakeMem(mem, fl, k, n) && TakeMem(mem, fl, k, n)[u] == mem[u] {
      TakeMemIs(mem, fl, k, n, u);
      hide TakeMem, Rep;
      Starts(fl, k);
      Starts(fl, k - 1);
      InEntry(fl, k, Taken(fl, k, n).addr);
      assert u != fl[k].addr && u != Taken(fl, k, n).addr && u != fl[k - 1].addr;
    }
  }

  lemma NotEmpty(fl: seq<Blk>, base: nat)
    ensures Sorted(fl) ==> |fl| > 0
  {}

  /** No word of a block in use has been written. */
  ghost predicate Untouched(mem: map<nat, Header>, mem': map<nat, Header>, live: map<nat, nat>) {
    forall u | u in mem && InLive(live, u) :: u in mem' && mem'[u] == mem[u]
  }

  lemma LiveAt(mem: map<nat, Header>, live: map<nat, nat>, a: nat)
    requires LiveOk(mem, live) && a in live
    ensures a in mem && mem[a].size == live[a] > 0
  {}

  /** A block in use shares no unit with the list. */
  lemma LiveApart(fl: seq<Blk>, live: map<nat, nat>, units: set<nat>, base: nat, a: nat)
    requires Parts(fl, live, units) && a in live && live[a] > 0 && forall u | u in units :: u > base
    ensures ApartFrom(fl, Blk(a, live[a])) && a > base
    ensures Sorted(fl) && fl[0].addr == base ==> !HasEntry(fl, a)
  {
    var b := Blk(a, live[a]);
    forall u: nat | Within(b, u) ensures InLive(live, u) && !InFree(fl, u) { assert Within(Blk(a, live[a]), u); }
    assert Within(b, a) && a in units;
    EntryStarts(fl, a);
  }

  lemma EntryStarts(fl: seq<Blk>, a: nat)
    ensures Sorted(fl) && HasEntry(fl, a) && a != fl[0].addr ==> InFree(fl, a)
  {
    if Sorted(fl) && HasEntry(fl, a) && a != fl[0].addr {
      var k :| 0 <= k < |fl| && fl[k].addr == a;
      Starts(fl, k);
    }
  }

  lemma Starts(fl: seq<Blk>, k: nat)
    requires Sorted(fl) && k < |fl|
    ensures k > 0 ==> InFree(fl, fl[k].addr)
  {
    assert k > 0 ==> Within(fl[k], fl[k].addr);
  }

  /** What the code of free reads and writes. */
  lemma PutMemAll(mem: map<nat, Header>, fl: seq<Blk>, k: nat, b: Blk)
    requires Rep(mem, fl) && k < |fl| && fl[k].addr != b.addr && b.addr in mem && mem[b.addr].size == b.size
    ensures var p := fl[k].addr;
            && p in mem && mem[p].ptr in mem && mem[p].ptr == Nxt(fl, k)
            && var next, bp := mem[p].ptr, b.addr;
               var mem1 := if bp + mem[bp].size == next then mem[bp := Header(mem[next].ptr, mem[bp].size + mem[next].size)]
                           else mem[bp := Header(next, mem[bp].size)];
               PutMem(mem, fl, k, b)
               == if p + mem1[p].size == bp then mem1[p := Header(mem1[bp].ptr, mem1[p].size + mem1[bp].size)]
                  else mem1[p := Header(bp, mem1[p].size)]
  {
    RepAt(mem, fl, k);
    RepAt(mem, fl, if k + 1 < |fl| then k + 1 else 0);
    hide Rep, InMem;
  }

  /** Everything is accounted for after a block has been given back. */
  lemma PutOk(mem: map<nat, Header>, fl: seq<Blk>, live: map<nat, nat>, units: set<nat>, base: nat, k: nat, bp: nat)
    requires Sorted(fl) && fl[0].addr == base < bp && Rep(mem, fl) && LiveOk(mem, live) && Parts(fl, live, units)
    requires bp in live && k < |fl| && fl[k].addr < bp && (k + 1 < |fl| ==> bp < fl[k + 1].addr)
    requires ApartFrom(fl, Blk(bp, live[bp])) && !HasEntry(fl, bp) && forall u | u in units :: u > base
    ensures var b, live' := Blk(bp, live[bp]), live - {bp};
            var fl', mem' := Put(fl, k, b), PutMem(mem, fl, k, b);
            && Sorted(fl') && fl'[0].addr == base && Rep(mem', fl') && HasEntry(fl', fl[k].addr)
            && LiveOk(mem', live') && Parts(fl', live', units) && Untouched(mem, mem', live')
  {
    var b, live' := Blk(bp, live[bp]), live - {bp};
    LiveAt(mem, live, bp);
    PutSorted(fl, k, b);
    NotEntry(fl, bp);
    PutRep(mem, fl, k, b);
    PutItems(fl, k, b);
    assert HasEntry(Put(fl, k, b), fl[k].addr) by { assert Put(fl, k, b)[k].addr == fl[k].addr; }
    PutParts(fl, live, units, k, bp);
    PutUntouched(mem, fl, live, units, base, k, bp);
    hide Put, PutMem, Sorted, Rep, Parts, ApartFrom, Untouched;
    LiveStays(mem, PutMem(mem, fl, k, b), live, live');
  }

  lemma NotEntry(fl: seq<Blk>, a: nat)
    requires !HasEntry(fl, a)
    ensures forall j | 0 <= j < |fl| :: fl[j].addr != a
  {}

  lemma LiveLess(live: map<nat, nat>, bp: nat, u: int)
    requires bp in live
    ensures InLive(live, u) <==> InLive(live - {bp}, u) || Within(Blk(bp, live[bp]), u)
  {
    var live' := live - {bp};
    if InLive(live, u) {
      var a :| a in live && Within(Blk(a, live[a]), u);
      if a != bp { assert a in live' && Within(Blk(a, live'[a]), u); }
    }
    if InLive(live', u) {
      var a :| a in live' && Within(Blk(a, live'[a]), u);
      assert a in live && Within(Blk(a, live[a]), u);
    }
  }

  lemma PutParts(fl: seq<Blk>, live: map<nat, nat>, units: set<nat>, k: nat, bp: nat)
    requires Parts(fl, live, units) && bp in live && k < |fl|
    ensures Parts(Put(fl, k, Blk(bp, live[bp])), live - {bp}, units)
  {
    var b, live' := Blk(bp, live[bp]), live - {bp};
    forall u: nat ensures (u in units <==> InFree(Put(fl, k, b), u) || InLive(live', u)) && !(InFree(Put(fl, k, b), u) && InLive(live', u)) {
      PutUnits(fl, k, b, u);
      LiveLess(live, bp, u);
      if InLive(live', u) && Within(b, u) { Twice(fl, live, units, bp, u); }
    }
    hide Put, InFree, InLive;
  }

  lemma Twice(fl: seq<Blk>, live: map<nat, nat>, units: set<nat>, bp: nat, u: int)
    requires Parts(fl, live, units) && bp in live && Within(Blk(bp, live[bp]), u)
    ensures !InLive(live - {bp}, u)
  {
    hide InFree;
    var live' := live - {bp};
    forall a | a in live' ensures !Within(Blk(a, live'[a]), u) { assert a in live && live[a] == live'[a]; }
  }

  lemma LiveStays(mem: map<nat, Header>, mem': map<nat, Header>, live: map<nat, nat>, live': map<nat, nat>)
    requires LiveOk(mem, live) && Untouched(mem, mem', live') && forall a | a in live' :: a in live && live'[a] == live[a]
    ensures LiveOk(mem', live')
  {
    forall a | a in live' ensures live'[a] > 0 && a in mem' && mem'[a].size == live'[a] {
      LiveAt(mem, live, a);
      assert Within(Blk(a, live'[a]), a);
      assert InLive(live', a);
    }
  }

  lemma PutUntouched(mem: map<nat, Header>, fl: seq<Blk>, live: map<nat, nat>, units: set<nat>, base: nat, k: nat, bp: nat)
    requires Sorted(fl) && fl[0].addr == base < bp && Rep(mem, fl) && Parts(fl, live, units) && LiveOk(mem, live)
    requires bp in live && k < |fl| && forall u | u in units :: u > base
    ensures Untouched(mem, PutMem(mem, fl, k, Blk(bp, live[bp])), live - {bp})
  {
    var b, live' := Blk(bp, live[bp]), live - {bp};
    PutMemIs(mem, fl, k, b);
    hide PutMem, Rep;
    forall u | u in mem && InLive(live', u) ensures u != bp && u != fl[k].addr {
      LiveLess(live, bp, u);
      if u == bp { LiveAt(mem, live, bp); Twice(fl, live, units, bp, u); }
      if u == fl[k].addr && k > 0 { Starts(fl, k); }
    }
  }

  lemma {:induction false} PosMeans(fl: seq<Blk>, a: nat)
    requires |fl| > 0 && fl[0].addr < a
    ensures forall i | Pos(fl, a) < i < |fl| :: fl[i].addr >= a
  {
    if fl[|fl| - 1].addr >= a { PosMeans(fl[..|fl| - 1], a); }
  }

  /** The loop of free stops at the entry it looks for and nowhere else. */
  lemma Stops(fl: seq<Blk>, bp: nat, k: nat)
    requires Sorted(fl) && fl[0].addr < bp && !HasEntry(fl, bp) && k < |fl|
    ensures var p, next := fl[k].addr, Nxt(fl, k);
            (bp > p && bp < next) || (p >= next && (bp > p || bp < next)) <==> k == Pos(fl, bp)
    ensures k == Pos(fl, bp) ==> fl[k].addr < bp && (k + 1 < |fl| ==> bp < fl[k + 1].addr)
  {
    PosMeans(fl, bp);
    var t := Pos(fl, bp);
    assert fl[k].addr != bp && (k + 1 < |fl| ==> fl[k + 1].addr != bp);
    if k < t { Before(fl, k, t); if k + 1 < t { Before(fl, k + 1, t); } }
    if k + 1 < |fl| { Before(fl, k, k + 1); }
    if k > 0 { Before(fl, 0, k); }
    hide Sorted, Pos;
  }
}
