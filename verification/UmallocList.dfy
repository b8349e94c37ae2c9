/** umalloc.c: the free list in address order, what giving back and handing out blocks do to it, and
    the headers that hold it. Addresses and sizes are counted in units of one header. */
module UmallocList {
  datatype Blk = Blk(addr: nat, size: nat)

  datatype Header = Header(ptr: nat, size: nat)

  /** The first entry is `base`, of size 0; the others follow in address order and never touch. */
  ghost predicate Sorted(fl: seq<Blk>) {
    && |fl| > 0 && fl[0].size == 0
    && (forall i | 0 < i < |fl| :: fl[i].size > 0)
    && (forall i, j | 0 <= i < j < |fl| :: fl[i].addr + fl[i].size < fl[j].addr)
  }

  predicate Within(b: Blk, u: int) { b.addr <= u < b.addr + b.size }

  ghost predicate InFree(fl: seq<Blk>, u: int) { exists k :: 0 <= k < |fl| && Within(fl[k], u) }

  /** Where the entry at position `k` points: the list is circular. */
  function Nxt(fl: seq<Blk>, k: nat): (r: nat)
    requires k < |fl|
  {
    if k + 1 < |fl| then fl[k + 1].addr else fl[0].addr
  }

  ghost predicate InMem(mem: map<nat, Header>, fl: seq<Blk>) {
    forall k | 0 <= k < |fl| :: fl[k].addr in mem
  }

  /** The headers in memory hold the list. */
  ghost predicate Rep(mem: map<nat, Header>, fl: seq<Blk>) {
    InMem(mem, fl) && forall k {:trigger mem[fl[k].addr]} | 0 <= k < |fl| :: mem[fl[k].addr] == Header(Nxt(fl, k), fl[k].size)
  }

  lemma Before(fl: seq<Blk>, i: nat, j: nat)
    requires Sorted(fl) && i < j < |fl|
    ensures fl[i].addr + fl[i].size < fl[j].addr
  {}

  lemma RepAt(mem: map<nat, Header>, fl: seq<Blk>, k: nat)
    requires Rep(mem, fl) && k < |fl|
    ensures fl[k].addr in mem && mem[fl[k].addr] == Header(Nxt(fl, k), fl[k].size)
  {}

  // ----- giving a block back

  /** The position of the last entry before address `a`. */
  function Pos(fl: seq<Blk>, a: nat): (k: nat)
    requires |fl| > 0 && fl[0].addr < a
    ensures k < |fl| && fl[k].addr < a
  {
    if fl[|fl| - 1].addr < a then |fl| - 1 else Pos(fl[..|fl| - 1], a)
  }

  predicate Up(fl: seq<Blk>, k: nat, b: Blk) { k + 1 < |fl| && b.addr + b.size == fl[k + 1].addr }

  predicate Down(fl: seq<Blk>, k: nat, b: Blk) { k < |fl| && fl[k].addr + fl[k].size == b.addr }

  function Merged(fl: seq<Blk>, k: nat, b: Blk): (r: Blk)
    requires k < |fl|
  {
    Blk(if Down(fl, k, b) then fl[k].addr else b.addr,
        b.size + (if Down(fl, k, b) then fl[k].size else 0) + if Up(fl, k, b) then fl[k + 1].size else 0)
  }

  /** Block `b` joins the list behind position `k`, merged with the neighbours it touches. */
  function Put(fl: seq<Blk>, k: nat, b: Blk): (r: seq<Blk>)
    requires k < |fl|
  {
    fl[..if Down(fl, k, b) then k else k + 1] + [Merged(fl, k, b)] + fl[if Up(fl, k, b) then k + 2 else k + 1..]
  }

  lemma PutItems(fl: seq<Blk>, k: nat, b: Blk)
    requires k < |fl|
    ensures var d, u, r := if Down(fl, k, b) then 0 else 1, if Up(fl, k, b) then 1 else 0, Put(fl, k, b);
            && |r| == |fl| + d - u && r[k + d] == Merged(fl, k, b)
            && (forall i | 0 <= i < k + d :: r[i] == fl[i])
            && (forall i | k + d < i < |r| :: r[i] == fl[i + u - d])
  {}

  /** `b` has no unit in common with the list. */
  ghost predicate ApartFrom(fl: seq<Blk>, b: Blk) {
    forall u | Within(b, u) :: !InFree(fl, u)
  }

  lemma ApartAt(fl: seq<Blk>, b: Blk, i: nat)
    requires ApartFrom(fl, b) && Sorted(fl) && i < |fl| && b.size > 0 && fl[0].addr < b.addr
    ensures fl[i].addr + fl[i].size <= b.addr || b.addr + b.size <= fl[i].addr
  {
    if i > 0 && fl[i].addr < b.addr + b.size && b.addr < fl[i].addr + fl[i].size {
      Common(fl, b, i, if fl[i].addr > b.addr then fl[i].addr else b.addr);
    }
  }

  lemma Common(fl: seq<Blk>, b: Blk, i: nat, u: int)
    requires i < |fl| && Within(fl[i], u) && Within(b, u)
    ensures !ApartFrom(fl, b)
  {
    assert InFree(fl, u);
  }

  lemma PutSorted(fl: seq<Blk>, k: nat, b: Blk)
    requires Sorted(fl) && b.size > 0 && fl[0].addr < b.addr && ApartFrom(fl, b)
    requires k < |fl| && fl[k].addr < b.addr && (k + 1 < |fl| ==> b.addr <= fl[k + 1].addr)
    ensures Sorted(Put(fl, k, b)) && Put(fl, k, b)[0] == fl[0]
  {
    PutItems(fl, k, b);
    ApartAt(fl, b, k);
    if k + 1 < |fl| { ApartAt(fl, b, k + 1); }
    var r := Put(fl, k, b);
    hide Put, ApartFrom;
    forall i, j | 0 <= i < j < |r| ensures r[i].addr + r[i].size < r[j].addr { PutPair(fl, k, b, i, j); }
  }

  /** What stands at position `i` after Put. */
  lemma PutAt(fl: seq<Blk>, k: nat, b: Blk, i: nat)
    requires k < |fl| && i < |Put(fl, k, b)|
    ensures var d, u := if Down(fl, k, b) then 0 else 1, if Up(fl, k, b) then 1 else 0;
            && |Put(fl, k, b)| == |fl| + d - u && i + u - d < |fl| + (if i <= k + d then 1 else 0)
            && Put(fl, k, b)[i] == if i < k + d then fl[i] else if i == k + d then Merged(fl, k, b) else fl[i + u - d]
  {}

  lemma PutPair(fl: seq<Blk>, k: nat, b: Blk, i: nat, j: nat)
    requires Sorted(fl) && k < |fl| && fl[k].addr + fl[k].size <= b.addr && b.size > 0
    requires k + 1 < |fl| ==> b.addr + b.size <= fl[k + 1].addr
    requires i < j < |Put(fl, k, b)|
    ensures var r := Put(fl, k, b); r[i].addr + r[i].size < r[j].addr
  {
    PutAt(fl, k, b, i);
    PutAt(fl, k, b, j);
    var d, u := if Down(fl, k, b) then 0 else 1, if Up(fl, k, b) then 1 else 0;
    hide Put, Sorted;
    if j < k + d { Before(fl, i, j); }
    else if j == k + d { if i < k { Before(fl, i, k); } }
    else if i < k + d { Before(fl, i, j + u - d); }
    else if i > k + d { Before(fl, i + u - d, j + u - d); }
    else { AfterMerged(fl, k, b, j + u - d); }
  }

  lemma AfterMerged(fl: seq<Blk>, k: nat, b: Blk, j: nat)
    requires Sorted(fl) && k + (if Up(fl, k, b) then 1 else 0) < j < |fl| && b.addr + b.size <= fl[k + 1].addr
    ensures Merged(fl, k, b).addr + Merged(fl, k, b).size < fl[j].addr
  {
    if k + 1 < j { Before(fl, k + 1, j); }
  }

  lemma PutUnits(fl: seq<Blk>, k: nat, b: Blk, u: int)
    requires k < |fl|
    ensures InFree(Put(fl, k, b), u) <==> InFree(fl, u) || Within(b, u)
  {
    PutItems(fl, k, b);
    var d, up, r := if Down(fl, k, b) then 0 else 1, if Up(fl, k, b) then 1 else 0, Put(fl, k, b);
    hide Put;
    if InFree(r, u) {
      var i :| 0 <= i < |r| && Within(r[i], u);
      if i < k + d { assert Within(fl[i], u); }
      else if i > k + d { assert Within(fl[i + up - d], u); }
      else if !Within(b, u) { assert Within(fl[if u < b.addr then k else k + 1], u); }
    }
    if InFree(fl, u) {
      var i :| 0 <= i < |fl| && Within(fl[i], u);
      var j := if i < k + d then i else if i < k + 1 + up then k + d else i + d - up;
      assert Within(r[j], u);
    }
    if Within(b, u) { assert Within(r[k + d], u); }
  }

  // ----- handing a block out

  /** `n` units leave entry `k`: the whole entry, or its tail. */
  function Take(fl: seq<Blk>, k: nat, n: nat): (r: seq<Blk>)
    requires k < |fl| && n <= fl[k].size
  {
    if fl[k].size == n then fl[..k] + fl[k + 1..] else fl[k := Blk(fl[k].addr, fl[k].size - n)]
  }

  function Taken(fl: seq<Blk>, k: nat, n: nat): (r: Blk)
    requires k < |fl| && n <= fl[k].size
  {
    Blk(fl[k].addr + fl[k].size - n, n)
  }

  lemma TakeItems(fl: seq<Blk>, k: nat, n: nat)
    requires k < |fl| && n <= fl[k].size
    ensures var r, d := Take(fl, k, n), if fl[k].size == n then 1 else 0;
            && |r| == |fl| - d
            && (forall i | 0 <= i < k :: r[i] == fl[i])
            && (forall i | k + 1 - d <= i < |r| :: r[i] == fl[i + d])
            && (d == 0 ==> r[k] == Blk(fl[k].addr, fl[k].size - n))
  {}

  lemma TakeSorted(fl: seq<Blk>, k: nat, n: nat)
    requires Sorted(fl) && k < |fl| && 0 < n <= fl[k].size
    ensures k > 0 && Sorted(Take(fl, k, n)) && Take(fl, k, n)[0] == fl[0]
  {
    TakeItems(fl, k, n);
    var r, d := Take(fl, k, n), if fl[k].size == n then 1 else 0;
    hide Take;
    forall i, j | 0 <= i < j < |r| ensures r[i].addr + r[i].size < r[j].addr {
      Before(fl, if i < k then i else i + d, if j < k then j else j + d);
    }
  }

  lemma TakeUnits(fl: seq<Blk>, k: nat, n: nat, u: int)
    requires Sorted(fl) && k < |fl| && 0 < n <= fl[k].size
    ensures InFree(fl, u) <==> InFree(Take(fl, k, n), u) || Within(Taken(fl, k, n), u)
    ensures Within(Taken(fl, k, n), u) ==> !InFree(Take(fl, k, n), u)
  {
    hide Take, Sorted, InFree;
    if InFree(Take(fl, k, n), u) { TakeLeft(fl, k, n, u); }
    if InFree(fl, u) && !Within(Taken(fl, k, n), u) { TakeRest(fl, k, n, u); }
    if Within(Taken(fl, k, n), u) { InEntry(fl, k, u); }
  }

  lemma InEntry(fl: seq<Blk>, k: nat, u: int)
    requires k < |fl| && Within(fl[k], u)
    ensures InFree(fl, u)
  {}

  lemma TakeLeft(fl: seq<Blk>, k: nat, n: nat, u: int)
    requires Sorted(fl) && k < |fl| && 0 < n <= fl[k].size && InFree(Take(fl, k, n), u)
    ensures InFree(fl, u) && !Within(Taken(fl, k, n), u)
  {
    TakeItems(fl, k, n);
    var r, d := Take(fl, k, n), if fl[k].size == n then 1 else 0;
    hide Take, Sorted;
    var i :| 0 <= i < |r| && Within(r[i], u);
    var i' := if i < k then i else i + d;
    if i' < k { Before(fl, i', k); } else if i' > k { Before(fl, k, i'); }
    InEntry(fl, i', u);
  }

  lemma TakeRest(fl: seq<Blk>, k: nat, n: nat, u: int)
    requires k < |fl| && 0 < n <= fl[k].size && InFree(fl, u) && !Within(Taken(fl, k, n), u)
    ensures InFree(Take(fl, k, n), u)
  {
    TakeItems(fl, k, n);
    var r, d := Take(fl, k, n), if fl[k].size == n then 1 else 0;
    hide Take;
    var i :| 0 <= i < |fl| && Within(fl[i], u);
    InEntry(r, if i <= k then i else i - d, u);
  }

  // ----- the headers that the code writes

  /** free() has found the entry `k` before block `b`: the headers it writes. */
  function PutMem(mem: map<nat, Header>, fl: seq<Blk>, k: nat, b: Blk): (r: map<nat, Header>)
    requires Rep(mem, fl) && k < |fl|
  {
    var p := fl[k].addr;
    RepAt(mem, fl, k);
    var next := mem[p].ptr;
    var h := if b.addr + b.size == next && next in mem then Header(mem[next].ptr, b.size + mem[next].size) else Header(next, b.size);
    var mem1 := mem[b.addr := h];
    if p + mem[p].size == b.addr then mem1[p := Header(h.ptr, mem[p].size + h.size)]
    else mem1[p := Header(b.addr, mem[p].size)]
  }

  lemma Distinct(fl: seq<Blk>, i: nat, j: nat)
    requires Sorted(fl) && i < |fl| && j < |fl| && i != j
    ensures fl[i].addr != fl[j].addr
  {
    if i < j { Before(fl, i, j); } else { Before(fl, j, i); }
  }

  /** Where the merged entry points. */
  function AfterPut(fl: seq<Blk>, k: nat, b: Blk): (r: nat)
    requires k < |fl|
  {
    if Up(fl, k, b) then Nxt(fl, k + 1) else Nxt(fl, k)
  }

  lemma PutMemIs(mem: map<nat, Header>, fl: seq<Blk>, k: nat, b: Blk)
    requires Rep(mem, fl) && k < |fl| && fl[0].addr < b.addr
    ensures var h := Header(AfterPut(fl, k, b), b.size + if Up(fl, k, b) then fl[k + 1].size else 0);
            PutMem(mem, fl, k, b)
            == mem[b.addr := h][fl[k].addr := if Down(fl, k, b) then Header(h.ptr, fl[k].size + h.size) else Header(b.addr, fl[k].size)]
  {
    RepAt(mem, fl, k);
    if k + 1 < |fl| { RepAt(mem, fl, k + 1); }
    hide Rep, InMem;
  }

  lemma PutNxt(fl: seq<Blk>, k: nat, b: Blk, i: nat)
    requires k < |fl| && i < |Put(fl, k, b)| && (k == 0 ==> !Down(fl, k, b))
    ensures var d, u := if Down(fl, k, b) then 0 else 1, if Up(fl, k, b) then 1 else 0;
            Nxt(Put(fl, k, b), i)
            == if i + 1 == k + d then Merged(fl, k, b).addr else if i < k + d then fl[i + 1].addr else if i == k + d then AfterPut(fl, k, b) else Nxt(fl, i + u - d)
  {
    PutAt(fl, k, b, 0);
    PutAt(fl, k, b, i);
    if i + 1 < |Put(fl, k, b)| { PutAt(fl, k, b, i + 1); }
    hide Put;
  }

  lemma PutRepAt(mem: map<nat, Header>, fl: seq<Blk>, k: nat, b: Blk, i: nat)
    requires Sorted(fl) && Rep(mem, fl) && k < |fl| && fl[0].addr < b.addr && fl[k].addr < b.addr && b.size > 0
    requires (forall j | 0 <= j < |fl| :: fl[j].addr != b.addr) && i < |Put(fl, k, b)|
    ensures var r, m := Put(fl, k, b), PutMem(mem, fl, k, b);
            r[i].addr in m && m[r[i].addr] == Header(Nxt(r, i), r[i].size)
  {
    hide Put, PutMem, Sorted, Rep, InMem;
    if i < k + (if Down(fl, k, b) then 0 else 1) { PutLow(mem, fl, k, b, i); }
    else if i == k + (if Down(fl, k, b) then 0 else 1) { PutMid(mem, fl, k, b); }
    else { PutHigh(mem, fl, k, b, i); }
  }

  lemma PutLow(mem: map<nat, Header>, fl: seq<Blk>, k: nat, b: Blk, i: nat)
    requires Sorted(fl) && Rep(mem, fl) && k < |fl| && fl[0].addr < b.addr && fl[k].addr < b.addr
    requires i < |fl| && fl[i].addr != b.addr && i < |Put(fl, k, b)| && i < k + if Down(fl, k, b) then 0 else 1
    ensures var r, m := Put(fl, k, b), PutMem(mem, fl, k, b);
            r[i].addr in m && m[r[i].addr] == Header(Nxt(r, i), r[i].size)
  {
    hide Put, PutMem, Sorted, Rep, InMem, AfterPut;
    NotBase(fl, k, b);
    PutAt(fl, k, b, i);
    PutNxt(fl, k, b, i);
    PutMemIs(mem, fl, k, b);
    RepAt(mem, fl, i);
    if i != k { Distinct(fl, i, k); }
  }

  lemma PutMid(mem: map<nat, Header>, fl: seq<Blk>, k: nat, b: Blk)
    requires Sorted(fl) && Rep(mem, fl) && k < |fl| && fl[0].addr < b.addr && fl[k].addr < b.addr
    ensures var r, m, i := Put(fl, k, b), PutMem(mem, fl, k, b), k + if Down(fl, k, b) then 0 else 1;
            i < |r| && r[i].addr in m && m[r[i].addr] == Header(Nxt(r, i), r[i].size)
  {
    hide Put, PutMem, Sorted, Rep, InMem, AfterPut;
    var i := k + if Down(fl, k, b) then 0 else 1;
    NotBase(fl, k, b);
    PutItems(fl, k, b);
    PutNxt(fl, k, b, i);
    PutMemIs(mem, fl, k, b);
  }

  lemma PutHigh(mem: map<nat, Header>, fl: seq<Blk>, k: nat, b: Blk, i: nat)
    requires Sorted(fl) && Rep(mem, fl) && k < |fl| && fl[0].addr < b.addr && fl[k].addr < b.addr
    requires i < |Put(fl, k, b)| && i > k + if Down(fl, k, b) then 0 else 1
    requires forall j | 0 <= j < |fl| :: fl[j].addr != b.addr
    ensures var r, m := Put(fl, k, b), PutMem(mem, fl, k, b);
            r[i].addr in m && m[r[i].addr] == Header(Nxt(r, i), r[i].size)
  {
    hide Put, PutMem, Sorted, Rep, InMem, AfterPut;
    var j := i + (if Up(fl, k, b) then 1 else 0) - if Down(fl, k, b) then 0 else 1;
    NotBase(fl, k, b);
    PutAt(fl, k, b, i);
    PutNxt(fl, k, b, i);
    PutMemIs(mem, fl, k, b);
    RepAt(mem, fl, j);
    Distinct(fl, j, k);
  }

  lemma NotBase(fl: seq<Blk>, k: nat, b: Blk)
    requires Sorted(fl) && fl[0].addr < b.addr
    ensures k == 0 ==> !Down(fl, k, b)
  {}

  lemma PutRep(mem: map<nat, Header>, fl: seq<Blk>, k: nat, b: Blk)
    requires Sorted(fl) && Rep(mem, fl) && k < |fl| && fl[0].addr < b.addr && fl[k].addr < b.addr && b.size > 0
    requires forall j | 0 <= j < |fl| :: fl[j].addr != b.addr
    ensures Rep(PutMem(mem, fl, k, b), Put(fl, k, b))
  {
    hide Put, PutMem, Sorted;
    var r, m := Put(fl, k, b), PutMem(mem, fl, k, b);
    forall i | 0 <= i < |r| ensures r[i].addr in m && m[r[i].addr] == Header(Nxt(r, i), r[i].size) {
      PutRepAt(mem, fl, k, b, i);
    }
  }

  /** malloc() takes `n` units from entry `k`, whose predecessor is entry `k - 1`: the headers it writes. */
  function TakeMem(mem: map<nat, Header>, fl: seq<Blk>, k: nat, n: nat): (r: map<nat, Header>)
    requires Rep(mem, fl) && 0 < k < |fl| && n <= fl[k].size
  {
    RepAt(mem, fl, k);
    RepAt(mem, fl, k - 1);
    var p, prev := fl[k].addr, fl[k - 1].addr;
    if mem[p].size == n then mem[prev := mem[prev].(ptr := mem[p].ptr)]
    else
      var t := p + mem[p].size - n;
      mem[p := mem[p].(size := mem[p].size - n)][t := Header(if t in mem then mem[t].ptr else 0, n)]
  }

  /** The headers after malloc has taken its units, one by one. */
  lemma TakeMemIs(mem: map<nat, Header>, fl: seq<Blk>, k: nat, n: nat, x: nat)
    requires Rep(mem, fl) && 0 < k < |fl| && n <= fl[k].size && x in mem
    ensures var m, t, p, prev := TakeMem(mem, fl, k, n), Taken(fl, k, n).addr, fl[k].addr, fl[k - 1].addr;
            && x in m
            && (fl[k].size == n ==> m[x] == if x == prev then Header(Nxt(fl, k), fl[k - 1].size) else mem[x])
            && (fl[k].size != n && x != t ==> m[x] == if x == p then Header(Nxt(fl, k), fl[k].size - n) else mem[x])
  {
    RepAt(mem, fl, k);
    RepAt(mem, fl, k - 1);
    hide Rep, InMem;
  }

  lemma TakeNxt(fl: seq<Blk>, k: nat, n: nat, i: nat)
    requires 0 < k < |fl| && n <= fl[k].size && i < |Take(fl, k, n)|
    ensures var d := if fl[k].size == n then 1 else 0;
            Nxt(Take(fl, k, n), i) == if d == 1 && i + 1 == k then Nxt(fl, k) else if i < k then Nxt(fl, i) else Nxt(fl, i + d)
  {
    TakeItems(fl, k, n);
    hide Take;
  }

  lemma TakeRepAt(mem: map<nat, Header>, fl: seq<Blk>, k: nat, n: nat, i: nat)
    requires Sorted(fl) && Rep(mem, fl) && 0 < k < |fl| && 0 < n <= fl[k].size && i < |Take(fl, k, n)|
    ensures var r, m := Take(fl, k, n), TakeMem(mem, fl, k, n);
            r[i].addr in m && m[r[i].addr] == Header(Nxt(r, i), r[i].size)
  {
    hide Take, TakeMem, Sorted, Rep, InMem;
    var d := if fl[k].size == n then 1 else 0;
    TakeItems(fl, k, n);
    TakeNxt(fl, k, n, i);
    var i' := if i < k then i else i + d;
    RepAt(mem, fl, i');
    TakeMemIs(mem, fl, k, n, fl[i'].addr);
    if i' != k - 1 { Distinct(fl, i', k - 1); }
    if i' != k { Distinct(fl, i', k); }
    if i' < k { Before(fl, i', k); }
    if i' > k { Before(fl, k, i'); }
  }

  lemma TakeRep(mem: map<nat, Header>, fl: seq<Blk>, k: nat, n: nat)
    requires Sorted(fl) && Rep(mem, fl) && 0 < k < |fl| && 0 < n <= fl[k].size
    ensures Rep(TakeMem(mem, fl, k, n), Take(fl, k, n))
    ensures Taken(fl, k, n).addr in TakeMem(mem, fl, k, n) && TakeMem(mem, fl, k, n)[Taken(fl, k, n).addr].size == n
  {
    RepAt(mem, fl, k);
    RepAt(mem, fl, k - 1);
    Distinct(fl, k - 1, k);
    var r, m := Take(fl, k, n), TakeMem(mem, fl, k, n);
    forall i | 0 <= i < |r| ensures r[i].addr in m && m[r[i].addr] == Header(Nxt(r, i), r[i].size) {
      hide Take, TakeMem, Sorted;
      TakeRepAt(mem, fl, k, n, i);
    }
  }
}
