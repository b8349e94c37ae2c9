/** What a cache does in terms of memory blocks: which addresses share a block, which blocks share a set,
    and which accesses hit, whatever the split of an address into set index and tag. */
module LruBlocks {
  import opened Counting
  import opened LruStack

  // ----- set index and tag of an address

  lemma Times(k: nat, n: nat)
    requires k > 0
    ensures k * n >= n
  {
    assert k * n == (k - 1) * n + n;
  }

  lemma DivUnique(x: nat, n: nat, q: nat, r: nat)
    requires n > 0 && r < n && x == q * n + r
    ensures x / n == q && x % n == r
  {
    var q' := x / n;
    assert x == q' * n + x % n && 0 <= x % n < n;
    if q' > q {
      assert (q' - q) * n == q' * n - q * n;
      Times(q' - q, n);
    } else if q' < q {
      assert (q - q') * n == q * n - q' * n;
      Times(q - q', n);
    }
  }

  lemma {:induction false} Pow2Sum(m: nat, n: nat)
    ensures Pow2(m + n) == Pow2(m) * Pow2(n)
  {
    if m > 0 { Pow2Sum(m - 1, n); }
  }

  lemma Products(t: nat, u: nat, d: nat, e: nat)
    ensures (t * e + u) * d == t * (d * e) + u * d
    ensures u < e ==> u * d + d <= d * e
  {
    assert (t * e + u) * d == (t * e) * d + u * d;
    if u < e {
      assert d * e == (u + 1) * d + (e - u - 1) * d;
      assert (u + 1) * d == u * d + d;
    }
  }

  /** Dividing twice is dividing by the product. */
  lemma DivTwice(a: nat, d: nat, e: nat)
    requires d > 0 && e > 0
    ensures d * e > 0 && a / (d * e) == a / d / e
  {
    Times(e, d);
    DivSteps(a, d, e, a / d, a % d, a / d / e, a / d % e);
  }

  lemma DivSteps(a: nat, d: nat, e: nat, q: nat, m: nat, t: nat, u: nat)
    requires d > 0 && e > 0 && d * e > 0 && a == q * d + m && m < d && q == t * e + u && u < e
    ensures a / (d * e) == t
  {
    Products(t, u, d, e);
    DivUnique(a, d * e, t, u * d + m);
  }

  /** The memory block of an address: its bits above the lowest `b`. */
  function BlockOf(shape: Shape, addr: nat): (r: nat) {
    Pow2Positive(shape.b);
    Quotient(addr, Pow2(shape.b));
    addr / Pow2(shape.b)
  }

  /** Set index and tag are the remainder and the quotient of the block number. */
  lemma SplitBlock(shape: Shape, addr: nat)
    ensures var k := BlockOf(shape, addr);
            shape.SetOf(addr) == k % shape.Sets() && shape.TagOf(addr) == k / shape.Sets()
            && k == shape.TagOf(addr) * shape.Sets() + shape.SetOf(addr)
  {
    Pow2Positive(shape.s);
    Pow2Positive(shape.b);
    Pow2Sum(shape.b, shape.s);
    DivTwice(addr, Pow2(shape.b), Pow2(shape.s));
    assert shape.s + shape.b == shape.b + shape.s;
  }

  /** Set index and tag together tell the block, no more and no less. */
  lemma SameBlock(shape: Shape, a: nat, a': nat)
    ensures Pow2(shape.b) > 0
    ensures shape.SetOf(a) == shape.SetOf(a') && shape.TagOf(a) == shape.TagOf(a') <==> a / Pow2(shape.b) == a' / Pow2(shape.b)
  {
    Pow2Positive(shape.b);
    SplitBlock(shape, a);
    SplitBlock(shape, a');
    assert BlockOf(shape, a) == a / Pow2(shape.b) && BlockOf(shape, a') == a' / Pow2(shape.b);
    hide Shape.SetOf, Shape.TagOf, BlockOf;
  }

  lemma NextRemainder(k: nat, n: nat)
    requires n > 0
    ensures (k + 1) % n == (k % n + 1) % n
  {
    var q, r := k / n, k % n;
    assert k == q * n + r;
    if r + 1 < n {
      DivUnique(k + 1, n, q, r + 1);
      DivUnique(r + 1, n, 0, r + 1);
    } else {
      assert k + 1 == (q + 1) * n + 0;
      DivUnique(k + 1, n, q + 1, 0);
      DivUnique(r + 1, n, 1, 0);
    }
  }

  lemma BlockAfter(shape: Shape, a: nat)
    ensures BlockOf(shape, a + Pow2(shape.b)) == BlockOf(shape, a) + 1
  {
    Pow2Positive(shape.b);
    NextQuotient(a, Pow2(shape.b));
    hide Pow2;
  }

  lemma NextQuotient(a: nat, d: nat)
    requires d > 0
    ensures (a + d) / d == a / d + 1
  {
    var q, r := a / d, a % d;
    assert a == q * d + r;
    assert (q + 1) * d == q * d + d;
    DivUnique(a + d, d, q + 1, r);
  }

  /** The next block belongs to the next set, going round. */
  lemma NextBlock(shape: Shape, a: nat)
    ensures shape.SetOf(a + Pow2(shape.b)) == (shape.SetOf(a) + 1) % shape.Sets()
  {
    BlockAfter(shape, a);
    SplitBlock(shape, a);
    SplitBlock(shape, a + Pow2(shape.b));
    NextRemainder(BlockOf(shape, a), shape.Sets());
    hide Shape.SetOf, Shape.TagOf, BlockOf;
  }

  // ----- the order of tags in one set

  /** The tags used since the last use of `t`. */
  function TagsSince(h: seq<Tag>, t: Tag): (r: set<Tag>) {
    if h == [] || h[|h| - 1] == t then {} else TagsSince(h[..|h| - 1], t) + {h[|h| - 1]}
  }

  /** The tags in front of `t`. */
  function Ahead(s: seq<Tag>, t: Tag): (r: set<Tag>)
    ensures forall x | x in r :: x in s && x != t
  {
    if s == [] || s[0] == t then {} else {s[0]} + Ahead(s[1..], t)
  }

  lemma {:induction false} AheadWithout(s: seq<Tag>, a: Tag, t: Tag)
    requires a != t
    ensures Ahead(Without(s, a), t) == Ahead(s, t) - {a}
  {
    if s != [] {
      AheadWithout(s[1..], a, t);
      if s[0] != a { assert ([s[0]] + Without(s[1..], a))[1..] == Without(s[1..], a); }
    }
  }

  /** What stands in front of a tag in the order of last use has been used since. */
  lemma {:induction false} AheadSince(h: seq<Tag>, t: Tag)
    requires t in h
    ensures Ahead(Recent(h), t) == TagsSince(h, t)
  {
    var h', a := h[..|h| - 1], h[|h| - 1];
    assert h == h' + [a];
    assert ([a] + Without(Recent(h'), a))[1..] == Without(Recent(h'), a);
    if a != t {
      AheadSince(h', t);
      AheadWithout(Recent(h'), a, t);
    }
  }

  /** A tag is among the first `e` when fewer than `e` stand in front of it. */
  lemma {:induction false} TakeAhead(s: seq<Tag>, t: Tag, e: nat)
    requires Distinct(s) && t in s
    ensures t in Take(s, e) <==> |Ahead(s, t)| < e
  {
    if s[0] != t {
      assert s[0] !in s[1..] && Distinct(s[1..]);
      if e > 0 {
        TakeAhead(s[1..], t, e - 1);
        assert Take(s, e) == [s[0]] + Take(s[1..], e - 1);
      }
    } else if e > 0 {
      assert Take(s, e)[0] == t;
    }
  }

  lemma {:induction false} TakeFrom(s: seq<Tag>, t: Tag, e: nat)
    ensures t in Take(s, e) ==> t in s
  {
    if s != [] && e > 0 { TakeFrom(s[1..], t, e - 1); }
  }

  /** Among E lines: used before, and fewer than E other tags used since. */
  lemma RecentHit(h: seq<Tag>, t: Tag, e: nat)
    ensures t in Take(Recent(h), e) <==> t in h && |TagsSince(h, t)| < e
  {
    RecentOrder(h);
    TakeFrom(Recent(h), t, e);
    if t in h {
      AheadSince(h, t);
      TakeAhead(Recent(h), t, e);
    }
  }

  // ----- the same in terms of blocks

  /** The block of `addr` has been accessed. */
  predicate Accessed(shape: Shape, trace: seq<nat>, addr: nat) {
    exists q | 0 <= q < |trace| :: BlockOf(shape, trace[q]) == BlockOf(shape, addr)
  }

  /** The other blocks of the set of `addr` that have been accessed since the block of `addr` was. */
  function Since(shape: Shape, trace: seq<nat>, addr: nat): (r: set<nat>) {
    if trace == [] then {}
    else
      var a := trace[|trace| - 1];
      var k, l := BlockOf(shape, addr), BlockOf(shape, a);
      if l == k then {}
      else Since(shape, trace[..|trace| - 1], addr) + if l % shape.Sets() == k % shape.Sets() then {l} else {}
  }

  /** All blocks of the set of `addr` that have been accessed. */
  function InSet(shape: Shape, trace: seq<nat>, addr: nat): (r: set<nat>) {
    set q | 0 <= q < |trace| && BlockOf(shape, trace[q]) % shape.Sets() == BlockOf(shape, addr) % shape.Sets() :: BlockOf(shape, trace[q])
  }

  /** Since, without recursion: accessed at some place, and the block of `addr` neither there nor later. */
  lemma {:induction false} SinceMeans(shape: Shape, trace: seq<nat>, addr: nat, x: nat)
    ensures x in Since(shape, trace, addr) <==>
              x % shape.Sets() == BlockOf(shape, addr) % shape.Sets()
              && exists q | 0 <= q < |trace| :: BlockOf(shape, trace[q]) == x
                   && forall p | q <= p < |trace| :: BlockOf(shape, trace[p]) != BlockOf(shape, addr)
  {
    hide BlockOf;
    if trace != [] {
      var n := |trace| - 1;
      var t := trace[..n];
      SinceMeans(shape, t, addr, x);
      if x in Since(shape, trace, addr) {
        if BlockOf(shape, trace[n]) != x {
          var q :| 0 <= q < |t| && BlockOf(shape, t[q]) == x && forall p | q <= p < |t| :: BlockOf(shape, t[p]) != BlockOf(shape, addr);
          assert BlockOf(shape, trace[q]) == x;
          forall p | q <= p < |trace| ensures BlockOf(shape, trace[p]) != BlockOf(shape, addr) {
            if p < n { assert t[p] == trace[p]; }
          }
        }
      }
      if q :| 0 <= q < |trace| && BlockOf(shape, trace[q]) == x && forall p | q <= p < |trace| :: BlockOf(shape, trace[p]) != BlockOf(shape, addr) {
        assert BlockOf(shape, trace[n]) != BlockOf(shape, addr);
        if q < n {
          assert t[q] == trace[q];
          assert forall p | q <= p < |t| :: t[p] == trace[p];
        }
      }
    }
  }

  // ----- blocks of one set and their tags

  function Tagged(n: nat, i: nat, y: Tag): (r: nat) { y * n + i }

  function TagPart(n: nat, x: nat): (r: Tag)
    requires n > 0
  {
    Quotient(x, n);
    x / n
  }

  function SetPart(n: nat, x: nat): (r: nat)
    requires n > 0
  {
    x % n
  }

  lemma TaggedParts(n: nat, i: nat, y: Tag)
    requires i < n
    ensures TagPart(n, Tagged(n, i, y)) == y && SetPart(n, Tagged(n, i, y)) == i
  {
    DivUnique(y * n + i, n, y, i);
  }

  lemma PartsTagged(n: nat, x: nat)
    requires n > 0
    ensures Tagged(n, SetPart(n, x), TagPart(n, x)) == x
  {}

  /** The blocks are those of set `i` with these tags. */
  ghost predicate SameSize(n: nat, blocks: set<nat>, tags: set<Tag>, i: nat)
    requires n > 0
  {
    && (forall x | x in blocks :: SetPart(n, x) == i && TagPart(n, x) in tags)
    && (forall y | y in tags :: Tagged(n, i, y) in blocks)
  }

  lemma {:induction false} SizesAgree(n: nat, blocks: set<nat>, tags: set<Tag>, i: nat)
    requires i < n && SameSize(n, blocks, tags, i)
    ensures |blocks| == |tags|
    decreases tags
  {
    hide Tagged, TagPart, SetPart;
    if tags == {} {
      assert forall x | x in blocks :: TagPart(n, x) in tags;
      assert blocks == {};
    } else {
      var y :| y in tags;
      var x := Tagged(n, i, y);
      TaggedParts(n, i, y);
      var blocks', tags' := blocks - {x}, tags - {y};
      forall z | z in blocks' ensures SetPart(n, z) == i && TagPart(n, z) in tags' { PartsTagged(n, z); }
      forall z | z in tags' ensures Tagged(n, i, z) in blocks' { TaggedParts(n, i, z); }
      SizesAgree(n, blocks', tags', i);
    }
  }

  lemma OneMore(n: nat, blocks: set<nat>, tags: set<Tag>, i: nat, x: nat)
    requires n > 0 && SameSize(n, blocks, tags, i)
    ensures SetPart(n, x) == i ==> SameSize(n, blocks + {x}, tags + {TagPart(n, x)}, i)
  {
    hide Tagged, TagPart, SetPart;
    PartsTagged(n, x);
  }

  /** Set index and tag of an address, from its block. */
  lemma PartsOf(shape: Shape, a: nat)
    ensures var k, n := BlockOf(shape, a), shape.Sets();
            shape.SetOf(a) == SetPart(n, k) < n && shape.TagOf(a) == TagPart(n, k)
  {
    SplitBlock(shape, a);
    hide Shape.SetOf, Shape.TagOf, BlockOf;
  }

  lemma {:induction false} SinceTags(shape: Shape, trace: seq<nat>, addr: nat)
    ensures var i := shape.SetOf(addr);
            SameSize(shape.Sets(), Since(shape, trace, addr), TagsSince(shape.TagsIn(trace, i), shape.TagOf(addr)), i)
  {
    if trace != [] {
      var a, t := trace[|trace| - 1], trace[..|trace| - 1];
      SinceTags(shape, t, addr);
      assert trace == t + [a];
      SinceNext(shape, t, a, addr);
    }
  }

  lemma SinceStep(shape: Shape, t: seq<nat>, a: nat, addr: nat)
    ensures var k, l := BlockOf(shape, addr), BlockOf(shape, a);
            Since(shape, t + [a], addr) ==
              if l == k then {}
              else Since(shape, t, addr) + if SetPart(shape.Sets(), l) == SetPart(shape.Sets(), k) then {l} else {}
  {
    hide BlockOf;
    assert (t + [a])[..|t|] == t && (t + [a])[|t|] == a;
  }

  lemma TagsSinceStep(h: seq<Tag>, x: Tag, t: Tag)
    ensures TagsSince(h + [x], t) == if x == t then {} else TagsSince(h, t) + {x}
  {
    assert (h + [x])[..|h|] == h;
  }

  /** One more access: block `l`, seen from block `k` of set `i`. */
  lemma SameSizeStep(n: nat, blocks: set<nat>, tags: set<Tag>, i: nat, k: nat, l: nat)
    requires n > 0 && SameSize(n, blocks, tags, i) && SetPart(n, k) == i
    ensures SameSize(n, if l == k then {} else blocks + if SetPart(n, l) == i then {l} else {},
                     if SetPart(n, l) != i then tags else if TagPart(n, l) == TagPart(n, k) then {} else tags + {TagPart(n, l)}, i)
  {
    PartsTagged(n, k);
    PartsTagged(n, l);
    OneMore(n, blocks, tags, i, l);
    hide Tagged, TagPart, SetPart;
    assert blocks + {} == blocks;
  }

  lemma SinceNext(shape: Shape, t: seq<nat>, a: nat, addr: nat)
    requires var i := shape.SetOf(addr);
             SameSize(shape.Sets(), Since(shape, t, addr), TagsSince(shape.TagsIn(t, i), shape.TagOf(addr)), i)
    ensures var i := shape.SetOf(addr);
            SameSize(shape.Sets(), Since(shape, t + [a], addr), TagsSince(shape.TagsIn(t + [a], i), shape.TagOf(addr)), i)
  {
    var i, n, h := shape.SetOf(addr), shape.Sets(), shape.TagsIn(t, shape.SetOf(addr));
    SinceStep(shape, t, a, addr);
    TagsSinceStep(h, shape.TagOf(a), shape.TagOf(addr));
    PartsOf(shape, a);
    PartsOf(shape, addr);
    shape.NextTags(t, a, i);
    SameSizeStep(n, Since(shape, t, addr), TagsSince(h, shape.TagOf(addr)), i, BlockOf(shape, addr), BlockOf(shape, a));
    hide Since, TagsSince, Pow2, Shape.Sets, Shape.SetOf, Shape.TagOf, BlockOf, Shape.TagsIn, Tagged, TagPart, SetPart, SameSize;
  }

  lemma {:induction false} InSetTags(shape: Shape, trace: seq<nat>, addr: nat)
    ensures var i := shape.SetOf(addr);
            SameSize(shape.Sets(), InSet(shape, trace, addr), Members(shape.TagsIn(trace, i)), i)
  {
    if trace != [] {
      var a, t := trace[|trace| - 1], trace[..|trace| - 1];
      InSetTags(shape, t, addr);
      assert trace == t + [a];
      InSetMore(shape, t, a, addr);
    }
  }

  lemma MembersMore(h: seq<Tag>, t: Tag)
    ensures Members(h + [t]) == Members(h) + {t}
  {}

  lemma InSetMore(shape: Shape, t: seq<nat>, a: nat, addr: nat)
    requires var i := shape.SetOf(addr);
             SameSize(shape.Sets(), InSet(shape, t, addr), Members(shape.TagsIn(t, i)), i)
    ensures var i := shape.SetOf(addr);
            SameSize(shape.Sets(), InSet(shape, t + [a], addr), Members(shape.TagsIn(t + [a], i)), i)
  {
    var i, n := shape.SetOf(addr), shape.Sets();
    var k, l, h := BlockOf(shape, addr), BlockOf(shape, a), shape.TagsIn(t, shape.SetOf(addr));
    PartsOf(shape, a);
    PartsOf(shape, addr);
    shape.NextTags(t, a, i);
    InSetNext(shape, t, a, addr);
    OneMore(n, InSet(shape, t, addr), Members(h), i, l);
    assert SetPart(n, l) == l % n && SetPart(n, k) == k % n;
    MembersMore(h, shape.TagOf(a));
    hide Members, Accessed, Since, TagsSince, Recent, Pow2, Shape.Sets, Shape.SetOf, Shape.TagOf, BlockOf, Shape.TagsIn, Tagged, TagPart, SetPart, SameSize, InSet;
  }

  lemma InSetNext(shape: Shape, trace: seq<nat>, a: nat, addr: nat)
    ensures InSet(shape, trace + [a], addr) ==
              InSet(shape, trace, addr) + if BlockOf(shape, a) % shape.Sets() == BlockOf(shape, addr) % shape.Sets() then {BlockOf(shape, a)} else {}
  {
    hide BlockOf;
    var t := trace + [a];
    var s := if BlockOf(shape, a) % shape.Sets() == BlockOf(shape, addr) % shape.Sets() then {BlockOf(shape, a)} else {};
    forall x ensures x in InSet(shape, t, addr) <==> x in InSet(shape, trace, addr) + s {
      if x in InSet(shape, t, addr) {
        var q :| 0 <= q < |t| && BlockOf(shape, t[q]) % shape.Sets() == BlockOf(shape, addr) % shape.Sets() && x == BlockOf(shape, t[q]);
        if q < |trace| { assert trace[q] == t[q]; }
      }
      if x in InSet(shape, trace, addr) {
        var q :| 0 <= q < |trace| && BlockOf(shape, trace[q]) % shape.Sets() == BlockOf(shape, addr) % shape.Sets() && x == BlockOf(shape, trace[q]);
        assert t[q] == trace[q];
      }
      if x in s { assert t[|trace|] == a; }
    }
  }

  lemma AccessedTag(shape: Shape, trace: seq<nat>, addr: nat)
    ensures Accessed(shape, trace, addr) <==> shape.TagOf(addr) in shape.TagsIn(trace, shape.SetOf(addr))
  {
    var i, n, k := shape.SetOf(addr), shape.Sets(), BlockOf(shape, addr);
    InSetTags(shape, trace, addr);
    PartsOf(shape, addr);
    PartsTagged(n, k);
    InSetHas(shape, trace, addr);
    hide Shape.SetOf, Shape.TagOf, BlockOf, Shape.TagsIn, Tagged, TagPart, SetPart, InSet, Accessed;
  }

  lemma InSetHas(shape: Shape, trace: seq<nat>, addr: nat)
    ensures Accessed(shape, trace, addr) <==> BlockOf(shape, addr) in InSet(shape, trace, addr)
  {
    hide BlockOf;
  }

  /** A hit, in terms of blocks: the block has been accessed before, and fewer than `e` other blocks of its
      set have been accessed since. */
  lemma HitMeans(shape: Shape, trace: seq<nat>, addr: nat, e: nat)
    ensures shape.IsHit(trace, addr, e) <==> Accessed(shape, trace, addr) && |Since(shape, trace, addr)| < e
  {
    var i, h := shape.SetOf(addr), shape.TagsIn(trace, shape.SetOf(addr));
    RecentHit(h, shape.TagOf(addr), e);
    AccessedTag(shape, trace, addr);
    SinceTags(shape, trace, addr);
    SizesAgree(shape.Sets(), Since(shape, trace, addr), TagsSince(h, shape.TagOf(addr)), i);
    hide Shape.SetOf, Shape.TagOf, BlockOf, Shape.TagsIn, Since, TagsSince, Accessed, Recent, Take;
  }

  /** A set is full when at least as many of its blocks have been accessed as it has lines. */
  lemma FullMeans(shape: Shape, trace: seq<nat>, addr: nat, e: nat)
    ensures |shape.Contents(trace, shape.SetOf(addr), e)| == e <==> |InSet(shape, trace, addr)| >= e
  {
    var i, h := shape.SetOf(addr), shape.TagsIn(trace, shape.SetOf(addr));
    RecentOrder(h);
    DistinctSize(Recent(h));
    assert Members(Recent(h)) == Members(h);
    InSetTags(shape, trace, addr);
    SizesAgree(shape.Sets(), InSet(shape, trace, addr), Members(h), i);
    hide Shape.SetOf, Shape.TagOf, BlockOf, Shape.TagsIn, InSet, Recent;
  }
}
