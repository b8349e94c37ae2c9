/** Least-recently-used replacement as an order on tags: what a set of E lines has to hold after any
    trace, and how hits, misses and evictions depend on the trace and on E. */
module LruStack {
  import opened Counting

  type Tag = nat

  function Without(s: seq<Tag>, t: Tag): (r: seq<Tag>)
  {
    if s == [] then [] else if s[0] == t then Without(s[1..], t) else [s[0]] + Without(s[1..], t)
  }

  /** The distinct tags of a trace, the most recently used first. */
  function Recent(h: seq<Tag>): (r: seq<Tag>) {
    if h == [] then [] else [h[|h| - 1]] + Without(Recent(h[..|h| - 1]), h[|h| - 1])
  }

  function Take(s: seq<Tag>, n: nat): (r: seq<Tag>)
    ensures |r| == if |s| < n then |s| else n
    ensures forall i | 0 <= i < |r| :: r[i] == s[i]
  {
    if s == [] || n == 0 then [] else [s[0]] + Take(s[1..], n - 1)
  }

  /** One access, on the tags that E lines hold. */
  function Touch(s: seq<Tag>, t: Tag, e: nat): (r: seq<Tag>) {
    if t in s then [t] + Without(s, t) else Take([t] + s, e)
  }

  // ----- Recent is the order of last use

  /** The last position of `t` in `h`, or -1. */
  function LastUse(h: seq<Tag>, t: Tag): (r: int)
    ensures -1 <= r < |h|
  {
    if h == [] then -1 else if h[|h| - 1] == t then |h| - 1 else LastUse(h[..|h| - 1], t)
  }

  lemma {:induction false} WithoutFacts(s: seq<Tag>, t: Tag)
    ensures forall x :: x in Without(s, t) <==> x in s && x != t
    ensures Distinct(s) ==> Distinct(Without(s, t))
    ensures |Without(s, t)| <= |s|
    ensures t !in s ==> Without(s, t) == s
  {
    if s != [] {
      WithoutFacts(s[1..], t);
      assert s == [s[0]] + s[1..];
      if Distinct(s) {
        assert Distinct(s[1..]);
        assert s[0] !in s[1..];
      }
    }
  }

  /** Taking one tag out keeps every order among the others. */
  lemma {:induction false} WithoutKeepsOrder(h: seq<Tag>, s: seq<Tag>, t: Tag)
    requires OrderedBy(h, s)
    ensures OrderedBy(h, Without(s, t))
  {
    if s != [] {
      assert OrderedBy(h, s[1..]);
      WithoutKeepsOrder(h, s[1..], t);
      WithoutFacts(s[1..], t);
      if s[0] != t {
        var w := Without(s[1..], t);
        forall i, j | 0 <= i < j < |[s[0]] + w| ensures LastUse(h, ([s[0]] + w)[i]) > LastUse(h, ([s[0]] + w)[j]) {
          if i == 0 {
            assert w[j - 1] in s[1..];
            var k :| 0 <= k < |s[1..]| && s[1..][k] == w[j - 1];
            assert s[k + 1] == w[j - 1];
          }
        }
      }
    }
  }

  ghost predicate OrderedBy(h: seq<Tag>, s: seq<Tag>) {
    forall i, j | 0 <= i < j < |s| :: LastUse(h, s[i]) > LastUse(h, s[j])
  }

  /** Recent lists exactly the tags of the trace, each once, later last uses first. */
  lemma {:induction false} RecentOrder(h: seq<Tag>)
    ensures forall t :: t in Recent(h) <==> t in h
    ensures Distinct(Recent(h)) && OrderedBy(h, Recent(h))
  {
    if h != [] {
      var h', t := h[..|h| - 1], h[|h| - 1];
      RecentOrder(h');
      WithoutFacts(Recent(h'), t);
      WithoutKeepsOrder(h', Recent(h'), t);
      assert h == h' + [t];
      FrontOrder(h', t, Without(Recent(h'), t));
    }
  }

  lemma FrontOrder(h: seq<Tag>, t: Tag, s: seq<Tag>)
    requires OrderedBy(h, s) && t !in s
    ensures OrderedBy(h + [t], [t] + s)
  {
    assert (h + [t])[..|h|] == h;
    var s' := [t] + s;
    forall i, j | 0 <= i < j < |s'| ensures LastUse(h + [t], s'[i]) > LastUse(h + [t], s'[j]) {
      assert s'[j] == s[j - 1] && s[j - 1] != t;
      if i > 0 { assert s'[i] == s[i - 1] && s[i - 1] != t; }
    }
  }

  // ----- E lines hold the first E tags of Recent

  lemma {:induction false} WithoutAt(s: seq<Tag>, k: nat)
    requires Distinct(s) && k < |s|
    ensures Without(s, s[k]) == s[..k] + s[k + 1..]
  {
    if k == 0 {
      assert s[0] !in s[1..];
      WithoutFacts(s[1..], s[0]);
    } else {
      var r := s[1..];
      assert s[0] != s[k] && Distinct(r) && r[k - 1] == s[k];
      WithoutAt(r, k - 1);
      hide Distinct;
      assert Without(s, s[k]) == [s[0]] + (r[..k - 1] + r[k..]);
      assert s[..k] == [s[0]] + r[..k - 1] && s[k + 1..] == r[k..];
    }
  }

  lemma TakeCons(x: Tag, s: seq<Tag>, n: nat)
    requires n > 0
    ensures Take([x] + s, n) == [x] + Take(s, n - 1)
  {
    assert ([x] + s)[1..] == s;
  }

  lemma {:induction false} TakeWithout(s: seq<Tag>, t: Tag, n: nat)
    requires Distinct(s) && t in Take(s, n)
    ensures n > 0 && Take(Without(s, t), n - 1) == Without(Take(s, n), t)
  {
    var h, r := s[0], s[1..];
    assert Distinct(r) && h !in r;
    if h == t {
      WithoutFacts(r, t);
      assert t !in Take(r, n - 1);
      WithoutFacts(Take(r, n - 1), t);
      assert Take(s, n)[1..] == Take(r, n - 1);
    } else {
      assert t in Take(r, n - 1);
      TakeWithout(r, t, n - 1);
      TakeCons(h, Without(r, t), n - 1);
      assert Take(s, n)[1..] == Take(r, n - 1);
    }
  }

  lemma {:induction false} TakeBeyond(s: seq<Tag>, t: Tag, n: nat)
    requires n > 0 && t !in Take(s, n)
    ensures Take(Without(s, t), n - 1) == Take(s, n - 1)
  {
    if s != [] && n > 1 {
      var h, r := s[0], s[1..];
      assert h == Take(s, n)[0];
      assert Take(r, n - 1) == Take(s, n)[1..];
      TakeBeyond(r, t, n - 1);
      TakeCons(h, Without(r, t), n - 1);
    }
  }

  lemma {:induction false} TakeTwice(s: seq<Tag>, m: nat, n: nat)
    requires m <= n
    ensures Take(Take(s, n), m) == Take(s, m)
  {
    if s != [] && m > 0 {
      TakeTwice(s[1..], m - 1, n - 1);
      TakeCons(s[0], Take(s[1..], n - 1), m);
    }
  }

  lemma WithoutTake(s: seq<Tag>, t: Tag, n: nat)
    requires Distinct(s) && n > 0
    ensures Take([t] + Without(s, t), n) == Touch(Take(s, n), t, n)
  {
    hide Take, Without;
    TakeCons(t, Without(s, t), n);
    if t in Take(s, n) {
      TakeWithout(s, t, n);
    } else {
      TakeBeyond(s, t, n);
      TakeTwice(s, n - 1, n);
      TakeCons(t, Take(s, n), n);
    }
  }

  /** The replacement step on E lines follows the unbounded order. */
  lemma TouchTake(h: seq<Tag>, t: Tag, e: nat)
    requires e > 0
    ensures Take(Recent(h + [t]), e) == Touch(Take(Recent(h), e), t, e)
  {
    assert (h + [t])[..|h|] == h;
    RecentOrder(h);
    WithoutTake(Recent(h), t, e);
  }

  // ----- a whole cache: traces of addresses

  function Pow2(n: nat): (r: nat) { if n == 0 then 1 else 2 * Pow2(n - 1) }

  lemma {:induction false} Pow2Positive(n: nat)
    ensures Pow2(n) > 0
  {
    if n > 0 { Pow2Positive(n - 1); }
  }

  lemma Quotient(a: nat, d: nat)
    requires d > 0
    ensures a / d >= 0
  {}

  datatype Shape = Shape(s: nat, b: nat) {
    function Sets(): (r: nat) ensures r > 0 { Pow2Positive(s); Pow2(s) }

    /** (addr >> b) & ((1 << s) - 1) */
    function SetOf(addr: nat): (r: nat)
      ensures r < Sets()
    {
      Pow2Positive(b);
      Quotient(addr, Pow2(b));
      addr / Pow2(b) % Sets()
    }

    /** addr >> (s + b) */
    function TagOf(addr: nat): (r: Tag) {
      Pow2Positive(s + b);
      Quotient(addr, Pow2(s + b));
      addr / Pow2(s + b)
    }

    /** The tags a trace uses in set `i`, in order. */
    function TagsIn(trace: seq<nat>, i: nat): (r: seq<Tag>) {
      if trace == [] then []
      else
        var a := trace[|trace| - 1];
        TagsIn(trace[..|trace| - 1], i) + if SetOf(a) == i then [TagOf(a)] else []
    }

    /** What set `i` of a cache with `e` lines a set holds after a trace, the most recently used first. */
    function Contents(trace: seq<nat>, i: nat, e: nat): (r: seq<Tag>) {
      Take(Recent(TagsIn(trace, i)), e)
    }

    predicate IsHit(trace: seq<nat>, addr: nat, e: nat) {
      TagOf(addr) in Contents(trace, SetOf(addr), e)
    }

    function Hits(trace: seq<nat>, e: nat): (r: nat) {
      if trace == [] then 0
      else
        var t := trace[..|trace| - 1];
        Hits(t, e) + if IsHit(t, trace[|trace| - 1], e) then 1 else 0
    }

    /** A miss in a full set evicts. */
    function Evictions(trace: seq<nat>, e: nat): (r: nat) {
      if trace == [] then 0
      else
        var t, a := trace[..|trace| - 1], trace[|trace| - 1];
        Evictions(t, e) + if !IsHit(t, a, e) && |Contents(t, SetOf(a), e)| == e then 1 else 0
    }

    /** The valid lines of the first `n` sets. */
    function ValidLines(trace: seq<nat>, e: nat, n: nat): (r: nat) {
      if n == 0 then 0 else ValidLines(trace, e, n - 1) + |Contents(trace, n - 1, e)|
    }

    lemma NextTags(trace: seq<nat>, a: nat, i: nat)
      ensures TagsIn(trace + [a], i) == if SetOf(a) == i then TagsIn(trace, i) + [TagOf(a)] else TagsIn(trace, i)
    {
      hide SetOf, TagOf;
      assert (trace + [a])[..|trace|] == trace;
    }

    lemma NextContents(trace: seq<nat>, a: nat, i: nat, e: nat)
      requires e > 0
      ensures Contents(trace + [a], i, e)
           == if SetOf(a) == i then Touch(Contents(trace, i, e), TagOf(a), e) else Contents(trace, i, e)
    {
      hide SetOf, TagOf, Recent, Touch;
      NextTags(trace, a, i);
      if SetOf(a) == i {
        TouchTake(TagsIn(trace, i), TagOf(a), e);
      }
    }

    /** The contents with `e` lines a set are among those with more lines. */
    lemma Inclusion(trace: seq<nat>, i: nat, e: nat, e': nat)
      requires e <= e'
      ensures Contents(trace, i, e) <= Contents(trace, i, e')
    {}

    /** More lines a set never make fewer hits. */
    lemma {:induction false} HitsMonotone(trace: seq<nat>, e: nat, e': nat)
      requires e <= e'
      ensures Hits(trace, e) <= Hits(trace, e')
    {
      if trace != [] {
        var t := trace[..|trace| - 1];
        HitsMonotone(t, e, e');
        Inclusion(t, SetOf(trace[|trace| - 1]), e, e');
      }
    }

    lemma {:induction false} ValidLinesStep(trace: seq<nat>, a: nat, e: nat, n: nat)
      requires e > 0
      ensures var k := SetOf(a);
              var before, after := |Contents(trace, k, e)|, |Contents(trace + [a], k, e)|;
              ValidLines(trace + [a], e, n) == ValidLines(trace, e, n) + if k < n then after - before else 0
    {
      hide Contents, SetOf, TagOf, Touch;
      if n > 0 {
        ValidLinesStep(trace, a, e, n - 1);
        NextContents(trace, a, n - 1, e);
      }
    }

    lemma TouchLength(trace: seq<nat>, a: nat, e: nat)
      requires e > 0
      ensures var k := SetOf(a);
              |Contents(trace + [a], k, e)| == |Contents(trace, k, e)|
                + if IsHit(trace, a, e) || |Contents(trace, k, e)| == e then 0 else 1
    {
      var k := SetOf(a);
      NextContents(trace, a, k, e);
      var s, t := Contents(trace, k, e), TagOf(a);
      RecentOrder(TagsIn(trace, k));
      assert Distinct(s);
      if t in s { WithoutLength(s, t); }
    }

    lemma {:induction false} NoLines(e: nat, n: nat)
      ensures ValidLines([], e, n) == 0
    {
      if n > 0 { NoLines(e, n - 1); }
    }

    /** Every miss either evicts or fills a line that was not valid. */
    lemma {:induction false} MissesBalance(trace: seq<nat>, e: nat)
      requires e > 0
      ensures |trace| - Hits(trace, e) == Evictions(trace, e) + ValidLines(trace, e, Sets())
    {
      if trace == [] {
        NoLines(e, Sets());
      } else {
        var t, a := trace[..|trace| - 1], trace[|trace| - 1];
        MissesBalance(t, e);
        assert trace == t + [a];
        ValidLinesStep(t, a, e, Sets());
        TouchLength(t, a, e);
      }
    }
  }

  lemma {:induction false} WithoutLength(s: seq<Tag>, t: Tag)
    requires Distinct(s) && t in s
    ensures |Without(s, t)| == |s| - 1
  {
    if s[0] == t {
      assert t !in s[1..];
      WithoutFacts(s[1..], t);
    } else {
      assert t in s[1..];
      WithoutLength(s[1..], t);
    }
  }
}
