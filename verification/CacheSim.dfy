/** csim.c: the cache as a table of lines with timestamps, proved to hold what least-recently-used
    replacement must hold and to count what it must count. */
module CacheSim {
  import opened Counting
  import opened LruBlocks
  import opened LruStack

  datatype Line = Line(valid: bool, tag: Tag, counter: nat)

  datatype Answer = Hit | Miss | MissEviction

  // ----- one set

  /** Line `order[k]` holds tag `s[k]`, and was used later than those further on. */
  ghost predicate Matches(row: seq<Line>, order: seq<nat>, s: seq<Tag>, clock: nat) {
    && |order| == |s| && Distinct(order)
    && (forall k | 0 <= k < |order| :: order[k] < |row| && row[order[k]].valid && row[order[k]].tag == s[k])
    && (forall k, l | 0 <= k < l < |order| :: row[order[k]].counter > row[order[l]].counter)
    && (forall j | 0 <= j < |row| :: row[j].counter <= clock)
  }

  /** The lines `row` hold the tags `s`, most recently used first; `order` says which line holds which. */
  ghost predicate Holds(row: seq<Line>, order: seq<nat>, s: seq<Tag>, clock: nat) {
    Matches(row, order, s, clock) && forall j: nat | j < |row| && row[j].valid :: j in order
  }

  /** Every line is valid exactly when the set holds as many tags as it has lines. */
  lemma Occupancy(row: seq<Line>, order: seq<nat>, s: seq<Tag>, clock: nat)
    requires Holds(row, order, s, clock)
    ensures |s| <= |row|
    ensures |s| == |row| <==> forall j | 0 <= j < |row| :: row[j].valid
  {
    DistinctSize(order);
    assert Members(order) <= Upto(|row|);
    SubsetSize(Members(order), Upto(|row|));
    if forall j | 0 <= j < |row| :: row[j].valid {
      assert Members(order) == Upto(|row|);
    } else {
      var j :| 0 <= j < |row| && !row[j].valid;
      assert j in Upto(|row|) && j !in Members(order);
    }
  }

  /** All but position `k`, or all if there is no such position. */
  function Drop(s: seq<nat>, k: nat): (r: seq<nat>)
    requires k <= |s|
    ensures |r| == if k < |s| then |s| - 1 else |s|
    ensures forall l | 0 <= l < |r| :: r[l] == if l < k then s[l] else s[l + 1]
  {
    if k == |s| then s else s[..k] + s[k + 1..]
  }

  lemma DropElements(s: seq<nat>, k: nat)
    requires k <= |s| && Distinct(s)
    ensures Distinct(Drop(s, k))
    ensures forall x :: x in Drop(s, k) <==> x in s && !(k < |s| && x == s[k])
  {
    hide Drop;
    var r := Drop(s, k);
    forall i, j | 0 <= i < j < |r| ensures r[i] != r[j] { Position(s, k, i); Position(s, k, j); }
    forall x ensures x in r <==> x in s && !(k < |s| && x == s[k]) {
      if x in s && !(k < |s| && x == s[k]) { Kept(s, k, x); }
      if x in r { DroppedFrom(s, k, x); }
    }
  }

  /** Where position `i` of Drop(s, k) was in `s`. */
  lemma Position(s: seq<nat>, k: nat, i: nat)
    requires k <= |s| && i < |Drop(s, k)|
    ensures var i' := if i < k then i else i + 1; i' < |s| && i' != k && Drop(s, k)[i] == s[i']
  {}

  lemma Kept(s: seq<nat>, k: nat, x: nat)
    requires k <= |s| && x in s && !(k < |s| && x == s[k])
    ensures x in Drop(s, k)
  {
    var l :| 0 <= l < |s| && s[l] == x;
    var i := if l < k then l else l - 1;
    Position(s, k, i);
    assert Drop(s, k)[i] == x;
  }

  lemma DroppedFrom(s: seq<nat>, k: nat, x: nat)
    requires k <= |s| && Distinct(s) && x in Drop(s, k)
    ensures x in s && !(k < |s| && x == s[k])
  {
    hide Drop;
    var i :| 0 <= i < |Drop(s, k)| && Drop(s, k)[i] == x;
    Position(s, k, i);
  }

  lemma DropMatches(row: seq<Line>, order: seq<nat>, s: seq<Tag>, clock: nat, k: nat)
    requires Matches(row, order, s, clock) && k <= |order|
    ensures Matches(row, Drop(order, k), Drop(s, k), clock)
  {
    var order', s' := Drop(order, k), Drop(s, k);
    DropElements(order, k);
    hide Drop, Distinct;
    forall l | 0 <= l < |order'| ensures order'[l] < |row| && row[order'[l]].valid && row[order'[l]].tag == s'[l] {
      DropAt(row, order, s, clock, k, l);
    }
    forall l, m | 0 <= l < m < |order'| ensures row[order'[l]].counter > row[order'[m]].counter {
      var l', m' := if l < k then l else l + 1, if m < k then m else m + 1;
      assert order'[l] == order[l'] && order'[m] == order[m'];
    }
  }

  lemma DropAt(row: seq<Line>, order: seq<nat>, s: seq<Tag>, clock: nat, k: nat, l: nat)
    requires Matches(row, order, s, clock) && k <= |order| == |s| && l < |Drop(order, k)| == |Drop(s, k)|
    ensures var i := Drop(order, k)[l]; i < |row| && row[i].valid && row[i].tag == Drop(s, k)[l]
  {
    Position(order, k, l);
    Position(s, k, l);
    MatchAt(row, order, s, clock, if l < k then l else l + 1);
    hide Drop, Matches;
  }

  lemma MatchAt(row: seq<Line>, order: seq<nat>, s: seq<Tag>, clock: nat, l: nat)
    requires Matches(row, order, s, clock) && l < |order|
    ensures |s| == |order| && order[l] < |row| && row[order[l]].valid && row[order[l]].tag == s[l]
  {}

  lemma FrontMatches(row: seq<Line>, order: seq<nat>, s: seq<Tag>, clock: nat, i: nat, tag: Tag)
    requires Matches(row, order, s, clock) && i < |row| && i !in order
    ensures Matches(row[i := Line(true, tag, clock + 1)], [i] + order, [tag] + s, clock + 1)
  {
    var row', order', s' := row[i := Line(true, tag, clock + 1)], [i] + order, [tag] + s;
    forall k | 0 <= k < |order'| ensures order'[k] < |row'| && row'[order'[k]].valid && row'[order'[k]].tag == s'[k] {
      if k > 0 { assert order'[k] == order[k - 1] && order[k - 1] != i; }
    }
  }

  /** Line `i`, at position `k` of the order or not in it, takes the tag that has just been used. */
  lemma PutFront(row: seq<Line>, order: seq<nat>, s: seq<Tag>, clock: nat, i: nat, k: nat, tag: Tag)
    requires Holds(row, order, s, clock) && i < |row| && k <= |order|
    requires if k < |order| then order[k] == i else !row[i].valid
    ensures Holds(row[i := Line(true, tag, clock + 1)], [i] + Drop(order, k), [tag] + Drop(s, k), clock + 1)
  {
    var row', order' := row[i := Line(true, tag, clock + 1)], [i] + Drop(order, k);
    NotFree(row, order, s, clock);
    DropElements(order, k);
    DropMatches(row, order, s, clock, k);
    FrontMatches(row, Drop(order, k), Drop(s, k), clock, i, tag);
    hide Matches, Drop;
    forall j: nat | j < |row'| && row'[j].valid ensures j in order' {
      if j != i { assert j in order; }
    }
  }

  lemma NotFree(row: seq<Line>, order: seq<nat>, s: seq<Tag>, clock: nat)
    requires Matches(row, order, s, clock)
    ensures forall j: nat | j < |row| && !row[j].valid :: j !in order
  {}

  /** A hit refreshes the line. */
  lemma HitKeeps(row: seq<Line>, order: seq<nat>, s: seq<Tag>, clock: nat, i: nat, e: nat) returns (order': seq<nat>)
    requires Holds(row, order, s, clock) && Distinct(s) && i < |row| && row[i].valid
    ensures row[i].tag in s
    ensures Holds(row[i := row[i].(counter := clock + 1)], order', Touch(s, row[i].tag, e), clock + 1)
  {
    var k :| 0 <= k < |order| && order[k] == i;
    PutFront(row, order, s, clock, i, k, row[i].tag);
    order' := [i] + Drop(order, k);
    assert s[k] == row[i].tag;
    WithoutAt(s, k);
    hide Holds;
    assert Touch(s, row[i].tag, e) == [s[k]] + Drop(s, k);
    assert row[i].(counter := clock + 1) == Line(true, s[k], clock + 1);
  }

  lemma MissMeans(row: seq<Line>, order: seq<nat>, s: seq<Tag>, clock: nat, tag: Tag)
    requires Holds(row, order, s, clock) && forall j | 0 <= j < |row| :: !(row[j].valid && row[j].tag == tag)
    ensures tag !in s
  {
    forall k | 0 <= k < |s| ensures s[k] != tag { assert order[k] < |row|; }
  }

  /** A miss fills a line that is not valid. */
  lemma FillKeeps(row: seq<Line>, order: seq<nat>, s: seq<Tag>, clock: nat, i: nat, tag: Tag)
    requires Holds(row, order, s, clock) && tag !in s && i < |row| && !row[i].valid
    ensures |s| < |row|
    ensures Holds(row[i := Line(true, tag, clock + 1)], [i] + order, Touch(s, tag, |row|), clock + 1)
  {
    Occupancy(row, order, s, clock);
    PutFront(row, order, s, clock, i, |order|, tag);
    hide Holds;
    assert Drop(order, |order|) == order && Drop(s, |order|) == s;
    assert Touch(s, tag, |row|) == [tag] + s;
  }

  /** In a full set the line with the smallest counter holds the least recently used tag. */
  lemma EvictKeeps(row: seq<Line>, order: seq<nat>, s: seq<Tag>, clock: nat, i: nat, tag: Tag)
    requires Holds(row, order, s, clock) && tag !in s && i < |row|
    requires forall j | 0 <= j < |row| :: row[j].valid && row[i].counter <= row[j].counter
    ensures |s| == |row| == |order| && order[|s| - 1] == i
    ensures Holds(row[i := row[i].(tag := tag, counter := clock + 1)], [i] + order[..|s| - 1], Touch(s, tag, |row|), clock + 1)
  {
    Occupancy(row, order, s, clock);
    Oldest(row, order, s, clock, i);
    var n := |s| - 1;
    PutFront(row, order, s, clock, i, n, tag);
    hide Holds;
    assert Drop(order, n) == order[..n] && Drop(s, n) == s[..n];
    assert Touch(s, tag, |row|) == [tag] + s[..n];
    assert row[i].(tag := tag, counter := clock + 1) == Line(true, tag, clock + 1);
  }

  lemma Oldest(row: seq<Line>, order: seq<nat>, s: seq<Tag>, clock: nat, i: nat)
    requires Holds(row, order, s, clock) && i < |row| && |s| == |row|
    requires forall j | 0 <= j < |row| :: row[j].valid && row[i].counter <= row[j].counter
    ensures |order| > 0 && order[|order| - 1] == i
  {
    var k :| 0 <= k < |order| && order[k] == i;
    var n := |order| - 1;
    assert row[order[k]].valid && row[order[n]].valid;
  }

  // ----- all sets

  ghost predicate AllHold(rows: seq<seq<Line>>, order: seq<seq<nat>>, shape: Shape, trace: seq<nat>, e: nat, clock: nat) {
    && |rows| == |order| == shape.Sets()
    && forall i | 0 <= i < |rows| :: |rows[i]| == e && Holds(rows[i], order[i], shape.Contents(trace, i, e), clock)
  }

  lemma SetHolds(rows: seq<seq<Line>>, order: seq<seq<nat>>, shape: Shape, trace: seq<nat>, e: nat, clock: nat, i: nat)
    requires AllHold(rows, order, shape, trace, e, clock) && i < shape.Sets()
    ensures |rows| == |order| == shape.Sets() && |rows[i]| == e
    ensures Holds(rows[i], order[i], shape.Contents(trace, i, e), clock)
  {}

  lemma HoldsLater(row: seq<Line>, order: seq<nat>, s: seq<Tag>, clock: nat)
    requires Holds(row, order, s, clock)
    ensures Holds(row, order, s, clock + 1)
  {}

  /** An access changes its own set only. */
  lemma AccessKeeps(rows: seq<seq<Line>>, order: seq<seq<nat>>, shape: Shape, trace: seq<nat>, e: nat, clock: nat,
                    addr: nat, row': seq<Line>, order': seq<nat>)
    requires AllHold(rows, order, shape, trace, e, clock) && e > 0 && |row'| == e
    requires Holds(row', order', Touch(shape.Contents(trace, shape.SetOf(addr), e), shape.TagOf(addr), e), clock + 1)
    ensures var i := shape.SetOf(addr);
            AllHold(rows[i := row'], order[i := order'], shape, trace + [addr], e, clock + 1)
  {
    hide Holds, Touch, Shape.Contents, Shape.SetOf, Shape.TagOf;
    var i := shape.SetOf(addr);
    forall k | 0 <= k < |rows|
      ensures Holds(rows[i := row'][k], order[i := order'][k], shape.Contents(trace + [addr], k, e), clock + 1)
    {
      shape.NextContents(trace, addr, k, e);
      HoldsLater(rows[k], order[k], shape.Contents(trace, k, e), clock);
    }
  }

  lemma CountsNext(shape: Shape, trace: seq<nat>, addr: nat, e: nat)
    ensures var trace' := trace + [addr];
            var full := |shape.Contents(trace, shape.SetOf(addr), e)| == e;
            && shape.Hits(trace', e) == shape.Hits(trace, e) + (if shape.IsHit(trace, addr, e) then 1 else 0)
            && shape.Evictions(trace', e) == shape.Evictions(trace, e) + (if !shape.IsHit(trace, addr, e) && full then 1 else 0)
  {
    assert (trace + [addr])[..|trace|] == trace;
  }

  lemma ContentsDistinct(shape: Shape, trace: seq<nat>, i: nat, e: nat)
    ensures Distinct(shape.Contents(trace, i, e))
  {
    RecentOrder(shape.TagsIn(trace, i));
  }

  // ----- the cache

  class Cache {
    const shape: Shape
    const lines: nat
    const table: array2<Line>
    var clock: nat
    var hits: nat
    var misses: nat
    var evictions: nat
    ghost var trace: seq<nat>         // the addresses accessed so far
    ghost var order: seq<seq<nat>>    // for every set, its valid lines, the last used first

    function RowFrom(i: nat, n: nat): (r: seq<Line>)
      requires i < table.Length0 && n <= table.Length1
      reads table
      ensures |r| == n && forall j | 0 <= j < n :: r[j] == table[i, j]
    {
      if n == 0 then [] else RowFrom(i, n - 1) + [table[i, n - 1]]
    }

    function RowsFrom(n: nat): (r: seq<seq<Line>>)
      requires n <= table.Length0
      reads table
      ensures |r| == n
      ensures forall i | 0 <= i < n :: |r[i]| == table.Length1 && forall j | 0 <= j < |r[i]| :: r[i][j] == table[i, j]
    {
      if n == 0 then [] else RowsFrom(n - 1) + [RowFrom(n - 1, table.Length1)]
    }

    function Rows(): (r: seq<seq<Line>>)
      reads table
      ensures |r| == table.Length0
      ensures forall i | 0 <= i < |r| :: |r[i]| == table.Length1 && forall j | 0 <= j < |r[i]| :: r[i][j] == table[i, j]
    {
      RowsFrom(table.Length0)
    }

    /** The table holds, and the counters count, what least-recently-used replacement prescribes. */
    ghost predicate Valid()
      reads this, table
    {
      && lines > 0 && table.Length0 == shape.Sets() && table.Length1 == lines
      && AllHold(Rows(), order, shape, trace, lines, clock)
      && hits == shape.Hits(trace, lines)
      && misses == |trace| - shape.Hits(trace, lines)
      && evictions == shape.Evictions(trace, lines)
    }

    /** init_cache */
    constructor (s: nat, b: nat, e: nat)
      requires 0 < s < 31 && b > 0 && s + b < 64 && e > 0
      ensures Valid() && fresh(table) && trace == [] && shape == Shape(s, b) && lines == e
    {
      shape, lines := Shape(s, b), e;
      table := new Line[Shape(s, b).Sets(), e]((i, j) => Line(false, 0, 0));
      clock, hits, misses, evictions := 0, 0, 0, 0;
      trace := [];
      order := seq(Shape(s, b).Sets(), _ => []);
    }

    /** The line of set `i` that holds `tag`, or `lines`. */
    method FindTag(i: nat, tag: Tag, ghost row: seq<Line>) returns (j: nat)
      requires i < table.Length0 && table.Length1 == lines && row == Rows()[i]
      ensures j <= lines && forall l | 0 <= l < j :: !(row[l].valid && row[l].tag == tag)
      ensures j < lines ==> row[j].valid && row[j].tag == tag
    {
      j := 0;
      while j < lines
        invariant j <= lines && forall l | 0 <= l < j :: !(row[l].valid && row[l].tag == tag)
      {
        if table[i, j].valid && table[i, j].tag == tag { return; }
        j := j + 1;
      }
    }

    /** The first line of set `i` that is not valid, or `lines`. */
    method FindInvalid(i: nat, ghost row: seq<Line>) returns (j: nat)
      requires i < table.Length0 && table.Length1 == lines && row == Rows()[i]
      ensures j <= lines && forall l | 0 <= l < j :: row[l].valid
      ensures j < lines ==> !row[j].valid
    {
      j := 0;
      while j < lines
        invariant j <= lines && forall l | 0 <= l < j :: row[l].valid
      {
        if !table[i, j].valid { return; }
        j := j + 1;
      }
    }

    /** The line of set `i` with the smallest counter. */
    method FindOldest(i: nat, ghost row: seq<Line>) returns (oldest: nat)
      requires i < table.Length0 && table.Length1 == lines && row == Rows()[i] && lines > 0
      ensures oldest < lines && forall l | 0 <= l < lines :: row[oldest].counter <= row[l].counter
    {
      oldest := 0;
      var min := table[i, 0].counter;
      var j := 1;
      while j < lines
        invariant 1 <= j <= lines && oldest < j && min == row[oldest].counter
        invariant forall l | 0 <= l < j :: row[oldest].counter <= row[l].counter
      {
        if table[i, j].counter < min {
          min := table[i, j].counter;
          oldest := j;
        }
        j := j + 1;
      }
    }

    method Store(i: nat, j: nat, line: Line)
      requires i < table.Length0 && j < table.Length1
      modifies table
      ensures Rows() == old(Rows())[i := old(Rows())[i][j := line]]
    {
      ghost var rows := Rows();
      table[i, j] := line;
      assert forall k | 0 <= k < |rows| :: Rows()[k] == if k == i then rows[i][j := line] else rows[k];
    }

    /** access_data. It hits when the block has been accessed before, and fewer other blocks of its set since
        than the set has lines; it evicts when it misses and as many blocks of the set have been accessed. */
    method Access(addr: nat) returns (answer: Answer)
      requires Valid()
      modifies this, table
      ensures Valid() && trace == old(trace) + [addr]
      ensures answer.Hit? <==> Accessed(shape, old(trace), addr) && |Since(shape, old(trace), addr)| < lines
      ensures answer.MissEviction? <==> !answer.Hit? && |InSet(shape, old(trace), addr)| >= lines
      ensures hits == old(hits) + (if answer.Hit? then 1 else 0) && misses == old(misses) + (if answer.Hit? then 0 else 1)
      ensures evictions == old(evictions) + (if answer.MissEviction? then 1 else 0)
    {
      HitMeans(shape, trace, addr, lines);
      FullMeans(shape, trace, addr, lines);
      hide Accessed, Since, InSet, AllHold, Holds, Distinct, Touch, Rows, Shape.Contents, Shape.SetOf, Shape.TagOf, Shape.Hits, Shape.Evictions;
      var i, tag := shape.SetOf(addr), shape.TagOf(addr);
      SetHolds(Rows(), order, shape, trace, lines, clock, i);
      ghost var rows, was, s := Rows(), order[i], shape.Contents(trace, i, lines);
      ghost var now;
      CountsNext(shape, trace, addr, lines);
      ContentsDistinct(shape, trace, i, lines);
      var j := FindTag(i, tag, rows[i]);
      if j < lines {
        now := HitKeeps(rows[i], was, s, clock, j, lines);
        hits := hits + 1;
        Store(i, j, table[i, j].(counter := clock + 1));
        answer := Hit;
      } else {
        misses := misses + 1;
        MissMeans(rows[i], was, s, clock, tag);
        j := FindInvalid(i, rows[i]);
        if j < lines {
          FillKeeps(rows[i], was, s, clock, j, tag);
          now := [j] + was;
          Store(i, j, Line(true, tag, clock + 1));
          answer := Miss;
        } else {
          evictions := evictions + 1;
          j := FindOldest(i, rows[i]);
          EvictKeeps(rows[i], was, s, clock, j, tag);
          now := [j] + was[..|s| - 1];
          Store(i, j, table[i, j].(tag := tag, counter := clock + 1));
          answer := MissEviction;
        }
      }
      AccessKeeps(rows, order, shape, trace, lines, clock, addr, Rows()[i], now);
      clock := clock + 1;
      order := order[i := now];
      trace := trace + [addr];
      assert Rows() == rows[i := Rows()[i]];
    }

    /** The valid tags of a set are exactly its most recently used ones, as many as fit. */
    lemma ValidTags(i: nat)
      requires Valid() && i < table.Length0
      ensures forall t :: t in shape.Contents(trace, i, lines) <==> exists j :: 0 <= j < lines && table[i, j].valid && table[i, j].tag == t
    {
      var row, s := Rows()[i], shape.Contents(trace, i, lines);
      SetHolds(Rows(), order, shape, trace, lines, clock, i);
      forall t ensures t in s <==> exists j :: 0 <= j < lines && table[i, j].valid && table[i, j].tag == t {
        if t in s {
          var k :| 0 <= k < |s| && s[k] == t;
          assert row[order[i][k]].tag == t;
        }
        if j :| 0 <= j < lines && table[i, j].valid && table[i, j].tag == t {
          assert row[j].valid;
          var k :| 0 <= k < |order[i]| && order[i][k] == j;
          assert s[k] == t;
        }
      }
    }

    /** replay_trace on the records of a trace file: loads and stores access once, modifies twice, and
        other records are skipped. */
    method Replay(records: seq<(char, nat)>)
      requires Valid()
      modifies this, table
      ensures Valid() && trace == old(trace) + Accesses(records)
    {
      hide Valid, Accesses;
      var k := 0;
      NoAccesses(records);
      while k < |records|
        invariant k <= |records| && Valid() && trace == old(trace) + Accesses(records[..k])
      {
        NextAccesses(records, k);
        var (kind, addr) := records[k];
        var answer;
        if kind == 'L' {
          answer := Access(addr);
        } else if kind == 'S' {
          answer := Access(addr);
        } else if kind == 'M' {
          answer := Access(addr);
          answer := Access(addr);
        }
        k := k + 1;
      }
      assert records[..k] == records;
    }
  }

  function Accesses(records: seq<(char, nat)>): (r: seq<nat>) {
    if records == [] then []
    else
      var (kind, addr) := records[|records| - 1];
      Accesses(records[..|records| - 1])
        + if kind == 'L' || kind == 'S' then [addr] else if kind == 'M' then [addr, addr] else []
  }

  /** Records are replayed one after the other ... */
  lemma {:induction false} AccessesJoin(r: seq<(char, nat)>, r': seq<(char, nat)>)
    ensures Accesses(r + r') == Accesses(r) + Accesses(r')
  {
    if r' == [] {
      assert r + r' == r;
    } else {
      var n := |r'| - 1;
      AccessesJoin(r, r'[..n]);
      assert (r + r')[..|r| + n] == r + r'[..n] && (r + r')[|r| + n] == r'[n];
      assert r + r' != [];
    }
  }

  /** ... a load or a store as one access, a modify as two, and any other kind as none. */
  lemma AccessesOne(kind: char, a: nat)
    ensures kind == 'L' || kind == 'S' ==> Accesses([(kind, a)]) == [a]
    ensures kind == 'M' ==> Accesses([(kind, a)]) == [a, a]
    ensures kind !in "LSM" ==> Accesses([(kind, a)]) == []
  {
    var r := [(kind, a)];
    assert r[..0] == [];
  }

  lemma NoAccesses(records: seq<(char, nat)>)
    ensures Accesses(records[..0]) == []
  {}

  lemma NextAccesses(records: seq<(char, nat)>, k: nat)
    requires k < |records|
    ensures var (kind, addr) := records[k];
            Accesses(records[..k + 1]) == Accesses(records[..k])
              + if kind == 'L' || kind == 'S' then [addr] else if kind == 'M' then [addr] + [addr] else []
  {
    assert records[..k + 1][..k] == records[..k];
  }

  /** The second access of a modify always hits. */
  lemma ModifyHits(shape: Shape, trace: seq<nat>, addr: nat, e: nat)
    requires e > 0
    ensures shape.IsHit(trace + [addr], addr, e)
  {
    shape.NextContents(trace, addr, shape.SetOf(addr), e);
    var s, t := shape.Contents(trace, shape.SetOf(addr), e), shape.TagOf(addr);
    assert Touch(s, t, e)[0] == t;
  }
}
