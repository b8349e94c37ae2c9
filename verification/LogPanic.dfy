/** Bounding every operation to MAXOPBLOCKS distinct blocks does not by itself keep log_write from
    panicking, nor the header from outgrowing the log area. Three operations log the blocks after the
    log area in turn; what happens when the log is nearly full is shown on the states they reach. */
module LogPanic {
  import opened LogMachine
  import opened LogProofs
  import opened LogTheorems
  import opened LogSound

  ghost predicate Reaches(ls: seq<Label>, c: Config, s: State, s': State) {
    && c.Valid() && |s.disk| == c.nblocks
    && if ls == [] then s' == s
       else Exec(c, s, ls[0]).Some? && Reaches(ls[1..], c, Exec(c, s, ls[0]).value, s')
  }

  lemma {:induction false} Chain(ls: seq<Label>, ls': seq<Label>, c: Config, s: State, s1: State, s2: State)
    requires Reaches(ls, c, s, s1) && Reaches(ls', c, s1, s2)
    ensures Reaches(ls + ls', c, s, s2)
  {
    hide Exec;
    if ls == [] {
      assert ls + ls' == ls';
    } else {
      Chain(ls[1..], ls', c, Exec(c, s, ls[0]).value, s1, s2);
      assert (ls + ls')[1..] == ls[1..] + ls';
    }
  }

  lemma Step(ls: seq<Label>, l: Label, c: Config, s: State, s1: State, s2: State)
    requires Reaches(ls, c, s, s1) && c.Valid() && |s1.disk| == |s2.disk| == c.nblocks && Exec(c, s1, l) == Some(s2)
    ensures Reaches(ls + [l], c, s, s2)
  {
    hide Exec;
    assert [l][1..] == [] && Reaches([], c, s2, s2);
    Chain(ls, [l], c, s, s1, s2);
  }

  /** The steps as a run. */
  lemma {:induction false} AsRun(ls: seq<Label>, c: Config, s: State, s': State) returns (r: Run)
    requires Reaches(ls, c, s, s')
    ensures IsRun(c, r) && r.labels == ls && r.states[0] == s && r.states[|ls|] == s'
  {
    hide Exec;
    if ls == [] {
      r := Run([s], []);
    } else {
      var p := AsRun(ls[1..], c, Exec(c, s, ls[0]).value, s');
      r := Run([s] + p.states, ls);
      forall i {:trigger r.labels[i]} | 0 <= i < |r.labels| ensures Exec(c, r.states[i], r.labels[i]) == Some(r.states[i + 1]) {
        if i > 0 { assert p.labels[i - 1] == r.labels[i]; }
      }
    }
  }

  // ----- single steps

  lemma ReadMiss(c: Config, s: State, t: Tid, b: nat)
    requires c.Valid() && |s.disk| == c.nblocks && s.mode.Running? && t < |s.procs|
    requires c.Home(b) && b !in s.cache && |s.cache| < c.nbuf
    ensures Exec(c, s, Read(t, b)) == Some(s.(cache := s.cache[b := Buf(s.disk[b], false, By(t), false)]))
  {
    assert |s.cache.Keys + {b}| == |s.cache| + 1;
    var s1 := Loaded(s, {b});
    assert s1.cache == s.cache[b := Buf(s.disk[b], false, Free, false)];
    assert s1.cache[b := Buf(s.disk[b], false, By(t), false)] == s.cache[b := Buf(s.disk[b], false, By(t), false)];
  }

  lemma CopyMiss(c: Config, s: State, i: nat)
    requires c.Valid() && |s.disk| == c.nblocks && s.mode.Running? && s.committing.Yes? && s.committing.ph == CopyLog(i)
    requires i < |s.lh| && c.LogBlock(i) < c.nblocks && c.LogBlock(i) !in s.cache && |s.cache| < c.nbuf
    requires s.lh[i] < c.nblocks && s.lh[i] in s.cache && s.cache[s.lh[i]].holder == Free
    ensures var data := s.cache[s.lh[i]].data;
            Exec(c, s, Commit) == Some(s.(disk := s.disk[c.LogBlock(i) := data],
                                          cache := s.cache[c.LogBlock(i) := Buf(data, false, Free, false)],
                                          committing := Yes(s.committing.t, CopyLog(i + 1))))
  {
    var b, data := c.LogBlock(i), s.cache[s.lh[i]].data;
    assert s.cache.Keys + {b, s.lh[i]} == s.cache.Keys + {b};
    var s1 := Loaded(s, {b, s.lh[i]});
    assert s1.cache == s.cache[b := Buf(s.disk[b], false, Free, false)];
    assert s1.cache[b := Buf(data, false, Free, false)] == s.cache[b := Buf(data, false, Free, false)];
  }

  lemma EvictOne(c: Config, s: State, b: nat)
    requires c.Valid() && |s.disk| == c.nblocks && s.mode.Running? && Recyclable(s, b)
    ensures Exec(c, s, Evict(b)) == Some(s.(cache := s.cache - {b}))
  {}

  lemma CheckOne(c: Config, s: State, t: Tid, b: nat)
    requires c.Valid() && |s.disk| == c.nblocks && s.mode.Running? && t < |s.procs| && s.procs[t].Inside?
    requires c.Home(b) && b in s.cache && s.cache[b].holder == By(t) && |s.procs[t].logged + {b}| <= MAXOPBLOCKS
    requires !LogFull(c, s) && s.outstanding >= 1
    ensures Exec(c, s, LogCheck(t, b)) == Some(s.(procs := s.procs[t := Checked(s.procs[t].logged, b)]))
  {}

  lemma AppendOne(c: Config, s: State, t: Tid)
    requires c.Valid() && |s.disk| == c.nblocks && s.mode.Running? && t < |s.procs| && s.procs[t].Checked?
    requires var b := s.procs[t].b; b in s.cache && s.cache[b].holder == By(t) && b !in s.lh
    ensures var Checked(logged, b) := s.procs[t];
            Exec(c, s, LogAppend(t)) == Some(s.(lh := s.lh + [b], procs := s.procs[t := Inside(logged + {b})],
                                                cache := s.cache[b := s.cache[b].(dirty := true, unlogged := false)]))
  {}

  lemma ReleaseOne(c: Config, s: State, t: Tid, b: nat)
    requires c.Valid() && |s.disk| == c.nblocks && s.mode.Running? && t < |s.procs| && s.procs[t].Inside?
    requires b in s.cache && s.cache[b].holder == By(t) && !s.cache[b].unlogged
    ensures Exec(c, s, Release(t, b)) == Some(s.(cache := s.cache[b := s.cache[b].(holder := Free)]))
  {}

  // ----- filling the log

  /** The first of the blocks that the operations log. */
  function Base(c: Config): (r: nat) { c.start + c.size + 1 }

  function List(lo: nat, n: nat): (r: seq<nat>) { if n == 0 then [] else List(lo, n - 1) + [lo + n - 1] }

  /** Those of the blocks lo, lo+1, ..., lo+n-1 that fall to process `t`: every third one. */
  function Mine(lo: nat, n: nat, t: Tid): (r: set<nat>) {
    if n == 0 then {} else Mine(lo, n - 1, t) + if (n - 1) % 3 == t then {lo + n - 1} else {}
  }

  lemma {:induction false} ListFacts(lo: nat, n: nat)
    ensures |List(lo, n)| == n && forall i | 0 <= i < n :: List(lo, n)[i] == lo + i
    ensures forall b :: b in List(lo, n) <==> lo <= b < lo + n
  {
    if n > 0 { ListFacts(lo, n - 1); }
  }

  /** How many of the first `n` blocks fall to process `t`. */
  function Share(n: nat, t: Tid): (r: nat) {
    if n == 0 then 0 else Share(n - 1, t) + if (n - 1) % 3 == t then 1 else 0
  }

  lemma {:induction false} ShareIs(n: nat)
    ensures Share(n, 0) == (n + 2) / 3 && Share(n, 1) == (n + 1) / 3 && Share(n, 2) == n / 3
  {
    if n > 0 { ShareIs(n - 1); }
  }

  lemma {:induction false} MineFacts(lo: nat, n: nat, t: Tid)
    ensures |Mine(lo, n, t)| == Share(n, t)
    ensures forall b | b in Mine(lo, n, t) :: lo <= b < lo + n
    ensures 0 < n && t == 0 ==> lo in Mine(lo, n, t)
  {
    if n > 0 { MineFacts(lo, n - 1, t); }
  }

  /** The next block goes to one process, which has room for it, and the others keep theirs. */
  lemma NextShare(lo: nat, n: nat, t: Tid)
    requires n < LOGSIZE && t == n % 3
    ensures Mine(lo, n + 1, t) == Mine(lo, n, t) + {lo + n}
    ensures |Mine(lo, n, t)| < MAXOPBLOCKS && |Mine(lo, n + 1, t)| <= MAXOPBLOCKS
    ensures forall u | u != t :: Mine(lo, n + 1, u) == Mine(lo, n, u)
  {
    MineFacts(lo, n, t);
    MineFacts(lo, n + 1, t);
    ShareIs(n);
    ShareIs(n + 1);
    hide Mine, Share;
    assert t == 0 || t == 1 || t == 2;
  }

  /** Three operations are under way, the first `n` blocks have been logged, and nothing else is cached. */
  ghost predicate Filled(c: Config, s: State, n: nat) {
    && c.Valid() && |s.disk| == c.nblocks && Base(c) + LOGSIZE <= c.nblocks
    && s.mode.Running? && s.committing.No? && s.outstanding == 3
    && s.procs == [Inside(Mine(Base(c), n, 0)), Inside(Mine(Base(c), n, 1)), Inside(Mine(Base(c), n, 2))]
    && n <= LOGSIZE && s.lh == List(Base(c), n)
    && AllLogged(c, s, n)
  }

  ghost predicate AllLogged(c: Config, s: State, n: nat) {
    && |s.cache| == n
    && (forall b :: b in s.cache <==> Base(c) <= b < Base(c) + n)
    && (forall b | b in s.cache :: s.cache[b].dirty && s.cache[b].holder == Free && !s.cache[b].unlogged)
  }

  /** What the next block in turn asks of its process. */
  lemma NextBlock(c: Config, s: State, n: nat)
    requires n < LOGSIZE && Filled(c, s, n)
    ensures var b, t := Base(c) + n, n % 3;
            && t < 3 && s.procs[t] == Inside(Mine(Base(c), n, t)) && s.procs[t].logged + {b} == Mine(Base(c), n + 1, t)
            && |s.procs[t].logged| < MAXOPBLOCKS && |s.procs[t].logged + {b}| <= MAXOPBLOCKS
            && c.Home(b) && b !in s.lh && |s.lh| == n
            && s.procs[t := Inside(Mine(Base(c), n + 1, t))]
               == [Inside(Mine(Base(c), n + 1, 0)), Inside(Mine(Base(c), n + 1, 1)), Inside(Mine(Base(c), n + 1, 2))]
  {
    var t := n % 3;
    ListFacts(Base(c), n);
    NextShare(Base(c), n, t);
    hide Mine, List;
    assert t == 0 || t == 1 || t == 2;
  }

  lemma LogOne(ls: seq<Label>, c: Config, s0: State, s: State, n: nat) returns (ls': seq<Label>, s': State)
    requires Reaches(ls, c, s0, s) && Filled(c, s, n) && n < LOGSIZE && n < c.size - 1 && n < c.nbuf
    ensures Reaches(ls', c, s0, s') && Filled(c, s', n + 1) && s'.disk == s.disk
  {
    hide Reaches, Mine;
    NextBlock(c, s, n);
    ls', s' := LogBlockOnce(ls, c, s0, s, n % 3, Base(c) + n);
    LoggedNext(c, s, s', n, s.disk[Base(c) + n]);
  }

  lemma LoggedNext(c: Config, s: State, s': State, n: nat, data: Block)
    requires AllLogged(c, s, n)
    requires s'.cache == s.cache[Base(c) + n := Buf(data, true, Free, false)]
    ensures AllLogged(c, s', n + 1)
  {}

  lemma LogBlockOnce(ls: seq<Label>, c: Config, s0: State, s: State, t: Tid, b: nat) returns (ls': seq<Label>, s': State)
    requires Reaches(ls, c, s0, s) && c.Valid() && |s.disk| == c.nblocks && s.mode.Running? && s.outstanding >= 1
    requires t < |s.procs| && s.procs[t].Inside? && |s.procs[t].logged + {b}| <= MAXOPBLOCKS
    requires c.Home(b) && b !in s.cache && b !in s.lh && |s.lh| < LOGSIZE && |s.lh| < c.size - 1 && |s.cache| < c.nbuf
    ensures Reaches(ls', c, s0, s')
    ensures s' == s.(lh := s.lh + [b], cache := s.cache[b := Buf(s.disk[b], true, Free, false)],
                     procs := s.procs[t := Inside(s.procs[t].logged + {b})])
  {
    hide Reaches, Exec;
    var logged := s.procs[t].logged;
    var s1 := s.(cache := s.cache[b := Buf(s.disk[b], false, By(t), false)]);
    var s2 := s1.(procs := s.procs[t := Checked(logged, b)]);
    var s3 := s1.(lh := s.lh + [b], cache := s.cache[b := Buf(s.disk[b], true, By(t), false)],
                  procs := s.procs[t := Inside(logged + {b})]);
    s' := s3.(cache := s.cache[b := Buf(s.disk[b], true, Free, false)]);
    assert s2.procs[t := Inside(logged + {b})] == s3.procs;
    assert s2.cache[b := s2.cache[b].(dirty := true, unlogged := false)] == s3.cache;
    assert s3.cache[b := s3.cache[b].(holder := Free)] == s'.cache;
    ReadMiss(c, s, t, b);
    CheckOne(c, s1, t, b);
    AppendOne(c, s2, t);
    ReleaseOne(c, s3, t, b);
    Step(ls, Read(t, b), c, s0, s, s1);
    Step(ls + [Read(t, b)], LogCheck(t, b), c, s0, s1, s2);
    Step(ls + [Read(t, b)] + [LogCheck(t, b)], LogAppend(t), c, s0, s2, s3);
    Step(ls + [Read(t, b)] + [LogCheck(t, b)] + [LogAppend(t)], Release(t, b), c, s0, s3, s');
    ls' := ls + [Read(t, b)] + [LogCheck(t, b)] + [LogAppend(t)] + [Release(t, b)];
  }

  lemma {:induction false} Fill(ls0: seq<Label>, c: Config, s0: State, s: State, n: nat) returns (ls: seq<Label>, s': State)
    requires Reaches(ls0, c, s0, s) && Filled(c, s, 0) && n <= LOGSIZE && n <= c.size - 1 && n <= c.nbuf
    ensures Reaches(ls, c, s0, s') && Filled(c, s', n) && s'.disk == s.disk
  {
    hide Reaches, Filled;
    if n == 0 {
      ls, s' := ls0, s;
    } else {
      var ls1, s1 := Fill(ls0, c, s0, s, n - 1);
      ls, s' := LogOne(ls1, c, s0, s1, n - 1);
    }
  }

  /** Recovery of an empty log. */
  lemma RecoverEmpty(c: Config, s: State) returns (ls: seq<Label>, s': State)
    requires c.Valid() && Init(c, s) && 0 < c.nbuf
    ensures Reaches(ls, c, s, s')
    ensures s' == s.(disk := s.disk[c.start := HeadBlock(s.disk[c.start], [])], mode := Running)
  {
    var h := s.disk[c.start];
    var h' := HeadBlock(h, []);
    var s1 := s.(cache := map[c.start := Buf(h, false, Free, false)], mode := Recovering(Reinstall(0)));
    var s2 := s1.(mode := Recovering(Reset));
    var s3 := s2.(disk := s.disk[c.start := h'], cache := map[c.start := Buf(h', false, Free, false)], mode := Running);
    s' := s3.(cache := map[]);
    assert Reaches([], c, s, s);
    hide Reaches, Exec, HeadBlock;
    ReadHeadOne(c, s);
    ReinstallNone(c, s1);
    ResetOne(c, s2);
    Step([], Recover, c, s, s, s1);
    Step([] + [Recover], Recover, c, s, s1, s2);
    Step([] + [Recover] + [Recover], Recover, c, s, s2, s3);
    EvictOne(c, s3, c.start);
    assert s3.cache - {c.start} == map[];
    Step([] + [Recover] + [Recover] + [Recover], Evict(c.start), c, s, s3, s');
    ls := [] + [Recover] + [Recover] + [Recover] + [Evict(c.start)];
  }

  lemma ReadHeadOne(c: Config, s: State)
    requires c.Valid() && |s.disk| == c.nblocks && s.mode == Recovering(ReadHead) && s.cache == map[] && 0 < c.nbuf
    requires Count(s.disk[c.start]) == 0 && s.lh == []
    ensures Exec(c, s, Recover) ==
              Some(s.(cache := map[c.start := Buf(s.disk[c.start], false, Free, false)], mode := Recovering(Reinstall(0))))
  {
    var h := s.disk[c.start];
    assert Entries(h) == [];
    var s1 := Loaded(s, {c.start});
    assert s.cache.Keys + {c.start} == {c.start};
    assert s1.cache == map[c.start := Buf(h, false, Free, false)];
    assert s1.cache[c.start := Buf(h, false, Free, false)] == map[c.start := Buf(h, false, Free, false)];
  }

  lemma ReinstallNone(c: Config, s: State)
    requires c.Valid() && |s.disk| == c.nblocks && s.mode == Recovering(Reinstall(0)) && s.lh == []
    ensures Exec(c, s, Recover) == Some(s.(mode := Recovering(Reset)))
  {}

  lemma ResetOne(c: Config, s: State)
    requires c.Valid() && |s.disk| == c.nblocks && s.mode == Recovering(Reset) && s.lh == []
    requires s.cache == map[c.start := Buf(s.disk[c.start], false, Free, false)]
    ensures var h := HeadBlock(s.disk[c.start], []);
            Exec(c, s, Recover) ==
              Some(s.(disk := s.disk[c.start := h], cache := map[c.start := Buf(h, false, Free, false)], mode := Running))
  {
    hide HeadBlock;
    var h := HeadBlock(s.disk[c.start], []);
    assert s.cache[c.start := Buf(h, false, Free, false)] == map[c.start := Buf(h, false, Free, false)];
  }

  /** Recovery of an empty log, and three operations begun. */
  lemma Prepare(c: Config, s: State) returns (ls: seq<Label>, s': State)
    requires c.Valid() && Init(c, s) && s.procs == [Outside, Outside, Outside] && Base(c) + LOGSIZE <= c.nblocks && 0 < c.nbuf
    ensures Reaches(ls, c, s, s') && Filled(c, s', 0)
    ensures s'.disk == s.disk[c.start := HeadBlock(s.disk[c.start], [])]
  {
    hide Reaches, Exec, HeadBlock;
    var ls1, s1 := RecoverEmpty(c, s);
    ls, s' := BeginThree(ls1, c, s, s1);
    assert Mine(Base(c), 0, 0) == Mine(Base(c), 0, 1) == Mine(Base(c), 0, 2) == {};
  }

  lemma BeginThree(ls0: seq<Label>, c: Config, s0: State, s: State) returns (ls: seq<Label>, s': State)
    requires Reaches(ls0, c, s0, s) && c.Valid() && |s.disk| == c.nblocks && s.mode.Running? && s.committing.No?
    requires s.procs == [Outside, Outside, Outside] && s.lh == [] && s.outstanding == 0
    ensures Reaches(ls, c, s0, s')
    ensures s' == s.(outstanding := 3, procs := [Inside({}), Inside({}), Inside({})])
  {
    hide Reaches, Exec;
    var l5, s5 := BeginOne(ls0, c, s0, s, 0);
    var l6, s6 := BeginOne(l5, c, s0, s5, 1);
    ls, s' := BeginOne(l6, c, s0, s6, 2);
  }

  lemma BeginOne(ls: seq<Label>, c: Config, s0: State, s: State, t: Tid) returns (ls': seq<Label>, s': State)
    requires Reaches(ls, c, s0, s) && c.Valid() && |s.disk| == c.nblocks && s.mode.Running? && s.committing.No?
    requires t < |s.procs| && s.procs[t] == Outside && s.lh == [] && 0 <= s.outstanding <= 2
    ensures Reaches(ls', c, s0, s')
    ensures s' == s.(outstanding := s.outstanding + 1, procs := s.procs[t := Inside({})])
  {
    hide Reaches;
    var s1 := s.(procs := s.procs[t := Trying]);
    s' := s.(outstanding := s.outstanding + 1, procs := s.procs[t := Inside({})]);
    assert s1.procs[t := Inside({})] == s'.procs;
    Step(ls, Begin(t), c, s0, s, s1);
    Step(ls + [Begin(t)], Try(t), c, s0, s1, s');
    ls' := ls + [Begin(t)] + [Try(t)];
  }

  // ----- panics of log_write

  /** With room for a full header, an operation that has logged exactly MAXOPBLOCKS distinct blocks logs
      one of them again and panics: the check comes before absorption. */
  lemma PanicsWithinBounds(c: Config, s: State) returns (ls: seq<Label>, s': State)
    requires c.Valid() && Init(c, s) && s.procs == [Outside, Outside, Outside] && Base(c) + LOGSIZE <= c.nblocks
    requires LOGSIZE <= c.size - 1 && LOGSIZE <= c.nbuf
    ensures var b := Base(c);
            && Reaches(ls, c, s, s') && s'.mode.Running? && |s'.disk| == c.nblocks && |s'.lh| == LOGSIZE && b in s'.lh
            && |s'.procs| == 3 && s'.procs[0].Inside? && b in s'.procs[0].logged && |s'.procs[0].logged| == MAXOPBLOCKS
            && Exec(c, s', LogCheck(0, b)) == Some(s'.(mode := Panicked))
  {
    hide Reaches, Mine, List, Share, Init;
    var ls0, s0 := Prepare(c, s);
    var ls1, s1 := Fill(ls0, c, s, s0, LOGSIZE);
    var b := Base(c);
    ListFacts(b, LOGSIZE);
    MineFacts(b, LOGSIZE, 0);
    ShareIs(LOGSIZE);
    s' := s1.(cache := s1.cache[b := s1.cache[b].(holder := By(0))]);
    Step(ls1, Read(0, b), c, s, s1, s');
    ls := ls1 + [Read(0, b)];
    assert s'.procs[0].logged + {b} == s'.procs[0].logged;
  }

  /** With a smaller log area, such as the one that mkfs makes, an operation that has logged fewer than
      MAXOPBLOCKS blocks panics on a block that nobody has logged. */
  lemma PanicsOnFreshBlock(c: Config, s: State) returns (ls: seq<Label>, s': State, t: Tid, b: nat)
    requires c.Valid() && Init(c, s) && s.procs == [Outside, Outside, Outside] && Base(c) + LOGSIZE <= c.nblocks
    requires c.size <= LOGSIZE && c.size <= c.nbuf
    ensures Reaches(ls, c, s, s') && s'.mode.Running? && |s'.disk| == c.nblocks && |s'.lh| == c.size - 1 && b !in s'.lh
    ensures t < |s'.procs| && s'.procs[t].Inside? && |s'.procs[t].logged| < MAXOPBLOCKS
    ensures Exec(c, s', LogCheck(t, b)) == Some(s'.(mode := Panicked))
  {
    hide Reaches, Mine, List, Share, Init;
    var n := c.size - 1;
    var ls0, s0 := Prepare(c, s);
    var ls1, s1 := Fill(ls0, c, s, s0, n);
    NextBlock(c, s1, n);
    t, b := n % 3, Base(c) + n;
    ReadMiss(c, s1, t, b);
    s' := s1.(cache := s1.cache[b := Buf(s1.disk[b], false, By(t), false)]);
    CheckFull(c, s', t, b);
    hide Exec, Filled;
    Step(ls1, Read(t, b), c, s, s1, s');
    ls := ls1 + [Read(t, b)];
  }

  lemma CheckFull(c: Config, s: State, t: Tid, b: nat)
    requires c.Valid() && |s.disk| == c.nblocks && s.mode.Running? && t < |s.procs| && s.procs[t].Inside?
    requires c.Home(b) && b in s.cache && s.cache[b].holder == By(t) && |s.procs[t].logged + {b}| <= MAXOPBLOCKS
    requires |s.lh| >= c.size - 1
    ensures Exec(c, s, LogCheck(t, b)) == Some(s.(mode := Panicked))
  {}

  // ----- the header outgrows the log area

  lemma ModifyOne(c: Config, s: State, t: Tid, b: nat, data: Block)
    requires c.Valid() && |s.disk| == c.nblocks && s.mode.Running? && t < |s.procs| && s.procs[t].Inside?
    requires c.Home(b) && b in s.cache && s.cache[b].holder == By(t)
    ensures Exec(c, s, Modify(t, b, data)) == Some(s.(cache := s.cache[b := s.cache[b].(data := data, unlogged := true)]))
  {}

  /** Two processes read a block each, and the second changes its block. */
  lemma {:induction false} OpenBoth(ls: seq<Label>, c: Config, s0: State, s: State, t: Tid, u: Tid, b: nat, data: Block)
    returns (ls': seq<Label>, s': State)
    requires Reaches(ls, c, s0, s) && c.Valid() && |s.disk| == c.nblocks && s.mode.Running?
    requires t < |s.procs| && u < |s.procs| && s.procs[u].Inside?
    requires c.Home(b) && c.Home(b + 1) && b !in s.cache && b + 1 !in s.cache && |s.cache| + 1 < c.nbuf
    ensures Reaches(ls', c, s0, s')
    ensures s' == s.(cache := s.cache[b := Buf(s.disk[b], false, By(t), false)][b + 1 := Buf(data, false, By(u), true)])
  {
    hide Reaches, Exec;
    var c1 := s.cache[b := Buf(s.disk[b], false, By(t), false)];
    var c2 := c1[b + 1 := Buf(s.disk[b + 1], false, By(u), false)];
    var s1, s2 := s.(cache := c1), s.(cache := c2);
    s' := s.(cache := c1[b + 1 := Buf(data, false, By(u), true)]);
    assert |c1| == |s.cache| + 1;
    assert c2[b + 1 := c2[b + 1].(data := data, unlogged := true)] == s'.cache;
    ReadMiss(c, s, t, b);
    ReadMiss(c, s1, u, b + 1);
    ModifyOne(c, s2, u, b + 1, data);
    Step(ls, Read(t, b), c, s0, s, s1);
    Step(ls + [Read(t, b)], Read(u, b + 1), c, s0, s1, s2);
    Step(ls + [Read(t, b)] + [Read(u, b + 1)], Modify(u, b + 1, data), c, s0, s2, s');
    ls' := ls + [Read(t, b)] + [Read(u, b + 1)] + [Modify(u, b + 1, data)];
  }

  /** Two processes pass the checks while there is room for one entry. */
  lemma {:induction false} CheckBoth(ls: seq<Label>, c: Config, s0: State, s: State, t: Tid, u: Tid, b: nat, d: nat)
    returns (ls': seq<Label>, s': State)
    requires Reaches(ls, c, s0, s) && c.Valid() && |s.disk| == c.nblocks && s.mode.Running? && s.outstanding >= 1
    requires t < |s.procs| && u < |s.procs| && t != u && s.procs[t].Inside? && s.procs[u].Inside?
    requires |s.procs[t].logged + {b}| <= MAXOPBLOCKS && |s.procs[u].logged + {d}| <= MAXOPBLOCKS
    requires c.Home(b) && c.Home(d) && b in s.cache && d in s.cache
    requires s.cache[b].holder == By(t) && s.cache[d].holder == By(u)
    requires |s.lh| < LOGSIZE && |s.lh| < c.size - 1
    ensures Reaches(ls', c, s0, s')
    ensures s' == s.(procs := s.procs[t := Checked(s.procs[t].logged, b)][u := Checked(s.procs[u].logged, d)])
  {
    hide Reaches, Exec;
    var s1 := s.(procs := s.procs[t := Checked(s.procs[t].logged, b)]);
    s' := s1.(procs := s1.procs[u := Checked(s1.procs[u].logged, d)]);
    CheckOne(c, s, t, b);
    CheckOne(c, s1, u, d);
    Step(ls, LogCheck(t, b), c, s0, s, s1);
    Step(ls + [LogCheck(t, b)], LogCheck(u, d), c, s0, s1, s');
    ls' := ls + [LogCheck(t, b)] + [LogCheck(u, d)];
  }

  /** A process that has passed the checks appends its block and releases it. */
  lemma AppendRelease(ls: seq<Label>, c: Config, s0: State, s: State, t: Tid) returns (ls': seq<Label>, s': State)
    requires Reaches(ls, c, s0, s) && c.Valid() && |s.disk| == c.nblocks && s.mode.Running? && t < |s.procs| && s.procs[t].Checked?
    requires var b := s.procs[t].b; b in s.cache && s.cache[b].holder == By(t) && b !in s.lh
    ensures Reaches(ls', c, s0, s')
    ensures var Checked(logged, b) := s.procs[t];
            s' == s.(lh := s.lh + [b], procs := s.procs[t := Inside(logged + {b})],
                     cache := s.cache[b := Buf(s.cache[b].data, true, Free, false)])
  {
    hide Reaches, Exec;
    var Checked(logged, b) := s.procs[t];
    var s1 := s.(lh := s.lh + [b], procs := s.procs[t := Inside(logged + {b})],
                 cache := s.cache[b := s.cache[b].(dirty := true, unlogged := false)]);
    s' := s1.(cache := s.cache[b := Buf(s.cache[b].data, true, Free, false)]);
    assert s1.cache[b := s1.cache[b].(holder := Free)] == s'.cache;
    AppendOne(c, s, t);
    Step(ls, LogAppend(t), c, s0, s, s1);
    ReleaseOne(c, s1, t, b);
    Step(ls + [LogAppend(t)], Release(t, b), c, s0, s1, s');
    ls' := ls + [LogAppend(t)] + [Release(t, b)];
  }

  /** Room for one entry, and for one more block in each of two operations. */
  ghost predicate TwoReady(c: Config, s: State, t: Tid, u: Tid, b: nat) {
    && c.Valid() && |s.disk| == c.nblocks && s.mode.Running? && s.outstanding >= 1
    && t < |s.procs| && u < |s.procs| && t != u && s.procs[t].Inside? && s.procs[u].Inside?
    && |s.procs[t].logged + {b}| <= MAXOPBLOCKS && |s.procs[u].logged + {b + 1}| <= MAXOPBLOCKS
    && c.Home(b) && c.Home(b + 1) && b !in s.cache && b + 1 !in s.cache && b !in s.lh && b + 1 !in s.lh
    && |s.lh| < LOGSIZE && |s.lh| < c.size - 1 && |s.cache| + 1 < c.nbuf
  }

  /** Both append their blocks, and the header has one entry more than the checks allow. */
  lemma {:induction false} AppendBoth(ls: seq<Label>, c: Config, s0: State, s: State, t: Tid, u: Tid, b: nat, data: Block)
    returns (ls': seq<Label>, s': State)
    requires Reaches(ls, c, s0, s) && TwoReady(c, s, t, u, b)
    ensures Reaches(ls', c, s0, s')
    ensures s' == s.(lh := s.lh + [b] + [b + 1],
                     cache := s.cache[b := Buf(s.disk[b], true, Free, false)][b + 1 := Buf(data, true, Free, false)],
                     procs := s.procs[t := Inside(s.procs[t].logged + {b})][u := Inside(s.procs[u].logged + {b + 1})])
  {
    hide Reaches, Exec;
    var ls0, s1 := OpenBoth(ls, c, s0, s, t, u, b, data);
    var ls1, s2 := CheckBoth(ls0, c, s0, s1, t, u, b, b + 1);
    var ls2, s3 := AppendRelease(ls1, c, s0, s2, t);
    ls', s' := AppendRelease(ls2, c, s0, s3, u);
    MapTwice(s.cache, b, b + 1, s1.cache[b], s1.cache[b + 1], s3.cache[b], s'.cache[b + 1]);
    SeqTwice(s.procs, t, u, s2.procs[t], s2.procs[u], s3.procs[t], s'.procs[u]);
  }

  lemma MapTwice(m: map<nat, Buf>, b: nat, d: nat, x: Buf, y: Buf, x': Buf, y': Buf)
    requires b != d
    ensures m[b := x][d := y][b := x'][d := y'] == m[b := x'][d := y']
  {}

  lemma SeqTwice(procs: seq<Proc>, t: Tid, u: Tid, x: Proc, y: Proc, x': Proc, y': Proc)
    requires t < |procs| && u < |procs| && t != u
    ensures procs[t := x][u := y][t := x'][u := y'] == procs[t := x'][u := y']
  {}

  /** The last block that was logged is to become `data`. */
  predicate LastIs(c: Config, s: State, data: Block) {
    0 < c.size && Base(c) + c.size - 1 in s.cache && s.cache[Base(c) + c.size - 1].data == data
  }

  /** Three operations under way, whose blocks are one more than the log area holds. */
  ghost predicate Outgrown(c: Config, s: State, data: Block) {
    && c.Valid() && |s.disk| == c.nblocks && Base(c) + LOGSIZE <= c.nblocks && 2 <= c.size <= LOGSIZE
    && s.mode.Running? && s.committing.No? && s.outstanding == 3
    && |s.procs| == 3 && s.procs[0].Inside? && s.procs[1].Inside? && s.procs[2].Inside?
    && s.lh == List(Base(c), c.size) && AllLogged(c, s, c.size) && LastIs(c, s, data)
  }

  /** With a log area smaller than a full header, the header outgrows it: there are more entries than
      the log has blocks. */
  lemma HeaderOutgrows(c: Config, s: State, data: Block) returns (ls: seq<Label>, s': State)
    requires c.Valid() && Init(c, s) && s.procs == [Outside, Outside, Outside] && Base(c) + LOGSIZE <= c.nblocks
    requires 2 <= c.size <= LOGSIZE && c.size <= c.nbuf
    ensures Reaches(ls, c, s, s') && Outgrown(c, s', data) && |s'.lh| == c.size
    ensures s'.disk == s.disk[c.start := HeadBlock(s.disk[c.start], [])]
  {
    hide Reaches, Filled, Init, HeadBlock;
    var n := c.size - 2;
    var ls0, s0 := Prepare(c, s);
    var ls1, s1 := Fill(ls0, c, s, s0, n);
    ls, s' := TwoMore(ls1, c, s, s1, n, data);
    ListFacts(Base(c), c.size);
  }

  lemma TwoMore(ls: seq<Label>, c: Config, s0: State, s: State, n: nat, data: Block) returns (ls': seq<Label>, s': State)
    requires Reaches(ls, c, s0, s) && Filled(c, s, n) && n + 2 == c.size <= LOGSIZE && c.size <= c.nbuf
    ensures Reaches(ls', c, s0, s') && Outgrown(c, s', data) && s'.disk == s.disk
  {
    hide Reaches, Mine, Exec, List, AllLogged;
    var t, u := TwoBlocks(c, s, n);
    ls', s' := AppendBoth(ls, c, s0, s, t, u, Base(c) + n, data);
    BothLogged(c, s, s', n, data);
    ListTwo(Base(c), n);
  }

  /** The next two blocks go to different processes, which have room for them. */
  lemma TwoProcs(lo: nat, n: nat, procs: seq<Proc>) returns (t: Tid, u: Tid)
    requires n + 2 <= LOGSIZE
    requires procs == [Inside(Mine(lo, n, 0)), Inside(Mine(lo, n, 1)), Inside(Mine(lo, n, 2))]
    ensures t < 3 && u < 3 && t != u && procs[t].Inside? && procs[u].Inside?
    ensures |procs[t].logged + {lo + n}| <= MAXOPBLOCKS && |procs[u].logged + {lo + n + 1}| <= MAXOPBLOCKS
  {
    t, u := n % 3, (n + 1) % 3;
    NextShare(lo, n, t);
    NextShare(lo, n + 1, u);
    ShareApart(lo, n, t, u);
    hide Mine;
    assert t == 0 || t == 1 || t == 2;
    assert u == 0 || u == 1 || u == 2;
  }

  lemma TwoBlocks(c: Config, s: State, n: nat) returns (t: Tid, u: Tid)
    requires Filled(c, s, n) && n + 2 == c.size <= LOGSIZE && c.size <= c.nbuf
    ensures TwoReady(c, s, t, u, Base(c) + n)
  {
    ListFacts(Base(c), n);
    hide Mine, List;
    t, u := TwoProcs(Base(c), n, s.procs);
  }

  lemma ListTwo(lo: nat, n: nat)
    ensures List(lo, n) + [lo + n] + [lo + n + 1] == List(lo, n + 2)
  {
    assert List(lo, n + 1) == List(lo, n) + [lo + n];
  }

  /** The process that is not the next in turn has logged no more after the next. */
  lemma ShareApart(lo: nat, n: nat, t: Tid, u: Tid)
    requires t == n % 3 && u == (n + 1) % 3
    ensures t != u && Mine(lo, n + 1, u) == Mine(lo, n, u)
  {}

  lemma BothLogged(c: Config, s: State, s': State, n: nat, data: Block)
    requires AllLogged(c, s, n) && n + 2 == c.size && Base(c) + n < |s.disk|
    requires var b := Base(c) + n;
             s'.cache == s.cache[b := Buf(s.disk[b], true, Free, false)][b + 1 := Buf(data, true, Free, false)]
    ensures AllLogged(c, s', c.size) && LastIs(c, s', data)
  {
    var b := Base(c) + n;
    var s1 := s.(cache := s.cache[b := Buf(s.disk[b], true, Free, false)]);
    LoggedNext(c, s, s1, n, s.disk[b]);
    LoggedNext(c, s1, s', n + 1, data);
    hide AllLogged;
  }

  // ----- and the commit overwrites the block after the log area

  lemma EndOne(c: Config, s: State, t: Tid)
    requires c.Valid() && |s.disk| == c.nblocks && s.mode.Running? && t < |s.procs| && s.procs[t].Inside?
    requires forall b | b in s.cache :: !s.cache[b].unlogged
    requires forall u | 0 <= u < |s.procs| :: s.procs[u] != Sleeping
    requires s.committing.No? && s.outstanding >= 1 && |s.lh| > 0
    ensures s.outstanding > 1 ==>
              Exec(c, s, End(t)) == Some(s.(outstanding := s.outstanding - 1, procs := s.procs[t := Outside]))
    ensures s.outstanding == 1 ==>
              Exec(c, s, End(t)) == Some(s.(outstanding := 0, procs := s.procs[t := Committer], committing := Yes(t, CopyLog(0))))
  {
    assert WakeAll(s.procs[t := Outside]) == s.procs[t := Outside];
  }

  lemma EndThree(ls: seq<Label>, c: Config, s0: State, s: State, data: Block) returns (ls': seq<Label>, s': State)
    requires Reaches(ls, c, s0, s) && Outgrown(c, s, data)
    ensures Reaches(ls', c, s0, s')
    ensures s' == s.(outstanding := 0, procs := [Outside, Outside, Committer], committing := Yes(2, CopyLog(0)))
  {
    hide Reaches, Exec;
    ListFacts(Base(c), c.size);
    var s1 := s.(outstanding := 2, procs := s.procs[0 := Outside]);
    var s2 := s.(outstanding := 1, procs := s.procs[0 := Outside][1 := Outside]);
    s' := s.(outstanding := 0, procs := [Outside, Outside, Committer], committing := Yes(2, CopyLog(0)));
    assert s2.procs[2 := Committer] == s'.procs;
    EndOne(c, s, 0);
    EndOne(c, s1, 1);
    EndOne(c, s2, 2);
    Step(ls, End(0), c, s0, s, s1);
    Step(ls + [End(0)], End(1), c, s0, s1, s2);
    Step(ls + [End(0)] + [End(1)], End(2), c, s0, s2, s');
    ls' := ls + [End(0)] + [End(1)] + [End(2)];
  }

  /** In the middle of copying an outgrown header. */
  ghost predicate Copying(c: Config, s: State, i: nat) {
    && c.Valid() && |s.disk| == c.nblocks && Base(c) + LOGSIZE <= c.nblocks && 2 <= c.size <= LOGSIZE && c.size < c.nbuf
    && s.mode.Running? && s.committing == Yes(2, CopyLog(i))
    && s.lh == List(Base(c), c.size) && AllLogged(c, s, c.size)
  }

  lemma {:induction false} CopyArea(ls: seq<Label>, c: Config, s0: State, s: State, i: nat) returns (ls': seq<Label>, s': State)
    requires Reaches(ls, c, s0, s) && Copying(c, s, 0) && i < c.size
    ensures Reaches(ls', c, s0, s') && Copying(c, s', i) && s'.cache == s.cache
    ensures forall b | 0 <= b < c.nblocks && !(c.start < b < c.start + c.size) :: s'.disk[b] == s.disk[b]
  {
    hide Reaches, Exec, AllLogged;
    if i == 0 {
      ls', s' := ls, s;
    } else {
      var ls1, s1 := CopyArea(ls, c, s0, s, i - 1);
      ls', s' := CopyOne(ls1, c, s0, s1, i - 1);
    }
  }

  lemma CopyOne(ls: seq<Label>, c: Config, s0: State, s: State, i: nat) returns (ls': seq<Label>, s': State)
    requires Reaches(ls, c, s0, s) && Copying(c, s, i) && i < c.size - 1
    ensures Reaches(ls', c, s0, s') && Copying(c, s', i + 1) && s'.cache == s.cache
    ensures forall b | 0 <= b < c.nblocks && !(c.start < b < c.start + c.size) :: s'.disk[b] == s.disk[b]
  {
    hide Reaches, Exec;
    ListFacts(Base(c), c.size);
    var b := c.LogBlock(i);
    var data := s.cache[s.lh[i]].data;
    CopyMiss(c, s, i);
    var s1 := s.(disk := s.disk[b := data], cache := s.cache[b := Buf(data, false, Free, false)], committing := Yes(2, CopyLog(i + 1)));
    Step(ls, Commit, c, s0, s, s1);
    EvictOne(c, s1, b);
    s' := s1.(cache := s.cache);
    assert s1.cache - {b} == s.cache;
    Step(ls + [Commit], Evict(b), c, s0, s1, s');
    ls' := ls + [Commit] + [Evict(b)];
  }

  /** Without room for the whole group, and with a buffer to spare, the commit overwrites a home block
      before anything is committed. */
  lemma CommitOverwrites(c: Config, s: State, data: Block) returns (ls: seq<Label>, s': State, s'': State)
    requires c.Valid() && Init(c, s) && s.procs == [Outside, Outside, Outside] && Base(c) + LOGSIZE <= c.nblocks
    requires 2 <= c.size <= LOGSIZE && c.size < c.nbuf
    ensures Reaches(ls, c, s, s') && s'.committing.Yes? && s'.committing.ph.CopyLog? && |s'.disk| == c.nblocks
    ensures Exec(c, s', Commit) == Some(s'') && |s''.disk| == c.nblocks
    ensures c.Home(c.start + c.size)
    ensures Recovered(c, s'.disk, c.start + c.size) == s.disk[c.start + c.size]
    ensures Recovered(c, s''.disk, c.start + c.size) == data
  {
    hide Reaches, Exec, Init, AllLogged;
    var ls0, s0 := HeaderOutgrows(c, s, data);
    var ls1, s1 := EndThree(ls0, c, s, s0, data);
    assert Copying(c, s1, 0) by { SameLogged(c, s0, s1); }
    ls, s' := CopyArea(ls1, c, s, s1, c.size - 1);
    var i := c.size - 1;
    LastCopy(c, s', data);
    s'' := Exec(c, s', Commit).value;
    InitStart(c, s);
    hide HeadBlock;
    assert Count(s'.disk[c.start]) == 0 && s''.disk[c.start] == s'.disk[c.start];
    EmptyLog(c, s'.disk, c.start + c.size);
    EmptyLog(c, s''.disk, c.start + c.size);
  }

  lemma SameLogged(c: Config, s: State, s': State)
    requires AllLogged(c, s, c.size) && s'.cache == s.cache
    ensures AllLogged(c, s', c.size)
  {}

  lemma LastCopy(c: Config, s: State, data: Block)
    requires 0 < c.size && Copying(c, s, c.size - 1) && LastIs(c, s, data)
    ensures Exec(c, s, Commit).Some?
    ensures Exec(c, s, Commit).value.disk == s.disk[c.start + c.size := data]
  {
    hide Exec;
    ListFacts(Base(c), c.size);
    CopyMiss(c, s, c.size - 1);
  }

  lemma InitStart(c: Config, s: State)
    requires c.Valid() && Init(c, s)
    ensures |s.disk| == c.nblocks && Count(HeadBlock(s.disk[c.start], [])) == 0
  {}

  lemma EmptyLog(c: Config, disk: seq<Block>, b: nat)
    requires c.Valid() && |disk| == c.nblocks && b < c.nblocks && Count(disk[c.start]) == 0
    ensures Recovered(c, disk, b) == disk[b]
  {}

  // ----- unless there is no buffer to spare

  lemma NoBufferLeft(c: Config, s: State)
    requires c.Valid() && |s.disk| == c.nblocks && s.mode.Running? && s.committing.Yes? && s.committing.ph == CopyLog(0)
    requires 2 <= c.size == c.nbuf && s.lh == List(Base(c), c.size) && AllLogged(c, s, c.size)
    ensures Exec(c, s, Commit) == Some(s.(mode := Panicked))
  {
    ListFacts(Base(c), c.size);
    assert s.lh[0] in s.cache && c.LogBlock(0) !in s.cache;
    assert s.cache.Keys + {c.LogBlock(0), s.lh[0]} == s.cache.Keys + {c.LogBlock(0)};
    hide Act, Loaded, List;
  }

  /** With as many buffers as the log has blocks, the same group takes all of them, and its commit panics
      before it writes anything. */
  lemma {:induction false} CommitStops(c: Config, s: State) returns (ls: seq<Label>, s1: State, s': State)
    requires c.Valid() && Init(c, s) && s.procs == [Outside, Outside, Outside] && Base(c) + LOGSIZE <= c.nblocks
    requires 2 <= c.size <= LOGSIZE && c.size == c.nbuf
    ensures Reaches(ls, c, s, s1) && s1.committing.Yes? && s1.committing.ph == CopyLog(0) && |s1.lh| == c.size
    ensures |s1.disk| == c.nblocks && Exec(c, s1, Commit) == Some(s') && Reaches(ls + [Commit], c, s, s')
    ensures s' == s1.(mode := Panicked)
    ensures forall b: nat | c.Home(b) :: s'.disk[b] == s.disk[b]
    ensures forall b: nat | c.Home(b) :: Recovered(c, s'.disk, b) == s.disk[b]
  {
    hide Reaches, Exec, Init, AllLogged, HeadBlock;
    InitStart(c, s);
    var ls0, s0 := HeaderOutgrows(c, s, []);
    ls, s1 := EndThree(ls0, c, s, s0, []);
    SameLogged(c, s0, s1);
    NoBufferLeft(c, s1);
    s' := s1.(mode := Panicked);
    Step(ls, Commit, c, s, s1, s');
    forall b: nat | c.Home(b) ensures s'.disk[b] == s.disk[b] == Recovered(c, s'.disk, b) { EmptyLog(c, s'.disk, b); }
  }

  /** On the disk of mkfs: three operations fill the header with 30 entries, one more than the log holds,
      and the commit finds no buffer. */
  lemma {:induction false} MkfsCommitStops(s: State) returns (ls: seq<Label>, s': State)
    requires Init(MKFS, s) && s.procs == [Outside, Outside, Outside]
    ensures Reaches(ls, MKFS, s, s') && |ls| > 0 && ls[|ls| - 1] == Commit
    ensures s'.mode.Panicked? && |s'.lh| == LOGSIZE == MKFS.size == MKFS.nbuf
    ensures |s'.disk| == |s.disk| == FSSIZE && forall b: nat | MKFS.Home(b) :: s'.disk[b] == s.disk[b]
  {
    hide Reaches, Init;
    InitStart(MKFS, s);
    var ls1, s1, s2 := CommitStops(MKFS, s);
    ls, s' := ls1 + [Commit], s2;
  }

  // ----- exactly the sound configurations are safe

  ghost predicate AlwaysSafe(c: Config) {
    forall r: Run | IsRun(c, r) && Init(c, r.states[0]) :: NothingLost(c, r)
  }

  lemma UnsoundLoses(c: Config) returns (r: Run)
    requires c.Valid() && !Sound(c) && Base(c) + LOGSIZE <= c.nblocks
    ensures IsRun(c, r) && Init(c, r.states[0]) && !NothingLost(c, r)
  {
    hide Reaches, Exec, Recovered;
    var zero: Block := seq(WORDS, _ => 0);
    var s := State(seq(c.nblocks, _ => zero), map[], [], 0, No, [Outside, Outside, Outside], Recovering(ReadHead));
    var ls, s1, s2 := CommitOverwrites(c, s, [1]);
    Step(ls, Commit, c, s, s1, s2);
    r := AsRun(ls + [Commit], c, s, s2);
    var n := |ls|;
    assert r.labels[n] == Commit && r.states[n + 1] == s2;
    LastState(ls, c, s, s1, r);
    assert Recovered(c, r.states[n + 1].disk, c.start + c.size) != Recovered(c, r.states[n].disk, c.start + c.size);
  }

  /** Steps are deterministic, so a run that follows the labels passes the same states. */
  lemma {:induction false} LastState(ls: seq<Label>, c: Config, s: State, s1: State, r: Run)
    requires Reaches(ls, c, s, s1) && IsRun(c, r) && r.states[0] == s && |r.labels| == |ls| + 1 && r.labels[..|ls|] == ls
    ensures r.states[|ls|] == s1
  {
    hide Exec;
    if ls != [] {
      assert r.labels[0] == ls[0];
      var p := Run(r.states[1..], r.labels[1..]);
      forall i {:trigger p.labels[i]} | 0 <= i < |p.labels| ensures Exec(c, p.states[i], p.labels[i]) == Some(p.states[i + 1]) {
        assert p.labels[i] == r.labels[i + 1];
      }
      assert p.labels[..|ls| - 1] == ls[1..];
      LastState(ls[1..], c, Exec(c, s, ls[0]).value, s1, p);
    }
  }

  /** For every log with as many blocks behind it as an operation group may log: all runs are crash
      safe if and only if the log holds a full header, or it holds nothing, or there are no more buffers
      than log blocks, so that the commit of a group that is too large panics before it writes. */
  lemma SafeExactly(c: Config)
    requires c.Valid() && Base(c) + LOGSIZE <= c.nblocks
    ensures AlwaysSafe(c) <==> Sound(c)
  {
    hide Exec, Init, NothingLost, AllContained, Sound;
    if Sound(c) {
      forall r: Run | IsRun(c, r) && Init(c, r.states[0]) ensures NothingLost(c, r) {
        SoundContains(c, r);
        ContainedLosesNothing(c, r);
      }
    } else {
      var r := UnsoundLoses(c);
    }
  }

  /** The disk of mkfs is safe, although its log holds one block less than a full header; with one more
      buffer in the kernel it would not be. */
  lemma MkfsDisk()
    ensures MKFS.Valid() && MKFS.size - 1 < LOGSIZE
    ensures AlwaysSafe(MKFS) && !AlwaysSafe(MKFS.(nbuf := NBUF + 1))
  {
    hide AlwaysSafe;
    SafeExactly(MKFS);
    SafeExactly(MKFS.(nbuf := NBUF + 1));
  }
}
