/** The buffers of a commit. A group pins one buffer for each of its blocks until it is installed, and
    copying and installing take one more; whether a commit gets that buffer depends on the group's size. */
module LogBuffers {
  import opened Counting
  import opened LogMachine
  import opened LogProofs
  import opened LogTheorems
  import opened LogSound
  import opened LogPanic

  /** Nobody holds a buffer. */
  predicate AllFree(s: State) { forall b | b in s.cache :: s.cache[b].holder == Free }

  lemma {:induction false} CacheFits(c: Config, r: Run, i: nat)
    requires IsRun(c, r) && Init(c, r.states[0]) && i < |r.states|
    ensures |r.states[i].cache| <= c.nbuf
  {
    hide Exec;
    if i > 0 {
      CacheFits(c, r, i - 1);
      assert Exec(c, r.states[i - 1], r.labels[i - 1]) == Some(r.states[i]);
      SmallCache(c, r.states[i - 1], r.labels[i - 1]);
    }
  }

  /** A dirty buffer belongs to the group. */
  lemma DirtyInGroup(c: Config, s: State, a: Abs, b: nat)
    requires Inv(c, s, a) && s.mode.Running? && b in s.cache && s.cache[b].dirty
    ensures b in Members(s.lh)
  {
    hide ProcInv, DiskInv;
    assert BufOK(c, s, a, b, s.cache[b]);
    var i :| Pending(s) <= i < |s.lh| && s.lh[i] == b;
  }

  lemma GroupSize(c: Config, s: State, a: Abs)
    requires Inv(c, s, a) && s.mode.Running?
    ensures |Members(s.lh)| == |s.lh| && forall b | b in Members(s.lh) :: c.Home(b)
  {
    hide ProcInv, DiskInv, CacheInv;
    DistinctSize(s.lh);
  }

  /** At most one of the blocks that a commit needs is not in the group. */
  lemma NeedsOneMore(c: Config, s: State) returns (m: nat)
    requires s.committing.Yes?
    ensures Needs(c, s, Commit) <= Members(s.lh) + {m}
  {
    var ph := s.committing.ph;
    m := if ph.CopyLog? || ph.Install? then c.LogBlock(ph.i) else c.start;
    if (ph.CopyLog? || ph.Install?) && ph.i < |s.lh| { assert s.lh[ph.i] in Members(s.lh); }
  }

  /** A commit that lacks a buffer finds one to recycle. */
  lemma FindsBuffer(c: Config, s: State, a: Abs) returns (b: nat)
    requires Inv(c, s, a) && s.mode.Running? && s.committing.Yes? && AllFree(s) && |s.lh| < c.nbuf
    requires !HasBuffers(c, s, Commit)
    ensures b !in Needs(c, s, Commit) && Recyclable(s, b)
  {
    GroupSize(c, s, a);
    var m := NeedsOneMore(c, s);
    if forall x | x in s.cache :: x in Needs(c, s, Commit) || !Recyclable(s, x) {
      forall x | x in s.cache.Keys + Needs(c, s, Commit) ensures x in Members(s.lh) + {m} {
        if x !in Needs(c, s, Commit) { DirtyInGroup(c, s, a, x); }
      }
      hide Inv, Needs, Members;
      assert |Members(s.lh) + {m}| <= |Members(s.lh)| + 1;
      SubsetSize(s.cache.Keys + Needs(c, s, Commit), Members(s.lh) + {m});
      assert false;
    } else {
      b :| b in s.cache && b !in Needs(c, s, Commit) && Recyclable(s, b);
    }
  }

  /** How many steps of the commit are left. */
  function Left(s: State): (r: nat) {
    if s.committing.No? then 0
    else match s.committing.ph
      case CopyLog(i) => 2 * |s.lh| + 6 + if i <= |s.lh| then |s.lh| - i else 0
      case CommitHead => |s.lh| + 5
      case Install(i) => 3 + if i <= |s.lh| then |s.lh| - i else 0
      case Erase => 2
      case Finish => 1
  }

  lemma CommitActs(c: Config, s: State, a: Abs)
    requires Inv(c, s, a) && s.mode.Running? && s.committing.Yes? && AllFree(s)
    requires s.committing.ph.CopyLog? ==> InArea(c, s.lh)
    ensures Act(c, s, Commit).Some?
    ensures var s' := Act(c, s, Commit).value;
            && s'.mode.Running? && AllFree(s') && Left(s') < Left(s) && |s'.disk| == c.nblocks
            && (s'.lh == s.lh || s'.lh == []) && (s'.committing.Yes? && s'.committing.ph.CopyLog? ==> s.committing.ph.CopyLog? && s'.lh == s.lh)
  {
    hide ProcInv, CacheInv, InOps, Reserved, HeadBlock, Entries, Count, LogHolds;
  }

  lemma CommitStepTo(ls: seq<Label>, c: Config, s0: State, s: State, a: Abs) returns (ls': seq<Label>, s': State, a': Abs)
    requires Reaches(ls, c, s0, s) && (forall l | l in ls :: l.Commit? || l.Evict?)
    requires Inv(c, s, a) && s.mode.Running? && s.committing.Yes? && AllFree(s) && |s.lh| < c.nbuf
    requires s.committing.ph.CopyLog? ==> InArea(c, s.lh)
    ensures Reaches(ls', c, s0, s') && (forall l | l in ls' :: l.Commit? || l.Evict?)
    ensures Inv(c, s', a') && s'.mode.Running? && AllFree(s') && |s'.lh| < c.nbuf
    ensures s'.committing.Yes? && s'.committing.ph.CopyLog? ==> InArea(c, s'.lh)
    ensures Left(s') < Left(s) || (s'.committing == s.committing && s'.lh == s.lh && |s'.cache| < |s.cache|)
  {
    hide Reaches, Inv, Act, Recyclable, Left;
    InvSizes(c, s, a);
    if HasBuffers(c, s, Commit) {
      var s1 := Loaded(s, Needs(c, s, Commit));
      LoadKeeps(c, s, Needs(c, s, Commit), a);
      assert AllFree(s1) && s1.lh == s.lh && s1.committing == s.committing && s1.mode == s.mode && s1.disk == s.disk;
      CommitActs(c, s1, a);
      SameLeft(s, s1);
      s' := Act(c, s1, Commit).value;
      StepKeeps(c, s, Commit, a);
      a' := AbsStep(c, s, Commit, a);
      Step(ls, Commit, c, s0, s, s');
      ls' := ls + [Commit];
    } else {
      var b := FindsBuffer(c, s, a);
      assert b in s.cache by { InCache(s, b); }
      EvictOne(c, s, b);
      s' := s.(cache := s.cache - {b});
      StepKeeps(c, s, Evict(b), a);
      a' := AbsStep(c, s, Evict(b), a);
      Step(ls, Evict(b), c, s0, s, s');
      ls' := ls + [Evict(b)];
      assert s'.cache.Keys == s.cache.Keys - {b};
      assert |s'.cache.Keys| == |s.cache.Keys| - 1;
      assert s'.committing == s.committing && s'.lh == s.lh && |s'.cache| < |s.cache|;
    }
  }

  lemma SameLeft(s: State, s': State)
    requires s'.committing == s.committing && s'.lh == s.lh
    ensures Left(s') == Left(s)
  {}

  lemma InCache(s: State, b: nat)
    requires Recyclable(s, b)
    ensures b in s.cache
  {}

  lemma {:induction false} CommitRuns(ls: seq<Label>, c: Config, s0: State, s: State, a: Abs) returns (ls': seq<Label>, s': State)
    requires Reaches(ls, c, s0, s) && (forall l | l in ls :: l.Commit? || l.Evict?)
    requires Inv(c, s, a) && s.mode.Running? && AllFree(s) && |s.lh| < c.nbuf
    requires s.committing.Yes? && s.committing.ph.CopyLog? ==> InArea(c, s.lh)
    ensures Reaches(ls', c, s0, s') && (forall l | l in ls' :: l.Commit? || l.Evict?) && s'.mode.Running? && s'.committing.No?
    decreases Left(s), |s.cache|
  {
    hide Reaches, Inv, Left, AllFree, InArea;
    if s.committing.No? {
      ls', s' := ls, s;
    } else {
      var ls1, s1, a1 := CommitStepTo(ls, c, s0, s, a);
      if s1.committing == s.committing && s1.lh == s.lh { SameLeft(s, s1); }
      ls', s' := CommitRuns(ls1, c, s0, s1, a1);
    }
  }

  /** When nobody holds a buffer, the commit of a group that fits in the log, or that takes all buffers, can
      run to its end by itself if and only if it leaves a buffer free. A group that takes all of them
      makes the first step of the commit panic, whether it fits in the log or not. */
  lemma CommitEndsExactly(c: Config, r: Run, i: nat)
    requires IsRun(c, r) && AllContained(c, r) && Init(c, r.states[0]) && i < |r.states| && r.states[i].mode.Running?
    requires r.states[i].committing.Yes? && r.states[i].committing.ph == CopyLog(0) && AllFree(r.states[i])
    requires 0 < |r.states[i].lh| && 1 < c.size && (|r.states[i].lh| <= c.size - 1 || c.nbuf <= |r.states[i].lh|)
    ensures |r.states[i].lh| < c.nbuf <==> Ends(c, r.states[i])
    ensures |r.states[i].lh| >= c.nbuf <==> Exec(c, r.states[i], Commit) == Some(r.states[i].(mode := Panicked))
  {
    hide Inv, Exec, Init, AllContained, Ends, AllFree;
    var s := r.states[i];
    var abs := Reached(c, r);
    CacheFits(c, r, i);
    if |s.lh| < c.nbuf {
      EndsByItself(c, s, abs[i]);
    } else {
      FullGroup(c, s, abs[i]);
    }
  }

  /** Steps of the commit and of bget alone bring the commit to its end. */
  ghost predicate Ends(c: Config, s: State)
    requires c.Valid() && |s.disk| == c.nblocks
  {
    exists ls: seq<Label>, s' :: Reaches(ls, c, s, s') && (forall l | l in ls :: l.Commit? || l.Evict?) && s'.mode.Running? && s'.committing.No?
  }

  lemma EndsByItself(c: Config, s: State, a: Abs)
    requires Inv(c, s, a) && c.Valid() && |s.disk| == c.nblocks && s.mode.Running? && s.committing.Yes? && s.committing.ph == CopyLog(0)
    requires AllFree(s) && 0 < |s.lh| <= c.size - 1 && |s.lh| < c.nbuf
    ensures Ends(c, s) && Exec(c, s, Commit) != Some(s.(mode := Panicked))
  {
    assert Reaches([], c, s, s);
    hide Reaches, Inv, Left, Act;
    var ls, s' := CommitRuns([], c, s, s, a);
    if HasBuffers(c, s, Commit) {
      var s1 := Loaded(s, Needs(c, s, Commit));
      LoadKeeps(c, s, Needs(c, s, Commit), a);
      CommitActs(c, s1, a);
    } else {
      var b := FindsBuffer(c, s, a);
      InCache(s, b);
    }
  }

  lemma FullGroup(c: Config, s: State, a: Abs)
    requires Inv(c, s, a) && c.Valid() && |s.disk| == c.nblocks && s.mode.Running? && s.committing.Yes? && s.committing.ph == CopyLog(0)
    requires 0 < |s.lh| && 1 < c.size && |s.cache| <= c.nbuf <= |s.lh|
    ensures !Ends(c, s) && Exec(c, s, Commit) == Some(s.(mode := Panicked))
  {
    GroupSize(c, s, a);
    AllPinned(c, s, a);
    SubsetSize(Members(s.lh), s.cache.Keys);
    hide Inv;
    assert c.LogBlock(0) in Needs(c, s, Commit) && c.LogBlock(0) !in s.cache.Keys;
    assert s.lh[0] in s.cache.Keys;
    assert s.cache.Keys + Needs(c, s, Commit) == s.cache.Keys + {c.LogBlock(0)};
    Stuck(c, s);
  }

  lemma AllPinned(c: Config, s: State, a: Abs)
    requires Inv(c, s, a) && s.mode.Running? && s.committing.Yes? && s.committing.ph == CopyLog(0)
    ensures forall b | b in Members(s.lh) :: b in s.cache && !Recyclable(s, b)
  {
    hide ProcInv, DiskInv;
    forall b | b in Members(s.lh) ensures b in s.cache && !Recyclable(s, b) {
      assert IsPending(s, b);
      assert BufOK(c, s, a, b, s.cache[b]);
    }
  }

  /** Nothing but a panic is possible when no buffer is left. */
  lemma Stuck(c: Config, s: State)
    requires c.Valid() && |s.disk| == c.nblocks && s.mode.Running? && s.committing.Yes? && !HasBuffers(c, s, Commit)
    requires forall b | b in s.cache :: !Recyclable(s, b)
    ensures !Ends(c, s) && Exec(c, s, Commit) == Some(s.(mode := Panicked))
  {
    StuckSteps(c, s);
    hide Exec, Reaches;
    forall ls: seq<Label>, s': State | Reaches(ls, c, s, s') && (forall l | l in ls :: l.Commit? || l.Evict?)
      ensures s'.committing.Yes?
    {
      StuckAfter(c, s, s', ls);
    }
  }

  lemma StuckSteps(c: Config, s: State)
    requires c.Valid() && |s.disk| == c.nblocks && s.mode.Running? && s.committing.Yes? && !HasBuffers(c, s, Commit)
    requires forall b | b in s.cache :: !Recyclable(s, b)
    ensures var p := s.(mode := Panicked);
            && Exec(c, s, Commit) == Some(p) && (forall b :: Exec(c, s, Evict(b)).None?)
            && (forall l: Label | l.Commit? || l.Evict? :: Exec(c, p, l).None?)
  {
    hide Act, Needs, Loaded, HasBuffers, HasUnlogged, Available;
  }

  lemma StuckAfter(c: Config, s: State, s': State, ls: seq<Label>)
    requires c.Valid() && |s.disk| == c.nblocks && s.mode.Running? && s.committing.Yes? && !HasBuffers(c, s, Commit)
    requires forall b | b in s.cache :: !Recyclable(s, b)
    requires Reaches(ls, c, s, s') && (forall l | l in ls :: l.Commit? || l.Evict?)
    ensures s'.committing.Yes?
  {
    hide Exec, HasBuffers, Recyclable;
    StuckSteps(c, s);
    if ls != [] {
      assert ls[0] in ls;
      assert forall l | l in ls[1..] :: l in ls;
    }
  }
}
