/** For which configurations is every run crash safe? The checks of log_write are made without the lock,
    so the header can outgrow the log area; what comes of it depends on the number of buffers. */
module LogSound {
  import opened Counting
  import opened LogMachine
  import opened LogProofs
  import opened LogTheorems

  /** The log area holds a full header; or the buffers run out before the log area does; or the area is
      empty, and nothing is ever logged. */
  predicate Sound(c: Config) { LOGSIZE <= c.size - 1 || c.nbuf <= c.size || c.size == 1 }

  /** The step that commits a group: write_head, once it has its buffer. */
  predicate WritesHead(c: Config, s: State, l: Label) {
    && l.Commit? && s.mode.Running? && s.committing.Yes? && s.committing.ph.CommitHead?
    && HasBuffers(c, s, l)
  }

  /** What recovery would restore is for every home block what it was before the step; but the writing of
      the header replaces all of it by what has been logged, which is what bread finds. */
  ghost predicate Atomic(c: Config, s: State, l: Label, s': State)
    requires c.Valid() && |s.disk| == |s'.disk| == c.nblocks
  {
    forall b: nat | c.Home(b) ::
      Recovered(c, s'.disk, b) == if WritesHead(c, s, l) then Content(s, b) else Recovered(c, s.disk, b)
  }

  /** Every step of the run is atomic, crashes and steps of recovery included. */
  ghost predicate NothingLost(c: Config, r: Run)
    requires IsRun(c, r)
  {
    forall i {:trigger r.labels[i]} | 0 <= i < |r.labels| :: Atomic(c, r.states[i], r.labels[i], r.states[i + 1])
  }

  // ----- how many buffers are in use

  ghost predicate BufInv(c: Config, s: State) {
    && |s.cache| <= c.nbuf
    && (c.size == 1 && s.mode.Running? ==> s.lh == [] && forall t | 0 <= t < |s.procs| :: !s.procs[t].Checked?)
  }

  /** A step takes no buffer for a block that it does not need. */
  lemma ActKeys(c: Config, s: State, l: Label)
    requires c.Valid() && |s.disk| == c.nblocks && Act(c, s, l).Some?
    requires forall b | b in Needs(c, s, l) && b < c.nblocks :: b in s.cache
    ensures Act(c, s, l).value.cache.Keys <= s.cache.Keys
  {}

  lemma LoadedKeys(s: State, need: set<nat>)
    ensures Loaded(s, need).cache.Keys <= s.cache.Keys + need
    ensures forall b | b in need && b < |s.disk| :: b in Loaded(s, need).cache
  {}

  lemma SmallCache(c: Config, s: State, l: Label)
    requires c.Valid() && |s.disk| == c.nblocks && Exec(c, s, l).Some? && |s.cache| <= c.nbuf
    ensures |Exec(c, s, l).value.cache| <= c.nbuf
  {
    hide Act, Loaded;
    if HasBuffers(c, s, l) {
      var s1 := Loaded(s, Needs(c, s, l));
      LoadedKeys(s, Needs(c, s, l));
      SameNeeds(c, s, l);
      ActKeys(c, s1, l);
      var keys := Act(c, s1, l).value.cache.Keys;
      if Needs(c, s, l) <= s.cache.Keys {
        assert keys <= s.cache.Keys;
        SubsetSize(keys, s.cache.Keys);
      } else {
        SubsetSize(keys, s.cache.Keys + Needs(c, s, l));
      }
    }
  }

  lemma SameNeeds(c: Config, s: State, l: Label)
    ensures Needs(c, Loaded(s, Needs(c, s, l)), l) == Needs(c, s, l) && Loaded(s, Needs(c, s, l)).disk == s.disk
  {}

  /** With a log of one block, log_write always panics. */
  lemma TinyAct(c: Config, s: State, l: Label, a: Abs)
    requires c.Valid() && |s.disk| == c.nblocks && Inv(c, s, a) && Act(c, s, l).Some? && c.size == 1
    requires s.mode.Running? ==> s.lh == [] && forall t | 0 <= t < |s.procs| :: !s.procs[t].Checked?
    ensures var s' := Act(c, s, l).value;
            s'.mode.Running? ==> s'.lh == [] && forall t | 0 <= t < |s'.procs| :: !s'.procs[t].Checked?
  {
    hide CacheInv, DiskInv, InOps, Reserved, ProcInv;
  }

  lemma BufKeeps(c: Config, s: State, l: Label, a: Abs)
    requires c.Valid() && |s.disk| == c.nblocks && Inv(c, s, a) && BufInv(c, s) && Exec(c, s, l).Some?
    ensures BufInv(c, Exec(c, s, l).value)
  {
    SmallCache(c, s, l);
    if c.size == 1 && HasBuffers(c, s, l) {
      LoadKeeps(c, s, Needs(c, s, l), a);
      TinyExec(c, s, l, a);
    }
    hide Act, Inv;
  }

  lemma TinyExec(c: Config, s: State, l: Label, a: Abs)
    requires c.Valid() && |s.disk| == c.nblocks && BufInv(c, s) && Exec(c, s, l).Some? && c.size == 1 && HasBuffers(c, s, l)
    requires Inv(c, Loaded(s, Needs(c, s, l)), a)
    ensures var s' := Exec(c, s, l).value;
            s'.mode.Running? ==> s'.lh == [] && forall t | 0 <= t < |s'.procs| :: !s'.procs[t].Checked?
  {
    hide Act, Inv;
    var s1 := Loaded(s, Needs(c, s, l));
    assert s1.mode == s.mode && s1.lh == s.lh && s1.procs == s.procs;
    TinyAct(c, s1, l, a);
  }

  // ----- a sound configuration contains every group

  /** The group pins a buffer for each of its blocks, and copying takes one more. */
  lemma GroupBuffers(c: Config, s: State, a: Abs)
    requires Inv(c, s, a) && s.mode.Running? && s.committing.Yes? && s.committing.ph == CopyLog(0)
    requires |s.cache| <= c.nbuf && HasBuffers(c, s, Commit) && 0 < |s.lh| && 1 < c.size
    ensures |s.lh| < c.nbuf
  {
    hide ProcInv, DiskInv, BufOK;
    var group := Members(s.lh);
    DistinctSize(s.lh);
    forall b | b in group ensures b in s.cache && c.Home(b) {
      var i :| 0 <= i < |s.lh| && s.lh[i] == b;
      assert IsPending(s, b);
    }
    assert c.LogBlock(0) !in group;
    var need := Needs(c, s, Commit);
    SubsetSize(group + {c.LogBlock(0)}, s.cache.Keys + need);
    if need <= s.cache.Keys { assert s.cache.Keys + need == s.cache.Keys; }
  }

  lemma SoundStep(c: Config, s: State, l: Label, a: Abs)
    requires Sound(c) && Inv(c, s, a) && BufInv(c, s)
    ensures Contained(c, s, l)
  {
    hide ProcInv, CacheInv, DiskInv;
    if l.Commit? && s.mode.Running? && s.committing.Yes? && s.committing.ph == CopyLog(0) && HasBuffers(c, s, l) {
      if 0 < |s.lh| && 1 < c.size { GroupBuffers(c, s, a); }
    }
  }

  lemma {:induction false} SoundPrefix(c: Config, r: Run, n: nat) returns (a: Abs)
    requires Sound(c) && IsRun(c, r) && Init(c, r.states[0]) && n < |r.states|
    ensures Inv(c, r.states[n], a) && BufInv(c, r.states[n])
    ensures forall i | 0 <= i < n :: Contained(c, r.states[i], r.labels[i])
  {
    hide Inv, Exec, BufInv, Contained, Sound;
    if n == 0 {
      InitInv(c, r.states[0]);
      a := Abs(r.states[0].disk, r.states[0].disk);
      assert BufInv(c, r.states[0]) by { InitBuf(c, r.states[0]); }
    } else {
      var a0 := SoundPrefix(c, r, n - 1);
      assert Exec(c, r.states[n - 1], r.labels[n - 1]) == Some(r.states[n]);
      InvSizes(c, r.states[n - 1], a0);
      SoundStep(c, r.states[n - 1], r.labels[n - 1], a0);
      StepKeeps(c, r.states[n - 1], r.labels[n - 1], a0);
      BufKeeps(c, r.states[n - 1], r.labels[n - 1], a0);
      a := AbsStep(c, r.states[n - 1], r.labels[n - 1], a0);
    }
  }

  lemma InitBuf(c: Config, s: State)
    requires Init(c, s)
    ensures BufInv(c, s)
  {}

  /** In a sound configuration every run copies only groups that fit, so all theorems apply to it. */
  lemma SoundContains(c: Config, r: Run)
    requires Sound(c) && IsRun(c, r) && Init(c, r.states[0])
    ensures AllContained(c, r)
    ensures forall i | 0 <= i < |r.states| :: |r.states[i].cache| <= c.nbuf
  {
    hide Inv, Exec, Contained, Init, Sound;
    forall i {:trigger r.labels[i]} | 0 <= i < |r.labels| ensures Contained(c, r.states[i], r.labels[i]) {
      var a := SoundPrefix(c, r, i + 1);
    }
    forall i | 0 <= i < |r.states| ensures |r.states[i].cache| <= c.nbuf {
      var a := SoundPrefix(c, r, i);
    }
  }

  /** A run whose groups all fit loses nothing, and commits each of them as a whole. */
  lemma ContainedLosesNothing(c: Config, r: Run)
    requires IsRun(c, r) && AllContained(c, r) && Init(c, r.states[0])
    ensures NothingLost(c, r)
  {
    hide Inv, Exec, Init, Recovered, AllContained, AbsStep, WholeGroups, Atomic;
    var abs := CrashSafe(c, r);
    forall i {:trigger r.labels[i]} | 0 <= i < |r.labels| ensures Atomic(c, r.states[i], r.labels[i], r.states[i + 1]) {
      assert abs[i + 1] == AbsStep(c, r.states[i], r.labels[i], abs[i]);
      AtomicStep(c, r.states[i], r.labels[i], r.states[i + 1], abs[i]);
    }
  }

  lemma AtomicStep(c: Config, s: State, l: Label, s': State, a: Abs)
    requires Inv(c, s, a) && |a.view| == |s.disk| == |s'.disk| == c.nblocks && c.Valid() && Inv(c, s', AbsStep(c, s, l, a))
    ensures Atomic(c, s, l, s')
  {
    var a' := AbsStep(c, s, l, a);
    RecoveredDurable(c, s, a);
    RecoveredDurable(c, s', a');
    DurableAfter(c, s, l, a);
    if WritesHead(c, s, l) { ReadsView(c, s, a); }
    hide Inv, AbsStep, Recovered, WritesHead, Content;
  }

  lemma DurableAfter(c: Config, s: State, l: Label, a: Abs)
    requires |a.view| == c.nblocks
    ensures AbsStep(c, s, l, a).durable == if WritesHead(c, s, l) then a.view else a.durable
  {}

  /** While a group is committed, bread finds what has been logged: nobody is changing a buffer. */
  lemma ReadsView(c: Config, s: State, a: Abs)
    requires Inv(c, s, a) && s.mode.Running? && s.committing.Yes?
    ensures forall b: nat | c.Home(b) :: b < |s.disk| && Content(s, b) == a.view[b]
  {
    NobodyIn(s);
    hide DiskInv, ProcInv, InOps, Reserved;
    forall b: nat | c.Home(b) ensures b < |s.disk| && Content(s, b) == a.view[b] {
      if b in s.cache { assert BufOK(c, s, a, b, s.cache[b]); }
      BufferReads(c, s, a, b);
    }
  }

  lemma NobodyIn(s: State)
    requires s.mode.Running? && ProcInv(s) && s.committing.Yes?
    ensures forall t | 0 <= t < |s.procs| :: !InOp(s.procs[t])
  {
    hide InOps, Reserved;
    NoneInOp(s.procs);
  }
}
