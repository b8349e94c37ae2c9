/** Crash safety, atomicity and the buffer cache, over whole runs in which every group that is copied
    to the log fits there. Which configurations guarantee that is said in LogSound. */
module LogTheorems {
  import opened LogMachine
  import opened LogProofs

  datatype Run = Run(states: seq<State>, labels: seq<Label>)

  /** Consecutive states; the first is any state. */
  ghost predicate IsRun(c: Config, r: Run) {
    && c.Valid() && |r.states| == |r.labels| + 1
    && (forall i | 0 <= i < |r.states| :: |r.states[i].disk| == c.nblocks)
    && (forall i {:trigger r.labels[i]} | 0 <= i < |r.labels| :: Exec(c, r.states[i], r.labels[i]) == Some(r.states[i + 1]))
  }

  ghost predicate IsAbsRun(c: Config, r: Run, abs: seq<Abs>)
    requires IsRun(c, r)
  {
    && |abs| == |r.states|
    && (forall i | 0 <= i < |r.states| :: Inv(c, r.states[i], abs[i]) && |abs[i].view| == |abs[i].durable| == c.nblocks)
    && (forall i {:trigger r.labels[i]} | 0 <= i < |r.labels| :: abs[i + 1] == AbsStep(c, r.states[i], r.labels[i], abs[i]))
  }

  /** Every group that is copied to the log fits there. */
  ghost predicate AllContained(c: Config, r: Run)
    requires IsRun(c, r)
  {
    forall i {:trigger r.labels[i]} | 0 <= i < |r.labels| :: Contained(c, r.states[i], r.labels[i])
  }

  lemma InitInv(c: Config, s: State)
    requires c.Valid() && Init(c, s)
    ensures Inv(c, s, Abs(s.disk, s.disk))
  {}

  /** The abstract disk of a run, from any state that satisfies the invariant. */
  lemma {:induction false} AbsRun(c: Config, r: Run, a: Abs) returns (abs: seq<Abs>)
    requires IsRun(c, r) && AllContained(c, r) && Inv(c, r.states[0], a)
    ensures IsAbsRun(c, r, abs) && abs[0] == a
    decreases |r.labels|
  {
    hide Inv, Exec, AbsStep, IsAbsRun;
    InvSizes(c, r.states[0], a);
    if |r.labels| == 0 {
      abs := [a];
      assert IsAbsRun(c, r, abs) by { OneState(c, r, a); }
    } else {
      var n := |r.labels| - 1;
      var p := Run(r.states[..n + 1], r.labels[..n]);
      assert IsRun(c, p) by {
        forall i {:trigger p.labels[i]} | 0 <= i < |p.labels| ensures Exec(c, p.states[i], p.labels[i]) == Some(p.states[i + 1]) {
          assert p.labels[i] == r.labels[i];
        }
      }
      assert AllContained(c, p) by {
        forall i {:trigger p.labels[i]} | 0 <= i < |p.labels| ensures Contained(c, p.states[i], p.labels[i]) {
          assert p.labels[i] == r.labels[i];
        }
      }
      var before := AbsRun(c, p, a);
      abs := Extend(c, r, p, before);
    }
  }

  lemma OneState(c: Config, r: Run, a: Abs)
    requires IsRun(c, r) && |r.labels| == 0 && Inv(c, r.states[0], a)
    ensures IsAbsRun(c, r, [a])
  {
    hide Inv, Exec, AbsStep;
    InvSizes(c, r.states[0], a);
  }

  lemma Extend(c: Config, r: Run, p: Run, before: seq<Abs>) returns (abs: seq<Abs>)
    requires IsRun(c, r) && AllContained(c, r) && |r.labels| > 0 && p == Run(r.states[..|r.labels|], r.labels[..|r.labels| - 1])
    requires IsRun(c, p) && IsAbsRun(c, p, before)
    ensures IsAbsRun(c, r, abs) && abs[0] == before[0]
  {
    hide Inv, Exec, AbsStep;
    var n := |r.labels| - 1;
    assert r.labels[n] == r.labels[n] && p.states[n] == r.states[n];
    var a' := AbsStep(c, r.states[n], r.labels[n], before[n]);
    StepKeeps(c, r.states[n], r.labels[n], before[n]);
    InvSizes(c, r.states[n + 1], a');
    abs := before + [a'];
    forall i {:trigger r.labels[i]} | 0 <= i < |r.labels|
      ensures abs[i + 1] == AbsStep(c, r.states[i], r.labels[i], abs[i])
    {
      if i < n { assert p.labels[i] == r.labels[i]; }
    }
  }

  // ----- crash safety

  /** What is durable stays, or becomes the whole of what has been logged; in that case nobody is in
      the middle of an operation. */
  ghost predicate WholeGroups(s: State, a: Abs, a': Abs) {
    a'.durable == a.durable ||
    (a'.durable == a.view && s.mode.Running? && s.outstanding == 0 && forall t | 0 <= t < |s.procs| :: !InOp(s.procs[t]))
  }

  lemma StepWholeGroups(c: Config, s: State, l: Label, a: Abs)
    requires Inv(c, s, a) && |a.view| == c.nblocks
    ensures WholeGroups(s, a, AbsStep(c, s, l, a))
  {
    hide CacheInv, DiskInv, InOps, Reserved;
    if s.mode.Running? && l.Commit? && s.committing.Yes? { NoneInOp(s.procs); }
  }

  /** At every point of every run, a recovery from the disk as it stands would restore exactly the
      durable contents; and those change in one step only, from one committed group to the next. */
  lemma CrashSafe(c: Config, r: Run) returns (abs: seq<Abs>)
    requires IsRun(c, r) && AllContained(c, r) && Init(c, r.states[0])
    ensures IsAbsRun(c, r, abs) && abs[0] == Abs(r.states[0].disk, r.states[0].disk)
    ensures forall i, b: nat | 0 <= i < |r.states| && c.Home(b) ::
              Recovered(c, r.states[i].disk, b) == abs[i].durable[b]
    ensures forall i | 0 <= i < |r.labels| :: WholeGroups(r.states[i], abs[i], abs[i + 1])
  {
    hide Inv, Exec, Recovered, WholeGroups, AbsStep;
    InitInv(c, r.states[0]);
    abs := AbsRun(c, r, Abs(r.states[0].disk, r.states[0].disk));
    forall i, b: nat | 0 <= i < |r.states| && c.Home(b) ensures Recovered(c, r.states[i].disk, b) == abs[i].durable[b] {
      RecoveredDurable(c, r.states[i], abs[i]);
    }
    forall i | 0 <= i < |r.labels| ensures WholeGroups(r.states[i], abs[i], abs[i + 1]) {
      assert abs[i + 1] == AbsStep(c, r.states[i], r.labels[i], abs[i]);
      StepWholeGroups(c, r.states[i], r.labels[i], abs[i]);
    }
  }

  lemma RecoveryFrom(c: Config, r: Run, a: Abs)
    requires IsRun(c, r) && AllContained(c, r) && Inv(c, r.states[0], a)
    requires forall i | 0 <= i < |r.labels| :: r.labels[i].Crash? || r.labels[i].Recover?
    requires exists i :: 0 <= i < |r.labels| && r.labels[i].Crash?
    requires r.states[|r.labels|].mode.Running?
    ensures forall b: nat | c.Home(b) ::
              r.states[|r.labels|].disk[b] == Recovered(c, r.states[0].disk, b)
              && Recovered(c, r.states[|r.labels|].disk, b) == r.states[|r.labels|].disk[b]
  {
    hide Inv, Exec, AbsStep;
    var abs := AbsRun(c, r, a);
    var n := |r.labels|;
    DurableKept(c, r, abs, n);
    RecoveredDurable(c, r.states[0], a);
    RecoveredDurable(c, r.states[n], abs[n]);
    NotCommitted(c, r, n);
    FreshDisk(c, r.states[n], abs[n]);
  }

  lemma {:induction false} DurableKept(c: Config, r: Run, abs: seq<Abs>, n: nat)
    requires IsRun(c, r) && IsAbsRun(c, r, abs) && n < |r.states|
    requires forall i | 0 <= i < |r.labels| :: r.labels[i].Crash? || r.labels[i].Recover?
    ensures abs[n].durable == abs[0].durable
  {
    hide Inv, Exec;
    if n > 0 {
      assert r.labels[n - 1] == r.labels[n - 1];
      DurableKept(c, r, abs, n - 1);
    }
  }

  /** After the first crash of such a run nobody is committing. */
  lemma {:induction false} NotCommitted(c: Config, r: Run, n: nat)
    requires IsRun(c, r) && n < |r.states|
    requires forall i | 0 <= i < |r.labels| :: r.labels[i].Crash? || r.labels[i].Recover?
    requires exists i :: 0 <= i < n && r.labels[i].Crash?
    ensures r.states[n].committing.No?
  {
    hide Exec;
    var i := n - 1;
    assert Exec(c, r.states[i], r.labels[i]) == Some(r.states[n]);
    if r.labels[i].Crash? {
      NoCommitAfter(c, r.states[i], Crash);
    } else {
      NotCommitted(c, r, n - 1);
      NoCommitAfter(c, r.states[i], Recover);
    }
  }

  lemma NoCommitAfter(c: Config, s: State, l: Label)
    requires c.Valid() && |s.disk| == c.nblocks && Exec(c, s, l).Some?
    requires l.Crash? || (l.Recover? && s.committing.No?)
    ensures Exec(c, s, l).value.committing.No?
  {}

  lemma FreshDisk(c: Config, s: State, a: Abs)
    requires Inv(c, s, a) && s.mode.Running? && s.committing.No?
    ensures forall b: nat | c.Home(b) :: s.disk[b] == a.durable[b]
  {
    hide CacheInv, ProcInv, GoodHead;
  }

  // ----- what the invariant says of one state

  lemma BufferReads(c: Config, s: State, a: Abs, b: nat)
    requires Inv(c, s, a) && s.mode.Running? && c.Home(b)
    requires b in s.cache ==> !s.cache[b].unlogged
    ensures b < |s.disk| && Content(s, b) == a.view[b]
  {
    hide DiskInv, ProcInv;
    if b in s.cache { assert BufOK(c, s, a, b, s.cache[b]); }
  }

  lemma BufferClean(c: Config, s: State, a: Abs, b: nat)
    requires Inv(c, s, a) && s.mode.Running? && b in s.cache && !s.cache[b].dirty && s.cache[b].holder == Free
    ensures b < |s.disk| && s.cache[b].data == s.disk[b]
  {
    hide DiskInv, ProcInv;
    assert BufOK(c, s, a, b, s.cache[b]);
  }

  lemma BufferPinned(c: Config, s: State, a: Abs, i: nat)
    requires Inv(c, s, a) && s.mode.Running? && Pending(s) <= i < |s.lh|
    ensures s.lh[i] in s.cache && s.cache[s.lh[i]].dirty && Exec(c, s, Evict(s.lh[i])).None?
  {
    hide DiskInv, ProcInv;
    assert IsPending(s, s.lh[i]);
    assert BufOK(c, s, a, s.lh[i], s.cache[s.lh[i]]);
  }

  // ----- whole runs

  /** The abstract disk of a run from a fresh disk: what is durable and what has been logged. */
  lemma Reached(c: Config, r: Run) returns (abs: seq<Abs>)
    requires IsRun(c, r) && AllContained(c, r) && Init(c, r.states[0])
    ensures IsAbsRun(c, r, abs) && abs[0] == Abs(r.states[0].disk, r.states[0].disk)
  {
    abs := CrashSafe(c, r);
  }

  // ----- recovery, over runs

  lemma Segment(c: Config, r: Run, i: nat, j: nat)
    requires IsRun(c, r) && i <= j < |r.states|
    ensures IsRun(c, Run(r.states[i..j + 1], r.labels[i..j]))
    ensures AllContained(c, r) ==> AllContained(c, Run(r.states[i..j + 1], r.labels[i..j]))
  {
    var p := Run(r.states[i..j + 1], r.labels[i..j]);
    hide Exec;
    forall k | 0 <= k < |p.labels| && AllContained(c, r) ensures Contained(c, p.states[k], p.labels[k]) {
      assert p.labels[k] == r.labels[i + k];
    }
    forall k | 0 <= k < |p.labels| ensures Exec(c, p.states[k], p.labels[k]) == Some(p.states[k + 1]) {
      assert p.labels[k] == r.labels[i + k];
    }
  }

  /** Any number of crashes, also inside recovery: once a stretch of crashes and recovery steps is
      complete, it has put on every home block what recovery from the disk at its start promises, and
      leaves a disk from which another recovery changes nothing. */
  lemma RecoveryCompletes(c: Config, r: Run, i: nat, j: nat)
    requires IsRun(c, r) && AllContained(c, r) && Init(c, r.states[0]) && i < j < |r.states|
    requires forall k | i <= k < j :: r.labels[k].Crash? || r.labels[k].Recover?
    requires exists k :: i <= k < j && r.labels[k].Crash?
    requires r.states[j].mode.Running?
    ensures forall b: nat | c.Home(b) ::
              r.states[j].disk[b] == Recovered(c, r.states[i].disk, b)
              && Recovered(c, r.states[j].disk, b) == r.states[j].disk[b]
  {
    hide Inv, Exec, Init, Recovered, AllContained, AbsStep;
    var abs := Reached(c, r);
    Segment(c, r, i, j);
    var p := Run(r.states[i..j + 1], r.labels[i..j]);
    assert forall m | 0 <= m < |p.labels| :: p.labels[m] == r.labels[i + m];
    var k :| i <= k < j && r.labels[k].Crash?;
    assert p.labels[k - i].Crash?;
    assert p.states[0] == r.states[i] && p.states[|p.labels|] == r.states[j];
    RecoveryFrom(c, p, abs[i]);
  }

  // ----- the buffer cache, over runs

  /** bread returns the latest logged contents of a home block, even before they reach the disk. */
  lemma ReadsLatest(c: Config, r: Run, i: nat, b: nat) returns (abs: seq<Abs>)
    requires IsRun(c, r) && AllContained(c, r) && Init(c, r.states[0]) && i < |r.states| && r.states[i].mode.Running? && c.Home(b)
    requires b in r.states[i].cache ==> !r.states[i].cache[b].unlogged
    ensures IsAbsRun(c, r, abs) && abs[0] == Abs(r.states[0].disk, r.states[0].disk)
    ensures Content(r.states[i], b) == abs[i].view[b]
  {
    hide Inv, Exec, Init;
    abs := Reached(c, r);
    BufferReads(c, r.states[i], abs[i], b);
  }

  /** A clean buffer that nobody holds equals its disk block, so recycling it loses nothing. */
  lemma CleanBuffer(c: Config, r: Run, i: nat, b: nat)
    requires IsRun(c, r) && AllContained(c, r) && Init(c, r.states[0]) && i < |r.states| && r.states[i].mode.Running?
    requires b in r.states[i].cache && !r.states[i].cache[b].dirty && r.states[i].cache[b].holder == Free
    ensures b < |r.states[i].disk| && r.states[i].cache[b].data == r.states[i].disk[b]
  {
    hide Inv, Exec, Init;
    var abs := Reached(c, r);
    BufferClean(c, r.states[i], abs[i], b);
  }

  /** A logged block stays in its buffer until it is installed. */
  lemma LoggedPinned(c: Config, r: Run, i: nat, k: nat)
    requires IsRun(c, r) && AllContained(c, r) && Init(c, r.states[0]) && i < |r.states|
    requires r.states[i].mode.Running? && Pending(r.states[i]) <= k < |r.states[i].lh|
    ensures var s, b := r.states[i], r.states[i].lh[k];
            b in s.cache && s.cache[b].dirty && Exec(c, s, Evict(b)).None?
  {
    hide Inv, Init;
    var abs := Reached(c, r);
    BufferPinned(c, r.states[i], abs[i], k);
  }
}
