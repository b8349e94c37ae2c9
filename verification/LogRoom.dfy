/** Log space, over whole runs. What is said here of the header and of the panics holds in every run, also
    when the header outgrows the log area. */
module LogRoom {
  import opened Counting
  import opened LogMachine
  import opened LogProofs
  import opened LogTheorems

  // ----- the header, whatever becomes of the disk

  ghost predicate RoomInv(s: State) {
    match s.mode
    case Running => ProcInv(s) && Distinct(s.lh)
    case Recovering(_) => s.outstanding == 0 && s.committing.No? && forall t | 0 <= t < |s.procs| :: s.procs[t] == Outside
    case Panicked => true
  }

  lemma ProcActKeeps(c: Config, s: State, l: Label)
    requires RoomInv(s) && s.mode.Running? && c.Valid() && |s.disk| == c.nblocks && Act(c, s, l).Some?
    requires !l.Commit? && !l.Crash?
    ensures RoomInv(Act(c, s, l).value)
  {
    hide InOps, Reserved, ProcInv, EndOp, TryBegin;
    var s' := Act(c, s, l).value;
    match l
    case Begin(t) => BeginProc(c, s, t);
    case Try(t) => TryProc(s, t);
    case LogCheck(t, b) => if s'.mode.Running? { CheckProc(s, t, b); }
    case LogAppend(t) => AppendRoom(c, s, t);
    case End(t) => EndProc(s, t);
    case _ => ProcFrame(s, s');
  }

  lemma CommitRoom(c: Config, s: State)
    requires RoomInv(s) && s.mode.Running? && c.Valid() && |s.disk| == c.nblocks && Act(c, s, Commit).Some?
    ensures RoomInv(Act(c, s, Commit).value)
  {
    hide InOps, Reserved, ProcInv;
    var s' := Act(c, s, Commit).value;
    if s'.mode.Running? {
      CommitOwner(s);
      match s.committing.ph
      case Finish => FinishProc(s);
      case Erase => EraseProc(s, s');
      case _ => CommitProc(s, s'.committing.ph); ProcFrame(s.(committing := s'.committing), s');
    }
  }

  lemma CommitOwner(s: State)
    requires ProcInv(s) && s.committing.Yes?
    ensures s.committing.t < |s.procs| && s.outstanding == 0
  {
    hide InOps, Reserved;
  }

  lemma RoomKeeps(c: Config, s: State, l: Label)
    requires RoomInv(s) && c.Valid() && |s.disk| == c.nblocks && Exec(c, s, l).Some?
    ensures RoomInv(Exec(c, s, l).value)
  {
    hide InOps, Reserved, ProcInv, Act;
    if HasBuffers(c, s, l) {
      var s1 := Loaded(s, Needs(c, s, l));
      assert RoomInv(s1) by { if s.mode.Running? { ProcFrame(s, s1); } }
      ActRoom(c, s1, l);
    }
  }

  lemma ActRoom(c: Config, s: State, l: Label)
    requires RoomInv(s) && c.Valid() && |s.disk| == c.nblocks && Act(c, s, l).Some?
    ensures RoomInv(Act(c, s, l).value)
  {
    hide InOps, Reserved, ProcInv;
    if l.Crash? {
    } else if s.mode.Recovering? {
      RecoverRoom(c, s);
    } else if l.Commit? {
      CommitRoom(c, s);
    } else {
      ProcActKeeps(c, s, l);
    }
  }

  lemma RecoverRoom(c: Config, s: State)
    requires RoomInv(s) && s.mode.Recovering? && c.Valid() && |s.disk| == c.nblocks && RecoverStep(c, s).Some?
    ensures RoomInv(RecoverStep(c, s).value)
  {
    AllOutside(s.procs);
  }

  lemma {:induction false} RoomReached(c: Config, r: Run, i: nat)
    requires IsRun(c, r) && Init(c, r.states[0]) && i < |r.states|
    ensures RoomInv(r.states[i])
  {
    hide RoomInv, Exec, Init;
    if i == 0 {
      InitRoom(c, r.states[0]);
    } else {
      RoomReached(c, r, i - 1);
      assert Exec(c, r.states[i - 1], r.labels[i - 1]) == Some(r.states[i]);
      RoomKeeps(c, r.states[i - 1], r.labels[i - 1]);
    }
  }

  lemma InitRoom(c: Config, s: State)
    requires Init(c, s)
    ensures RoomInv(s)
  {}

  lemma HeaderRoom(s: State)
    requires RoomInv(s) && s.mode.Running?
    ensures |s.lh| <= LOGSIZE && Distinct(s.lh)
    ensures s.committing.Yes? ==> s.outstanding == 0
    ensures MustWait(s) ==> s.committing.Yes? || s.outstanding > 0
    ensures forall t | 0 <= t < |s.procs| && s.procs[t] == Sleeping :: MustWait(s)
  {
    hide InOps, Reserved;
    ReservedBounds(s.procs, 0);
  }

  /** The log header never overflows and never names a block twice; committing excludes operations;
      and begin_op sleeps only while somebody is there to wake it. */
  lemma LogSpace(c: Config, r: Run, i: nat)
    requires IsRun(c, r) && Init(c, r.states[0]) && i < |r.states| && r.states[i].mode.Running?
    ensures var s := r.states[i];
            && |s.lh| <= LOGSIZE && (forall j, k | 0 <= j < k < |s.lh| :: s.lh[j] != s.lh[k])
            && (s.committing.Yes? ==> s.outstanding == 0)
            && (MustWait(s) ==> s.committing.Yes? || s.outstanding > 0)
            && (forall t | 0 <= t < |s.procs| && s.procs[t] == Sleeping :: MustWait(s))
  {
    hide RoomInv, Exec, Init, MustWait;
    RoomReached(c, r, i);
    HeaderRoom(r.states[i]);
  }

  /** begin_op lets an operation in exactly when no commit is going on and the header has room for what it
      holds already and for MAXOPBLOCKS of every operation under way and this one; else it sleeps. With no
      operation under way and no commit there always is room. */
  lemma BeginAdmits(c: Config, r: Run, i: nat, t: Tid)
    requires IsRun(c, r) && Init(c, r.states[0]) && i < |r.states| && r.states[i].mode.Running?
    requires t < |r.states[i].procs| && r.states[i].procs[t] == Trying
    ensures var s := r.states[i];
            var room := s.committing.No? && |s.lh| + MAXOPBLOCKS * InOps(s.procs) + MAXOPBLOCKS <= LOGSIZE;
            && Exec(c, s, Try(t)) == Some(s.(procs := s.procs[t := if room then Inside({}) else Sleeping],
                                             outstanding := InOps(s.procs) + if room then 1 else 0))
            && (s.committing.No? && InOps(s.procs) == 0 ==> room)
  {
    hide RoomInv, Init;
    RoomReached(c, r, i);
    TryAdmits(c, r.states[i], t);
  }

  lemma TryAdmits(c: Config, s: State, t: Tid)
    requires RoomInv(s) && s.mode.Running? && c.Valid() && |s.disk| == c.nblocks && t < |s.procs| && s.procs[t] == Trying
    ensures var room := s.committing.No? && |s.lh| + MAXOPBLOCKS * InOps(s.procs) + MAXOPBLOCKS <= LOGSIZE;
            && Exec(c, s, Try(t)) == Some(s.(procs := s.procs[t := if room then Inside({}) else Sleeping],
                                             outstanding := InOps(s.procs) + if room then 1 else 0))
            && (s.committing.No? && InOps(s.procs) == 0 ==> room)
  {
    hide InOps, Reserved;
  }

  /** While an operation is under way no step changes the disk. */
  lemma NoWriteInOp(c: Config, r: Run, i: nat)
    requires IsRun(c, r) && Init(c, r.states[0]) && i < |r.labels|
    requires r.states[i].mode.Running? && r.states[i].outstanding > 0
    ensures r.states[i + 1].disk == r.states[i].disk
  {
    hide RoomInv, Exec, Init;
    RoomReached(c, r, i);
    assert Exec(c, r.states[i], r.labels[i]) == Some(r.states[i + 1]);
    DiskStill(c, r.states[i], r.labels[i]);
  }

  lemma DiskStill(c: Config, s: State, l: Label)
    requires RoomInv(s) && s.mode.Running? && s.outstanding > 0
    requires c.Valid() && |s.disk| == c.nblocks && Exec(c, s, l).Some?
    ensures Exec(c, s, l).value.disk == s.disk
  {
    hide InOps, Reserved;
  }

  /** end_op never finds the log committing. */
  lemma EndNeverPanics(c: Config, r: Run, i: nat, t: Tid)
    requires IsRun(c, r) && Init(c, r.states[0]) && i < |r.states| && r.states[i].mode.Running?
    requires t < |r.states[i].procs| && r.states[i].procs[t].Inside?
    ensures EndOp(r.states[i], t).mode.Running?
  {
    hide RoomInv, Exec, Init, EndOp;
    RoomReached(c, r, i);
    EndRuns(r.states[i], t);
  }

  lemma EndRuns(s: State, t: Tid)
    requires RoomInv(s) && s.mode.Running? && t < |s.procs| && s.procs[t].Inside?
    ensures EndOp(s, t).mode.Running?
  {
    hide ProcInv;
    EndProc(s, t);
  }

  /** log_write panics exactly when the header or the log area is full. An operation that has logged
      fewer than MAXOPBLOCKS blocks, as it should before a new one, panics exactly when the area is. */
  lemma LogWritePanics(c: Config, r: Run, i: nat, t: Tid, b: nat)
    requires IsRun(c, r) && Init(c, r.states[0]) && i < |r.states| && r.states[i].mode.Running?
    requires Exec(c, r.states[i], LogCheck(t, b)).Some?
    ensures var s := r.states[i];
            var panics := Exec(c, s, LogCheck(t, b)).value.mode.Panicked?;
            && t < |s.procs| && s.procs[t].Inside?
            && (panics <==> |s.lh| == LOGSIZE || |s.lh| >= c.size - 1)
            && (|s.procs[t].logged| < MAXOPBLOCKS ==> (panics <==> |s.lh| >= c.size - 1))
            && (panics && |s.lh| < c.size - 1 ==> |s.procs[t].logged| == MAXOPBLOCKS && b in s.lh)
  {
    hide RoomInv, Init;
    RoomReached(c, r, i);
    CheckPanics(c, r.states[i], t, b);
  }

  lemma CheckPanics(c: Config, s: State, t: Tid, b: nat)
    requires RoomInv(s) && s.mode.Running? && c.Valid() && |s.disk| == c.nblocks
    requires Exec(c, s, LogCheck(t, b)).Some?
    ensures var panics := Exec(c, s, LogCheck(t, b)).value.mode.Panicked?;
            && t < |s.procs| && s.procs[t].Inside?
            && (panics <==> |s.lh| == LOGSIZE || |s.lh| >= c.size - 1)
            && (|s.procs[t].logged| < MAXOPBLOCKS ==> (panics <==> |s.lh| >= c.size - 1))
            && (panics && |s.lh| < c.size - 1 ==> |s.procs[t].logged| == MAXOPBLOCKS && b in s.lh)
  {
    hide InOps, Reserved;
    ReservedBounds(s.procs, t);
    var logged := s.procs[t].logged;
    if b !in logged { assert |logged + {b}| == |logged| + 1; }
  }
}
