/** The redo log is crash safe.

    Beside the machine runs an abstract disk with two faces: `view`, what the file system has logged
    so far, and `durable`, what it was at the last commit. A crash sets the view back to the durable
    contents; a commit copies it over in one step. */
module LogProofs {
  import opened Counting
  import opened LogMachine

  datatype Abs = Abs(view: seq<Block>, durable: seq<Block>)

  /** The abstract effect of a step. */
  function AbsStep(c: Config, s: State, l: Label, a: Abs): (r: Abs)
    requires |a.view| == c.nblocks
  {
    if HasBuffers(c, s, l) then AbsAct(c, s, l, a) else a
  }

  function AbsAct(c: Config, s: State, l: Label, a: Abs): (r: Abs)
    requires |a.view| == c.nblocks
  {
    if l.Crash? then a.(view := a.durable)
    else if s.mode.Running? && l.Commit? && s.committing.Yes? && s.committing.ph.CommitHead? then a.(durable := a.view)
    else if s.mode.Running? && l.LogAppend? && l.t < |s.procs| && s.procs[l.t].Checked?
            && s.procs[l.t].b in s.cache && s.procs[l.t].b < c.nblocks
    then a.(view := a.view[s.procs[l.t].b := s.cache[s.procs[l.t].b].data])
    else a
  }

  // ----- what recovery makes of a disk

  /** The position of `b` in the log, or the length of the log. */
  function Slot(lh: seq<nat>, b: nat): (k: nat)
    ensures k <= |lh| && (k < |lh| ==> lh[k] == b) && (forall j | 0 <= j < k :: lh[j] != b)
  {
    if lh == [] || lh[0] == b then 0 else 1 + Slot(lh[1..], b)
  }

  ghost predicate GoodLog(c: Config, lh: seq<nat>) {
    && |lh| <= LOGSIZE
    && (forall i | 0 <= i < |lh| :: c.Home(lh[i]))
    && Distinct(lh)
  }

  /** The entries fit in the blocks that the log has beside its header. */
  predicate InArea(c: Config, lh: seq<nat>) { |lh| <= c.size - 1 }

  ghost predicate GoodHead(c: Config, disk: seq<Block>) {
    && |disk| == c.nblocks && c.Valid() && |disk[c.start]| == WORDS
    && Count(disk[c.start]) <= LOGSIZE && GoodLog(c, Entries(disk[c.start])) && InArea(c, Entries(disk[c.start]))
  }

  /** The home blocks that a complete recovery from `disk` leaves: those named in the header come
      from the log, the others stay. */
  function Recovered(c: Config, disk: seq<Block>, b: nat): (r: Block)
    requires c.Valid() && |disk| == c.nblocks && b < c.nblocks
  {
    var lh := Entries(disk[c.start]);
    var k := Slot(lh, b);
    if k < |lh| && c.LogBlock(k) < c.nblocks then disk[c.LogBlock(k)] else disk[b]
  }

  lemma HeadCount(prev: Block, lh: seq<nat>)
    requires |prev| == WORDS && |lh| <= LOGSIZE
    ensures |HeadBlock(prev, lh)| == WORDS && Count(HeadBlock(prev, lh)) == |lh| && Entries(HeadBlock(prev, lh)) == lh
  {}

  lemma SlotOf(c: Config, lh: seq<nat>, i: nat)
    requires GoodLog(c, lh) && i < |lh|
    ensures Slot(lh, lh[i]) == i
  {}

  // ----- processes and reservations

  function InOps(procs: seq<Proc>): (r: nat) {
    if procs == [] then 0 else (if InOp(procs[0]) then 1 else 0) + InOps(procs[1..])
  }

  /** Log space still promised to one process. */
  function Promise(p: Proc): (r: int) { if InOp(p) then MAXOPBLOCKS - |p.logged| else 0 }

  function Reserved(procs: seq<Proc>): (r: int) {
    if procs == [] then 0 else Promise(procs[0]) + Reserved(procs[1..])
  }

  ghost predicate ProcOK(p: Proc) {
    InOp(p) ==> |p.logged| <= MAXOPBLOCKS && (p.Checked? ==> |p.logged + {p.b}| <= MAXOPBLOCKS)
  }

  lemma {:induction false} ProcUpdate(procs: seq<Proc>, t: nat, p: Proc)
    requires t < |procs|
    ensures InOps(procs[t := p]) == InOps(procs) - (if InOp(procs[t]) then 1 else 0) + (if InOp(p) then 1 else 0)
    ensures Reserved(procs[t := p]) == Reserved(procs) - Promise(procs[t]) + Promise(p)
  {
    if t == 0 {
      assert procs[t := p][1..] == procs[1..];
    } else {
      assert procs[t := p][1..] == procs[1..][t - 1 := p];
      ProcUpdate(procs[1..], t - 1, p);
    }
  }

  lemma {:induction false} WakeSame(procs: seq<Proc>)
    ensures InOps(WakeAll(procs)) == InOps(procs) && Reserved(WakeAll(procs)) == Reserved(procs)
  {
    if procs != [] {
      assert WakeAll(procs)[1..] == WakeAll(procs[1..]);
      WakeSame(procs[1..]);
    }
  }

  lemma {:induction false} NoneInOp(procs: seq<Proc>)
    requires InOps(procs) == 0
    ensures forall t | 0 <= t < |procs| :: !InOp(procs[t])
    ensures Reserved(procs) == 0
  {
    if procs != [] {
      NoneInOp(procs[1..]);
      forall t | 0 <= t < |procs| ensures !InOp(procs[t]) {
        if t > 0 { assert procs[t] == procs[1..][t - 1]; }
      }
    }
  }

  lemma {:induction false} AllOutside(procs: seq<Proc>)
    requires forall t | 0 <= t < |procs| :: procs[t] == Outside
    ensures InOps(procs) == 0 && Reserved(procs) == 0
  {
    if procs != [] {
      forall t | 0 <= t < |procs[1..]| ensures procs[1..][t] == Outside { assert procs[1..][t] == procs[t + 1]; }
      AllOutside(procs[1..]);
    }
  }

  lemma {:induction false} ReservedBounds(procs: seq<Proc>, t: nat)
    requires forall i | 0 <= i < |procs| :: ProcOK(procs[i])
    ensures 0 <= Reserved(procs) <= InOps(procs) * MAXOPBLOCKS
    ensures t < |procs| ==> Promise(procs[t]) <= Reserved(procs) && (InOp(procs[t]) ==> InOps(procs) >= 1)
  {
    if procs != [] {
      assert ProcOK(procs[0]);
      forall i | 0 <= i < |procs[1..]| ensures ProcOK(procs[1..][i]) { assert procs[1..][i] == procs[i + 1]; }
      if t > 0 {
        ReservedBounds(procs[1..], t - 1);
        assert t < |procs| ==> procs[t] == procs[1..][t - 1];
      } else {
        ReservedBounds(procs[1..], 0);
      }
    }
  }

  /** Who is where, and how much log space is spoken for. */
  ghost predicate ProcInv(s: State) {
    && s.outstanding == InOps(s.procs)
    && (forall t | 0 <= t < |s.procs| :: ProcOK(s.procs[t]))
    && |s.lh| + Reserved(s.procs) <= LOGSIZE
    && (forall t | 0 <= t < |s.procs| && InOp(s.procs[t]) :: forall b | b in s.procs[t].logged :: b in s.lh)
    && (s.committing.Yes? ==>
          && s.outstanding == 0 && s.committing.t < |s.procs| && s.procs[s.committing.t] == Committer
          && (s.committing.ph.Finish? ==> s.lh == []))
    && (forall t | 0 <= t < |s.procs| && s.procs[t] == Committer :: s.committing.Yes? && s.committing.t == t)
    && (s.outstanding == 0 && s.committing.No? ==> s.lh == [])
    && (forall t | 0 <= t < |s.procs| && s.procs[t] == Sleeping :: MustWait(s))
  }

  // ----- buffers

  /** The first log entry that has not been installed yet. */
  function Pending(s: State): (r: nat) {
    if s.committing.Yes? && s.committing.ph.Install? then s.committing.ph.i
    else if s.committing.Yes? && (s.committing.ph.Erase? || s.committing.ph.Finish?) then |s.lh|
    else 0
  }

  ghost predicate IsPending(s: State, b: nat) {
    exists i | Pending(s) <= i < |s.lh| :: s.lh[i] == b
  }

  ghost predicate BufOK(c: Config, s: State, a: Abs, b: nat, buf: Buf)
    requires |s.disk| == |a.view| == c.nblocks
  {
    && b < c.nblocks
    && (!c.Home(b) ==> buf == Buf(s.disk[b], false, Free, false))
    && (c.Home(b) && !buf.unlogged ==> buf.data == a.view[b])
    && (buf.unlogged ==> buf.holder.By? && buf.holder.t < |s.procs| && InOp(s.procs[buf.holder.t]))
    && (buf.dirty <==> IsPending(s, b))
  }

  ghost predicate CacheInv(c: Config, s: State, a: Abs)
    requires |s.disk| == |a.view| == c.nblocks
  {
    && (forall b | b in s.cache :: BufOK(c, s, a, b, s.cache[b]))
    && (forall b: nat | c.Home(b) && IsPending(s, b) :: b in s.cache)
    && (forall b: nat | c.Home(b) && !IsPending(s, b) :: s.disk[b] == a.view[b])
    && (forall t | 0 <= t < |s.procs| && s.procs[t].Checked? ::
          c.Home(s.procs[t].b) && s.procs[t].b in s.cache && s.cache[s.procs[t].b].holder == By(t))
  }

  // ----- the disk

  ghost predicate LogHolds(c: Config, disk: seq<Block>, lh: seq<nat>, n: nat, view: seq<Block>)
    requires c.Valid() && |disk| == |view| == c.nblocks && GoodLog(c, lh) && n <= |lh| && n <= c.size - 1
  {
    forall j | 0 <= j < n :: disk[c.LogBlock(j)] == view[lh[j]]
  }

  predicate Committed(s: State) { s.committing.Yes? && (s.committing.ph.Install? || s.committing.ph.Erase?) }

  ghost predicate DiskInv(c: Config, s: State, a: Abs)
    requires |s.disk| == |a.view| == |a.durable| == c.nblocks && c.Valid() && GoodLog(c, s.lh)
  {
    && GoodHead(c, s.disk)
    && (if Committed(s) then
          && Entries(s.disk[c.start]) == s.lh && InArea(c, s.lh) && LogHolds(c, s.disk, s.lh, |s.lh|, a.view)
          && (forall b: nat | c.Home(b) :: a.durable[b] == a.view[b])
        else
          && Count(s.disk[c.start]) == 0
          && (forall b: nat | c.Home(b) :: s.disk[b] == a.durable[b]))
    && (s.committing.Yes? && s.committing.ph.CopyLog? ==>
          && s.committing.ph.i <= |s.lh| && (s.committing.ph.i > 0 ==> InArea(c, s.lh))
          && LogHolds(c, s.disk, s.lh, s.committing.ph.i, a.view))
    && (s.committing.Yes? && s.committing.ph.CommitHead? ==> InArea(c, s.lh) && LogHolds(c, s.disk, s.lh, |s.lh|, a.view))
    && (s.committing.Yes? && s.committing.ph.Install? ==> s.committing.ph.i <= |s.lh|)
  }

  ghost predicate RecInv(c: Config, s: State, a: Abs)
    requires |s.disk| == |a.view| == |a.durable| == c.nblocks && c.Valid() && s.mode.Recovering?
  {
    && GoodHead(c, s.disk) && a.view == a.durable
    && (forall b | b in s.cache :: b < c.nblocks && s.cache[b] == Buf(s.disk[b], false, Free, false))
    && s.outstanding == 0 && s.committing.No? && (forall t | 0 <= t < |s.procs| :: s.procs[t] == Outside)
    && (forall b: nat | c.Home(b) :: Recovered(c, s.disk, b) == a.durable[b])
    && (s.mode.ph.ReadHead? ==> s.lh == [])
    && (!s.mode.ph.ReadHead? ==> s.lh == Entries(s.disk[c.start]))
    && (s.mode.ph.Reinstall? ==>
          s.mode.ph.i <= |s.lh| && forall j | 0 <= j < s.mode.ph.i :: s.disk[s.lh[j]] == a.durable[s.lh[j]])
    && (s.mode.ph.Reset? ==> forall b: nat | c.Home(b) :: s.disk[b] == a.durable[b])
  }

  ghost predicate Inv(c: Config, s: State, a: Abs) {
    && c.Valid() && |s.disk| == |a.view| == |a.durable| == c.nblocks
    && match s.mode
       case Running => GoodLog(c, s.lh) && ProcInv(s) && CacheInv(c, s, a) && DiskInv(c, s, a)
       case Recovering(_) => RecInv(c, s, a)
       case Panicked => GoodHead(c, s.disk) && forall b: nat | c.Home(b) :: Recovered(c, s.disk, b) == a.durable[b]
  }

  /** Recovery from the disk as it is now would restore the durable contents. */
  lemma RecoveredDurable(c: Config, s: State, a: Abs)
    requires Inv(c, s, a)
    ensures GoodHead(c, s.disk)
    ensures forall b: nat | c.Home(b) :: Recovered(c, s.disk, b) == a.durable[b]
  {
    hide ProcInv, InOps, Reserved;
  }

  // ----- frames

  lemma DiskFrame(c: Config, s: State, s': State, a: Abs)
    requires s.mode.Running? && s'.mode.Running? && Inv(c, s, a)
    requires s'.disk == s.disk && s'.lh == s.lh
    requires s'.committing == s.committing || (s.committing.No? && s'.committing.Yes? && s'.committing.ph == CopyLog(0))
             || (s.committing.No? && s'.committing.Yes? && s'.committing.ph == Finish)
    ensures DiskInv(c, s', a)
  {
    hide ProcInv, CacheInv;
  }

  lemma CacheFrame(c: Config, s: State, s': State, a: Abs)
    requires s.mode.Running? && Inv(c, s, a)
    requires s'.disk == s.disk && s'.lh == s.lh && s'.cache == s.cache && Pending(s') == Pending(s)
    requires |s'.procs| == |s.procs|
    requires forall t | 0 <= t < |s.procs| ::
               (s'.procs[t].Checked? ==> s'.procs[t] == s.procs[t])
               && (InOp(s.procs[t]) ==> InOp(s'.procs[t]) || !HasUnlogged(s, t))
    ensures CacheInv(c, s', a)
  {
    hide ProcInv, DiskInv;
    assert forall b :: IsPending(s', b) == IsPending(s, b);
    forall b | b in s'.cache ensures BufOK(c, s', a, b, s'.cache[b]) {
      assert BufOK(c, s, a, b, s.cache[b]);
    }
  }

  // ----- one lemma per kind of step

  lemma BeginProc(c: Config, s: State, t: Tid)
    requires ProcInv(s) && t < |s.procs| && s.procs[t] == Outside
    ensures ProcInv(s.(procs := s.procs[t := Trying]))
  {
    hide InOps, Reserved;
    ProcUpdate(s.procs, t, Trying);
  }

  lemma BeginCase(c: Config, s: State, t: Tid, a: Abs)
    requires Inv(c, s, a) && s.mode.Running? && Act(c, s, Begin(t)).Some?
    ensures Inv(c, Act(c, s, Begin(t)).value, AbsAct(c, s, Begin(t), a))
  {
    hide CacheInv, DiskInv, ProcInv, InOps, Reserved;
    var s' := Act(c, s, Begin(t)).value;
    BeginProc(c, s, t);
    DiskFrame(c, s, s', a);
    CacheFrame(c, s, s', a);
  }

  lemma TryProc(s: State, t: Tid)
    requires ProcInv(s) && t < |s.procs| && s.procs[t] == Trying
    ensures ProcInv(TryBegin(s, t)) && TryBegin(s, t).mode == s.mode && TryBegin(s, t).lh == s.lh
  {
    hide InOps, Reserved;
    ProcUpdate(s.procs, t, Sleeping);
    ProcUpdate(s.procs, t, Inside({}));
    ReservedBounds(s.procs, t);
  }

  lemma TryCase(c: Config, s: State, t: Tid, a: Abs)
    requires Inv(c, s, a) && s.mode.Running? && Act(c, s, Try(t)).Some?
    ensures Inv(c, Act(c, s, Try(t)).value, AbsAct(c, s, Try(t), a))
  {
    hide CacheInv, DiskInv, ProcInv, InOps, Reserved;
    var s' := Act(c, s, Try(t)).value;
    TryProc(s, t);
    DiskFrame(c, s, s', a);
    CacheFrame(c, s, s', a);
  }

  lemma ReadCase(c: Config, s: State, t: Tid, b: nat, a: Abs)
    requires Inv(c, s, a) && s.mode.Running? && Act(c, s, Read(t, b)).Some?
    ensures Inv(c, Act(c, s, Read(t, b)).value, AbsAct(c, s, Read(t, b), a))
  {
    hide DiskInv, ProcInv, InOps, Reserved;
    var s' := Act(c, s, Read(t, b)).value;
    DiskFrame(c, s, s', a);
    assert ProcInv(s') by { ProcFrame(s, s'); }
    assert forall x :: IsPending(s', x) == IsPending(s, x);
    forall x | x in s'.cache ensures BufOK(c, s', a, x, s'.cache[x]) {
      if x in s.cache { assert BufOK(c, s, a, x, s.cache[x]); }
    }
  }

  lemma ProcFrame(s: State, s': State)
    requires ProcInv(s) && s'.procs == s.procs && s'.lh == s.lh && s'.outstanding == s.outstanding && s'.committing == s.committing
    ensures ProcInv(s')
  {
    hide InOps, Reserved;
  }

  lemma ModifyCase(c: Config, s: State, t: Tid, b: nat, data: Block, a: Abs)
    requires Inv(c, s, a) && s.mode.Running? && Act(c, s, Modify(t, b, data)).Some?
    ensures Inv(c, Act(c, s, Modify(t, b, data)).value, AbsAct(c, s, Modify(t, b, data), a))
  {
    hide DiskInv, ProcInv, InOps, Reserved;
    var s' := Act(c, s, Modify(t, b, data)).value;
    DiskFrame(c, s, s', a);
    ProcFrame(s, s');
    assert forall x :: IsPending(s', x) == IsPending(s, x);
    forall x | x in s'.cache ensures BufOK(c, s', a, x, s'.cache[x]) {
      assert BufOK(c, s, a, x, s.cache[x]);
    }
  }

  lemma CheckProc(s: State, t: Tid, b: nat)
    requires ProcInv(s) && t < |s.procs| && s.procs[t].Inside? && |s.procs[t].logged + {b}| <= MAXOPBLOCKS
    ensures ProcInv(s.(procs := s.procs[t := Checked(s.procs[t].logged, b)]))
  {
    hide InOps, Reserved;
    ProcUpdate(s.procs, t, Checked(s.procs[t].logged, b));
  }

  lemma CheckCache(c: Config, s: State, t: Tid, b: nat, a: Abs)
    requires |s.disk| == |a.view| == c.nblocks && CacheInv(c, s, a)
    requires t < |s.procs| && s.procs[t].Inside? && c.Home(b) && b in s.cache && s.cache[b].holder == By(t)
    ensures CacheInv(c, s.(procs := s.procs[t := Checked(s.procs[t].logged, b)]), a)
  {
    var s' := s.(procs := s.procs[t := Checked(s.procs[t].logged, b)]);
    assert forall x :: IsPending(s', x) == IsPending(s, x);
    forall x | x in s'.cache ensures BufOK(c, s', a, x, s'.cache[x]) {
      assert BufOK(c, s, a, x, s.cache[x]);
    }
  }

  lemma CheckCase(c: Config, s: State, t: Tid, b: nat, a: Abs)
    requires Inv(c, s, a) && s.mode.Running? && Act(c, s, LogCheck(t, b)).Some?
    ensures Inv(c, Act(c, s, LogCheck(t, b)).value, AbsAct(c, s, LogCheck(t, b), a))
  {
    hide DiskInv, InOps, Reserved, ProcInv, CacheInv, GoodLog, GoodHead, Recovered;
    var s' := Act(c, s, LogCheck(t, b)).value;
    RecoveredDurable(c, s, a);
    if s'.mode.Running? {
      CheckProc(s, t, b);
      DiskFrame(c, s, s', a);
      CheckCache(c, s, t, b, a);
    }
  }

  /** log_write proper: absorb or append, dirty the buffer, and the view has the new contents. */
  lemma AppendCase(c: Config, s: State, t: Tid, a: Abs)
    requires Inv(c, s, a) && s.mode.Running? && Act(c, s, LogAppend(t)).Some?
    ensures Inv(c, Act(c, s, LogAppend(t)).value, AbsAct(c, s, LogAppend(t), a))
  {
    hide InOps, Reserved, DiskInv, CacheInv, GoodLog, ProcInv;
    var s', a' := Act(c, s, LogAppend(t)).value, AbsAct(c, s, LogAppend(t), a);
    assert c.Home(s.procs[t].b) by { CheckedHome(c, s, t, a); }
    AppendProc(c, s, t);
    AppendCache(c, s, t, a);
    AppendDisk(c, s, s', a, a');
  }

  lemma CheckedHome(c: Config, s: State, t: Tid, a: Abs)
    requires |s.disk| == |a.view| == c.nblocks && CacheInv(c, s, a) && t < |s.procs| && s.procs[t].Checked?
    ensures c.Home(s.procs[t].b)
  {}

  /** The header has room for the block: the process has it reserved. */
  lemma AppendRoom(c: Config, s: State, t: Tid)
    requires c.Valid() && |s.disk| == c.nblocks && ProcInv(s) && Distinct(s.lh)
    requires s.mode.Running? && Act(c, s, LogAppend(t)).Some?
    ensures var s' := Act(c, s, LogAppend(t)).value; ProcInv(s') && Distinct(s'.lh) && |s'.lh| <= LOGSIZE
    ensures s.committing.No?
  {
    hide InOps, Reserved;
    var Checked(logged, b) := s.procs[t];
    var s' := Act(c, s, LogAppend(t)).value;
    ReservedBounds(s.procs, t);
    ProcUpdate(s.procs, t, Inside(logged + {b}));
    assert b in logged ==> logged + {b} == logged;
    assert b !in logged ==> |logged + {b}| == |logged| + 1;
    ReservedBounds(s'.procs, t);
  }

  lemma AppendProc(c: Config, s: State, t: Tid)
    requires c.Valid() && |s.disk| == c.nblocks && GoodLog(c, s.lh) && ProcInv(s)
    requires s.mode.Running? && Act(c, s, LogAppend(t)).Some? && c.Home(s.procs[t].b)
    ensures var s' := Act(c, s, LogAppend(t)).value; ProcInv(s') && GoodLog(c, s'.lh)
    ensures s.committing.No?
  {
    hide InOps, Reserved, ProcInv;
    AppendRoom(c, s, t);
  }

  lemma AppendCache(c: Config, s: State, t: Tid, a: Abs)
    requires Inv(c, s, a) && s.mode.Running? && Act(c, s, LogAppend(t)).Some? && s.committing.No?
    ensures var s', a' := Act(c, s, LogAppend(t)).value, AbsAct(c, s, LogAppend(t), a);
            |s'.disk| == |a'.view| == c.nblocks && CacheInv(c, s', a') && a'.durable == a.durable
            && c.Home(s.procs[t].b) && a'.view == a.view[s.procs[t].b := s.cache[s.procs[t].b].data]
  {
    hide InOps, Reserved, DiskInv, ProcInv;
    var Checked(logged, b) := s.procs[t];
    var s', a' := Act(c, s, LogAppend(t)).value, AbsAct(c, s, LogAppend(t), a);
    assert c.Home(b) && BufOK(c, s, a, b, s.cache[b]);
    forall x ensures IsPending(s', x) <==> IsPending(s, x) || x == b {
      if IsPending(s, x) { var i :| 0 <= i < |s.lh| && s.lh[i] == x; assert s'.lh[i] == x; }
      if x == b { var i :| 0 <= i < |s'.lh| && s'.lh[i] == b; }
    }
    forall x | x in s'.cache ensures BufOK(c, s', a', x, s'.cache[x]) {
      assert BufOK(c, s, a, x, s.cache[x]);
    }
  }

  lemma AppendDisk(c: Config, s: State, s': State, a: Abs, a': Abs)
    requires Inv(c, s, a) && s.mode.Running? && s.committing.No? && s'.committing.No?
    requires s'.disk == s.disk && a'.durable == a.durable && |a'.view| == c.nblocks && GoodLog(c, s'.lh)
    ensures DiskInv(c, s', a')
  {
    hide InOps, Reserved, CacheInv, ProcInv;
  }

  lemma ReleaseCase(c: Config, s: State, t: Tid, b: nat, a: Abs)
    requires Inv(c, s, a) && s.mode.Running? && Act(c, s, Release(t, b)).Some?
    ensures Inv(c, Act(c, s, Release(t, b)).value, AbsAct(c, s, Release(t, b), a))
  {
    hide DiskInv, ProcInv, InOps, Reserved;
    var s' := Act(c, s, Release(t, b)).value;
    DiskFrame(c, s, s', a);
    ProcFrame(s, s');
    assert forall x :: IsPending(s', x) == IsPending(s, x);
    forall x | x in s'.cache ensures BufOK(c, s', a, x, s'.cache[x]) {
      assert BufOK(c, s, a, x, s.cache[x]);
    }
  }

  lemma EvictCase(c: Config, s: State, b: nat, a: Abs)
    requires Inv(c, s, a) && s.mode.Running? && Act(c, s, Evict(b)).Some?
    ensures Inv(c, Act(c, s, Evict(b)).value, AbsAct(c, s, Evict(b), a))
  {
    hide DiskInv, ProcInv, InOps, Reserved;
    var s' := Act(c, s, Evict(b)).value;
    DiskFrame(c, s, s', a);
    ProcFrame(s, s');
    assert forall x :: IsPending(s', x) == IsPending(s, x);
    assert BufOK(c, s, a, b, s.cache[b]);
    forall x | x in s'.cache ensures BufOK(c, s', a, x, s'.cache[x]) {
      assert BufOK(c, s, a, x, s.cache[x]);
    }
  }

  lemma EndProc(s: State, t: Tid)
    requires ProcInv(s) && t < |s.procs| && s.procs[t].Inside?
    ensures EndOp(s, t).mode == s.mode && ProcInv(EndOp(s, t))
    ensures s.committing.No? && EndOp(s, t).lh == s.lh
  {
    hide InOps, Reserved;
    ReservedBounds(s.procs, t);
    ProcUpdate(s.procs, t, Committer);
    ProcUpdate(s.procs, t, Outside);
    WakeSame(s.procs[t := Outside]);
    var s' := EndOp(s, t);
    ReservedBounds(s'.procs, t);
    if s.outstanding == 1 {
      NoneInOp(s'.procs);
    }
  }

  lemma EndCase(c: Config, s: State, t: Tid, a: Abs)
    requires Inv(c, s, a) && s.mode.Running? && Act(c, s, End(t)).Some?
    ensures Inv(c, Act(c, s, End(t)).value, AbsAct(c, s, End(t), a))
  {
    hide DiskInv, CacheInv, ProcInv, InOps, Reserved;
    var s' := Act(c, s, End(t)).value;
    EndProc(s, t);
    DiskFrame(c, s, s', a);
    CacheFrame(c, s, s', a);
  }

  lemma CrashCase(c: Config, s: State, a: Abs)
    requires Inv(c, s, a)
    ensures Inv(c, Act(c, s, Crash).value, AbsAct(c, s, Crash, a))
  {
    RecoveredDurable(c, s, a);
  }

  // ----- the steps of a commit

  lemma CommitProc(s: State, ph: Phase)
    requires ProcInv(s) && s.committing.Yes? && (ph.Finish? ==> s.lh == [])
    ensures ProcInv(s.(committing := Yes(s.committing.t, ph)))
  {
    hide InOps, Reserved;
  }

  /** Turning from one phase of the commit to the next. */
  lemma TurnCase(c: Config, s: State, a: Abs)
    requires Inv(c, s, a) && s.mode.Running? && s.committing.Yes?
    requires s.committing.ph.CopyLog? || s.committing.ph.Install?
    requires s.committing.ph.i >= |s.lh|
    ensures Act(c, s, Commit).Some? && Inv(c, Act(c, s, Commit).value, AbsAct(c, s, Commit, a))
  {
    hide InOps, Reserved, ProcInv;
    var s' := Act(c, s, Commit).value;
    CommitProc(s, s'.committing.ph);
    assert forall x :: IsPending(s', x) == IsPending(s, x);
    forall x | x in s'.cache ensures BufOK(c, s', a, x, s'.cache[x]) {
      assert BufOK(c, s, a, x, s.cache[x]);
    }
  }

  lemma CopyProc(c: Config, s: State, a: Abs)
    requires Inv(c, s, a) && s.mode.Running? && s.committing.Yes?
    requires s.committing.ph.CopyLog? && s.committing.ph.i < |s.lh| && Act(c, s, Commit).Some?
    ensures ProcInv(Act(c, s, Commit).value)
  {
    hide InOps, Reserved, CacheInv, DiskInv;
    var s' := Act(c, s, Commit).value;
    CommitProc(s, CopyLog(s.committing.ph.i + 1));
    ProcFrame(s.(committing := s'.committing), s');
  }

  /** The block that goes to the log is what the group has logged. */
  lemma CopySource(c: Config, s: State, a: Abs)
    requires Inv(c, s, a) && s.mode.Running? && s.committing.Yes?
    requires s.committing.ph.CopyLog? && s.committing.ph.i < |s.lh| && InArea(c, s.lh) && Act(c, s, Commit).Some?
    ensures var i := s.committing.ph.i;
            s.lh[i] in s.cache && Content(s, s.lh[i]) == a.view[s.lh[i]]
  {
    hide InOps, Reserved, ProcInv, DiskInv;
    var i := s.committing.ph.i;
    assert IsPending(s, s.lh[i]);
    assert BufOK(c, s, a, s.lh[i], s.cache[s.lh[i]]);
  }

  lemma CopyDisk(c: Config, s: State, a: Abs)
    requires Inv(c, s, a) && s.mode.Running? && s.committing.Yes?
    requires s.committing.ph.CopyLog? && s.committing.ph.i < |s.lh| && InArea(c, s.lh) && Act(c, s, Commit).Some?
    ensures |Act(c, s, Commit).value.disk| == |s.disk| && Act(c, s, Commit).value.lh == s.lh && DiskInv(c, Act(c, s, Commit).value, a)
  {
    CopySource(c, s, a);
    hide InOps, Reserved, ProcInv, CacheInv, Entries, Count;
  }

  lemma CopyCache(c: Config, s: State, a: Abs)
    requires Inv(c, s, a) && s.mode.Running? && s.committing.Yes?
    requires s.committing.ph.CopyLog? && s.committing.ph.i < |s.lh| && InArea(c, s.lh) && Act(c, s, Commit).Some?
    ensures |Act(c, s, Commit).value.disk| == |s.disk| && CacheInv(c, Act(c, s, Commit).value, a)
  {
    CopySource(c, s, a);
    hide InOps, Reserved, ProcInv, DiskInv;
    var s' := Act(c, s, Commit).value;
    assert forall x :: IsPending(s', x) == IsPending(s, x);
    forall x | x in s'.cache ensures BufOK(c, s', a, x, s'.cache[x]) {
      if x in s.cache { assert BufOK(c, s, a, x, s.cache[x]); }
    }
  }

  /** write_log: one cached block goes to the log. The header still says that the log is empty. */
  lemma CopyCase(c: Config, s: State, a: Abs)
    requires Inv(c, s, a) && s.mode.Running? && s.committing.Yes?
    requires s.committing.ph.CopyLog? && s.committing.ph.i < |s.lh| && InArea(c, s.lh) && Act(c, s, Commit).Some?
    ensures Inv(c, Act(c, s, Commit).value, AbsAct(c, s, Commit, a))
  {
    CopyProc(c, s, a);
    CopyDisk(c, s, a);
    CopyCache(c, s, a);
    hide ProcInv, DiskInv, CacheInv;
  }

  /** The commit point: one write of the header block makes the whole group durable. */
  lemma HeadCase(c: Config, s: State, a: Abs)
    requires Inv(c, s, a) && s.mode.Running? && s.committing.Yes? && s.committing.ph.CommitHead?
    ensures Act(c, s, Commit).Some? && Inv(c, Act(c, s, Commit).value, AbsAct(c, s, Commit, a))
  {
    hide InOps, Reserved, ProcInv;
    var s' := Act(c, s, Commit).value;
    assert ProcInv(s') by { CommitProc(s, Install(0)); ProcFrame(s.(committing := s'.committing), s'); }
    assert Content(s, c.start) == s.disk[c.start] by {
      if c.start in s.cache { assert BufOK(c, s, a, c.start, s.cache[c.start]); }
    }
    HeadCount(s.disk[c.start], s.lh);
    assert forall x :: IsPending(s', x) == IsPending(s, x);
    forall x | x in s'.cache ensures BufOK(c, s', a, x, s'.cache[x]) {
      if x in s.cache { assert BufOK(c, s, a, x, s.cache[x]); }
    }
  }

  lemma InstallPending(c: Config, s: State, s': State, i: nat)
    requires GoodLog(c, s.lh) && s'.lh == s.lh && i < |s.lh| && Pending(s) == i && Pending(s') == i + 1
    ensures forall x :: IsPending(s, x) <==> IsPending(s', x) || x == s.lh[i]
    ensures !IsPending(s', s.lh[i])
  {
    forall x ensures IsPending(s, x) <==> IsPending(s', x) || x == s.lh[i] {
      if IsPending(s, x) && x != s.lh[i] {
        var k :| i <= k < |s.lh| && s.lh[k] == x;
        assert s'.lh[k] == x;
      }
      if IsPending(s', x) {
        var k :| i + 1 <= k < |s.lh| && s'.lh[k] == x;
        assert s.lh[k] == x;
      }
    }
  }

  lemma InstallCase(c: Config, s: State, a: Abs)
    requires Inv(c, s, a) && s.mode.Running? && s.committing.Yes?
    requires s.committing.ph.Install? && s.committing.ph.i < |s.lh| && Act(c, s, Commit).Some?
    ensures Inv(c, Act(c, s, Commit).value, AbsAct(c, s, Commit, a))
  {
    hide InOps, Reserved, ProcInv, Entries;
    var s', i := Act(c, s, Commit).value, s.committing.ph.i;
    assert ProcInv(s') by { CommitProc(s, Install(i + 1)); ProcFrame(s.(committing := s'.committing), s'); }
    InstallPending(c, s, s', i);
    assert IsPending(s, s.lh[i]);
    assert c.Home(s.lh[i]);
    assert Content(s, c.LogBlock(i)) == s.disk[c.LogBlock(i)] == a.view[s.lh[i]] by {
      if c.LogBlock(i) in s.cache { assert BufOK(c, s, a, c.LogBlock(i), s.cache[c.LogBlock(i)]); }
    }
    forall x | x in s'.cache ensures BufOK(c, s', a, x, s'.cache[x]) {
      if x in s.cache { assert BufOK(c, s, a, x, s.cache[x]); }
    }
  }

  lemma EraseCase(c: Config, s: State, a: Abs)
    requires Inv(c, s, a) && s.mode.Running? && s.committing.Yes? && s.committing.ph.Erase?
    ensures Act(c, s, Commit).Some? && Inv(c, Act(c, s, Commit).value, AbsAct(c, s, Commit, a))
  {
    hide InOps, Reserved, ProcInv;
    var s' := Act(c, s, Commit).value;
    EraseProc(s, s');
    assert Content(s, c.start) == s.disk[c.start] by {
      if c.start in s.cache { assert BufOK(c, s, a, c.start, s.cache[c.start]); }
    }
    HeadCount(s.disk[c.start], []);
    assert forall x :: IsPending(s', x) == IsPending(s, x);
    forall x | x in s'.cache ensures BufOK(c, s', a, x, s'.cache[x]) {
      if x in s.cache { assert BufOK(c, s, a, x, s.cache[x]); }
    }
  }

  lemma EraseProc(s: State, s': State)
    requires ProcInv(s) && s.committing.Yes? && s'.procs == s.procs && s'.outstanding == s.outstanding
    requires s'.lh == [] && s'.committing == Yes(s.committing.t, Finish)
    ensures ProcInv(s')
  {
    hide InOps, Reserved;
    NoneInOp(s.procs);
  }

  lemma FinishProc(s: State)
    requires ProcInv(s) && s.committing.Yes? && s.committing.ph.Finish?
    ensures ProcInv(s.(committing := No, procs := WakeAll(s.procs[s.committing.t := Outside])))
  {
    hide InOps, Reserved;
    ProcUpdate(s.procs, s.committing.t, Outside);
    WakeSame(s.procs[s.committing.t := Outside]);
    NoneInOp(s.procs);
  }

  lemma FinishCase(c: Config, s: State, a: Abs)
    requires Inv(c, s, a) && s.mode.Running? && s.committing.Yes? && s.committing.ph.Finish?
    ensures Act(c, s, Commit).Some? && Inv(c, Act(c, s, Commit).value, AbsAct(c, s, Commit, a))
  {
    hide InOps, Reserved, HasUnlogged, DiskInv, CacheInv;
    var s' := Act(c, s, Commit).value;
    FinishProc(s);
    assert DiskInv(c, s', a) by { FinishDisk(c, s, s', a); }
    NoneInOp(s.procs);
    CacheFrame(c, s, s', a);
  }

  lemma FinishDisk(c: Config, s: State, s': State, a: Abs)
    requires Inv(c, s, a) && s.mode.Running? && s.committing.Yes? && s.committing.ph.Finish?
    requires s'.disk == s.disk && s'.lh == s.lh && s'.committing.No?
    ensures DiskInv(c, s', a)
  {
    hide InOps, Reserved, ProcInv, CacheInv;
  }

  lemma CommitCase(c: Config, s: State, a: Abs)
    requires Inv(c, s, a) && s.mode.Running? && Act(c, s, Commit).Some?
    requires s.committing.Yes? && s.committing.ph.CopyLog? ==> InArea(c, s.lh)
    ensures Inv(c, Act(c, s, Commit).value, AbsAct(c, s, Commit, a))
  {
    hide Inv, AbsAct, CommitStep;
    assert c.Valid() && |s.disk| == |a.view| == c.nblocks by { InvSizes(c, s, a); }
    match s.committing.ph
    case CopyLog(i) => if i >= |s.lh| { TurnCase(c, s, a); } else { CopyCase(c, s, a); }
    case CommitHead => HeadCase(c, s, a);
    case Install(i) => if i >= |s.lh| { TurnCase(c, s, a); } else { InstallCase(c, s, a); }
    case Erase => EraseCase(c, s, a);
    case Finish => FinishCase(c, s, a);
  }

  lemma InvSizes(c: Config, s: State, a: Abs)
    requires Inv(c, s, a)
    ensures c.Valid() && |s.disk| == |a.view| == |a.durable| == c.nblocks
  {
    hide ProcInv, CacheInv, DiskInv, RecInv, Recovered;
  }

  // ----- the steps of a recovery

  lemma ReadHeadCase(c: Config, s: State, a: Abs)
    requires Inv(c, s, a) && s.mode == Recovering(ReadHead)
    ensures Act(c, s, Recover).Some? && Inv(c, Act(c, s, Recover).value, a)
  {}

  /** Overwriting the home block of a log entry changes nothing that recovery would restore. */
  lemma SameRecovered(c: Config, disk: seq<Block>, disk': seq<Block>, i: nat)
    requires c.Valid() && |disk| == c.nblocks && GoodHead(c, disk)
    requires var lh := Entries(disk[c.start]); i < |lh| && |disk'| == |disk| && disk' == disk[lh[i] := disk'[lh[i]]]
    ensures forall x: nat | c.Home(x) :: Recovered(c, disk', x) == Recovered(c, disk, x)
  {
    hide Entries, Count;
    var lh := Entries(disk[c.start]);
    assert c.Home(lh[i]) && disk'[c.start] == disk[c.start];
    SlotOf(c, lh, i);
    forall x: nat | c.Home(x) ensures Recovered(c, disk', x) == Recovered(c, disk, x) {
      var k := Slot(lh, x);
      if k < |lh| { assert c.LogBlock(k) != lh[i]; } else { assert x != lh[i]; }
    }
  }

  /** Installing one block once more: home blocks still recover to the same contents. */
  lemma ReinstallCase(c: Config, s: State, a: Abs)
    requires Inv(c, s, a) && s.mode.Recovering? && s.mode.ph.Reinstall?
    ensures Act(c, s, Recover).Some? && Inv(c, Act(c, s, Recover).value, a)
  {
    if s.mode.ph.i < |s.lh| { ReinstallBlock(c, s, a); } else { ReinstallDone(c, s, a); }
  }

  lemma ReinstallBlock(c: Config, s: State, a: Abs)
    requires Inv(c, s, a) && s.mode.Recovering? && s.mode.ph.Reinstall? && s.mode.ph.i < |s.lh|
    ensures Act(c, s, Recover).Some? && Inv(c, Act(c, s, Recover).value, a)
  {
    hide Entries, Count, ProcInv, CacheInv, DiskInv;
    var i, s' := s.mode.ph.i, Act(c, s, Recover).value;
    ReinstallSource(c, s, a);
    hide Recovered, Slot;
    SameRecovered(c, s.disk, s'.disk, i);
  }

  /** What goes to the home block is what is durable. */
  lemma ReinstallSource(c: Config, s: State, a: Abs)
    requires Inv(c, s, a) && s.mode.Recovering? && s.mode.ph.Reinstall? && s.mode.ph.i < |s.lh|
    ensures var i := s.mode.ph.i;
            && c.Home(s.lh[i]) && c.LogBlock(i) < c.nblocks
            && Content(s, c.LogBlock(i)) == s.disk[c.LogBlock(i)] == a.durable[s.lh[i]]
  {
    hide Entries, Count, ProcInv, CacheInv, DiskInv;
    SlotOf(c, s.lh, s.mode.ph.i);
    assert c.Home(s.lh[s.mode.ph.i]);
    assert Recovered(c, s.disk, s.lh[s.mode.ph.i]) == a.durable[s.lh[s.mode.ph.i]];
  }

  lemma ReinstallDone(c: Config, s: State, a: Abs)
    requires Inv(c, s, a) && s.mode.Recovering? && s.mode.ph.Reinstall? && s.mode.ph.i >= |s.lh|
    ensures Act(c, s, Recover).Some? && Inv(c, Act(c, s, Recover).value, a)
  {
    hide Entries, Count;
    forall x: nat | c.Home(x) ensures s.disk[x] == a.durable[x] {
      var k := Slot(s.lh, x);
      if k < |s.lh| { assert s.lh[k] == x; }
    }
  }

  lemma ResetCase(c: Config, s: State, a: Abs)
    requires Inv(c, s, a) && s.mode == Recovering(Reset)
    ensures Act(c, s, Recover).Some? && Inv(c, Act(c, s, Recover).value, a)
  {
    var s' := Act(c, s, Recover).value;
    assert Content(s, c.start) == s.disk[c.start];
    HeadCount(s.disk[c.start], []);
    AllOutside(s.procs);
    assert forall x :: !IsPending(s', x);
  }

  /** A group starts to be copied to the log only if the log has a block for each entry. */
  predicate Contained(c: Config, s: State, l: Label) {
    l.Commit? && s.mode.Running? && s.committing.Yes? && s.committing.ph == CopyLog(0) && HasBuffers(c, s, l) ==> InArea(c, s.lh)
  }

  lemma CopyingInArea(c: Config, s: State, a: Abs)
    requires Inv(c, s, a) && s.mode.Running? && s.committing.Yes? && s.committing.ph.CopyLog? && s.committing.ph.i > 0
    ensures InArea(c, s.lh)
  {
    hide ProcInv, CacheInv;
  }

  lemma ActKeeps(c: Config, s: State, l: Label, a: Abs)
    requires Inv(c, s, a) && c.Valid() && |s.disk| == |a.view| == c.nblocks && Act(c, s, l).Some?
    requires l.Commit? && s.committing.Yes? && s.committing.ph.CopyLog? ==> InArea(c, s.lh)
    ensures Inv(c, Act(c, s, l).value, AbsAct(c, s, l, a))
  {
    hide Inv;
    match l
    case Crash => CrashCase(c, s, a);
    case Recover =>
      match s.mode.ph {
        case ReadHead => ReadHeadCase(c, s, a);
        case Reinstall(_) => ReinstallCase(c, s, a);
        case Reset => ResetCase(c, s, a);
      }
    case Begin(t) => BeginCase(c, s, t, a);
    case Try(t) => TryCase(c, s, t, a);
    case Read(t, b) => ReadCase(c, s, t, b, a);
    case Modify(t, b, data) => ModifyCase(c, s, t, b, data, a);
    case LogCheck(t, b) => CheckCase(c, s, t, b, a);
    case LogAppend(t) => AppendCase(c, s, t, a);
    case Release(t, b) => ReleaseCase(c, s, t, b, a);
    case End(t) => EndCase(c, s, t, a);
    case Commit => CommitCase(c, s, a);
    case Evict(b) => EvictCase(c, s, b, a);
  }

  /** Reading more blocks into free buffers. */
  lemma LoadKeeps(c: Config, s: State, need: set<nat>, a: Abs)
    requires Inv(c, s, a)
    ensures Inv(c, Loaded(s, need), a)
  {
    hide DiskInv, ProcInv, InOps, Reserved;
    var s' := Loaded(s, need);
    if s.mode.Running? {
      DiskFrame(c, s, s', a);
      ProcFrame(s, s');
      assert forall x :: IsPending(s', x) == IsPending(s, x);
      forall x | x in s'.cache ensures BufOK(c, s', a, x, s'.cache[x]) {
        if x in s.cache { assert BufOK(c, s, a, x, s.cache[x]); }
      }
    }
  }

  /** Every step keeps the invariant, with the abstract disk stepping along. */
  lemma StepKeeps(c: Config, s: State, l: Label, a: Abs)
    requires Inv(c, s, a) && c.Valid() && |s.disk| == |a.view| == c.nblocks && Exec(c, s, l).Some? && Contained(c, s, l)
    ensures Inv(c, Exec(c, s, l).value, AbsStep(c, s, l, a))
  {
    hide Inv, Act, AbsAct;
    if HasBuffers(c, s, l) {
      var s1 := Loaded(s, Needs(c, s, l));
      LoadKeeps(c, s, Needs(c, s, l), a);
      if l.Commit? && s.committing.Yes? && s.committing.ph.CopyLog? && s.committing.ph.i > 0 { CopyingInArea(c, s, a); }
      ActKeeps(c, s1, l, a);
      LoadSame(c, s, l, a);
    } else {
      PanicKeeps(c, s, a);
    }
  }

  lemma LoadSame(c: Config, s: State, l: Label, a: Abs)
    requires |a.view| == c.nblocks
    ensures AbsAct(c, Loaded(s, Needs(c, s, l)), l, a) == AbsAct(c, s, l, a)
  {}

  lemma PanicKeeps(c: Config, s: State, a: Abs)
    requires Inv(c, s, a)
    ensures Inv(c, s.(mode := Panicked), a)
  {
    RecoveredDurable(c, s, a);
    hide ProcInv, CacheInv, DiskInv, RecInv;
  }
}
