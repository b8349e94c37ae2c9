/** log.c over bio.c as a step system. Processes run file-system operations between begin_op and
    end_op; the last end_op of a group commits it. Every single-block disk write is one step, the
    machine may lose its memory between any two steps, and recovery is made of such steps too.

    A buffer is a cached block, and there are `nbuf` of them. bread locks one, reading the disk if the
    block is not cached; log_write marks it dirty; a clean buffer that nobody holds may be recycled at
    any time. A block that is not cached takes the place of such a buffer, or bget panics. */
module LogMachine {
  type Tid = nat
  type Block = seq<nat>

  const LOGSIZE: nat := 30
  const MAXOPBLOCKS: nat := 10
  const WORDS: nat := 128   // 4-byte words in a block

  const NBUF: nat := 30
  const FSSIZE: nat := 1000

  /** Where the log lies: its header block, and how many blocks it has with the header. And how many
      buffers there are. */
  datatype Config = Config(start: nat, size: nat, nblocks: nat, nbuf: nat) {
    ghost predicate Valid() { 0 < size && start + size <= nblocks }

    predicate Home(b: nat) { b < nblocks && !(start <= b < start + size) }

    function LogBlock(i: nat): (r: nat) { start + i + 1 }
  }

  /** The disk that mkfs makes, with the buffers of the kernel. */
  const MKFS := Config(2, LOGSIZE, FSSIZE, NBUF)

  datatype Holder = Free | By(t: Tid)

  /** `unlogged`: the holder has changed the data and not yet called log_write. */
  datatype Buf = Buf(data: Block, dirty: bool, holder: Holder, unlogged: bool)

  datatype Phase = CopyLog(i: nat) | CommitHead | Install(i: nat) | Erase | Finish

  datatype Committing = No | Yes(t: Tid, ph: Phase)

  datatype Proc =
    | Outside
    | Trying                                  // at the top of the loop in begin_op
    | Sleeping                                // on the log channel
    | Inside(logged: set<nat>)                // between begin_op and end_op; what it has logged
    | Checked(logged: set<nat>, b: nat)       // in log_write, past the checks
    | Committer

  datatype RPhase = ReadHead | Reinstall(i: nat) | Reset

  datatype Mode = Running | Recovering(ph: RPhase) | Panicked

  datatype State = State(disk: seq<Block>, cache: map<nat, Buf>, lh: seq<nat>, outstanding: int,
                         committing: Committing, procs: seq<Proc>, mode: Mode)

  datatype Label =
    | Begin(t: Tid)
    | Try(t: Tid)
    | Read(t: Tid, b: nat)
    | Modify(t: Tid, b: nat, data: Block)
    | LogCheck(t: Tid, b: nat)
    | LogAppend(t: Tid)
    | Release(t: Tid, b: nat)
    | End(t: Tid)
    | Commit
    | Evict(b: nat)
    | Crash
    | Recover

  datatype Option<T> = None | Some(value: T)

  // ----- the header block

  function Count(h: Block): (r: nat) { if h == [] then 0 else h[0] }

  function Entries(h: Block): (r: seq<nat>) { if Count(h) < |h| then h[1..1 + Count(h)] else [] }

  /** write_head overwrites the count and the first entries, and leaves the other words alone. */
  function HeadBlock(prev: Block, lh: seq<nat>): (r: Block) {
    [|lh|] + lh + if 1 + |lh| <= |prev| then prev[1 + |lh|..] else []
  }

  // ----- the buffer cache

  /** What bread finds in the buffer of `b`. */
  function Content(s: State, b: nat): (r: Block)
    requires b < |s.disk|
  {
    if b in s.cache then s.cache[b].data else s.disk[b]
  }

  predicate Available(s: State, b: nat) { b in s.cache ==> s.cache[b].holder == Free }

  /** bwrite by a process that holds the buffer: buffer and disk agree, the buffer is clean. */
  function Written(s: State, b: nat, data: Block): (r: State)
    requires b < |s.disk|
  {
    s.(disk := s.disk[b := data], cache := s.cache[b := Buf(data, false, Free, false)])
  }

  // ----- begin_op, log_write, end_op

  predicate MustWait(s: State) {
    s.committing.Yes? || |s.lh| + (s.outstanding + 1) * MAXOPBLOCKS > LOGSIZE
  }

  function WakeAll(procs: seq<Proc>): (r: seq<Proc>) {
    seq(|procs|, i requires 0 <= i < |procs| => if procs[i] == Sleeping then Trying else procs[i])
  }

  predicate InOp(p: Proc) { p.Inside? || p.Checked? }

  /** The two checks of log_write: is there no room for one more entry? */
  predicate LogFull(c: Config, s: State) { |s.lh| >= LOGSIZE || |s.lh| >= c.size - 1 }

  function Absorb(lh: seq<nat>, b: nat): (r: seq<nat>) { if b in lh then lh else lh + [b] }

  predicate HasUnlogged(s: State, t: Tid) {
    exists b | b in s.cache :: s.cache[b].holder == By(t) && s.cache[b].unlogged
  }

  function TryBegin(s: State, t: Tid): (r: State)
    requires t < |s.procs|
  {
    if MustWait(s) then s.(procs := s.procs[t := Sleeping])
    else s.(outstanding := s.outstanding + 1, procs := s.procs[t := Inside({})])
  }

  function EndOp(s: State, t: Tid): (r: State)
    requires t < |s.procs|
  {
    if s.committing.Yes? then s.(mode := Panicked)
    else if s.outstanding - 1 == 0 then
      s.(outstanding := 0, procs := s.procs[t := Committer],
         committing := Yes(t, if |s.lh| > 0 then CopyLog(0) else Finish))
    else
      s.(outstanding := s.outstanding - 1, procs := WakeAll(s.procs[t := Outside]))
  }

  // ----- commit

  function CommitStep(c: Config, s: State): (r: Option<State>)
    requires s.committing.Yes? && |s.disk| == c.nblocks && c.Valid()
  {
    var t := s.committing.t;
    match s.committing.ph
    case CopyLog(i) =>
      if i >= |s.lh| then Some(s.(committing := Yes(t, CommitHead)))
      else if c.LogBlock(i) >= c.nblocks || s.lh[i] >= c.nblocks then Some(s.(mode := Panicked))
      else if !Available(s, s.lh[i]) || !Available(s, c.LogBlock(i)) then None
      else Some(Written(s, c.LogBlock(i), Content(s, s.lh[i])).(committing := Yes(t, CopyLog(i + 1))))
    case CommitHead =>
      Some(Written(s, c.start, HeadBlock(Content(s, c.start), s.lh)).(committing := Yes(t, Install(0))))
    case Install(i) =>
      if i >= |s.lh| then Some(s.(committing := Yes(t, Erase)))
      else if c.LogBlock(i) >= c.nblocks || s.lh[i] >= c.nblocks then Some(s.(mode := Panicked))
      else if !Available(s, s.lh[i]) || !Available(s, c.LogBlock(i)) then None
      else Some(Written(s, s.lh[i], Content(s, c.LogBlock(i))).(committing := Yes(t, Install(i + 1))))
    case Erase =>
      Some(Written(s, c.start, HeadBlock(Content(s, c.start), [])).(lh := [], committing := Yes(t, Finish)))
    case Finish =>
      Some(s.(committing := No, procs := WakeAll(if t < |s.procs| then s.procs[t := Outside] else s.procs)))
  }

  // ----- losing the memory, and recovering from the disk alone

  function Crashed(s: State): (r: State) {
    State(s.disk, map[], [], 0, No, seq(|s.procs|, _ => Outside), Recovering(ReadHead))
  }

  function RecoverStep(c: Config, s: State): (r: Option<State>)
    requires s.mode.Recovering? && |s.disk| == c.nblocks && c.Valid()
  {
    match s.mode.ph
    case ReadHead =>
      var h := Content(s, c.start);
      Some(s.(lh := Entries(h), cache := s.cache[c.start := Buf(h, false, Free, false)], mode := Recovering(Reinstall(0))))
    case Reinstall(i) =>
      if i >= |s.lh| then Some(s.(mode := Recovering(Reset)))
      else if c.LogBlock(i) >= c.nblocks || s.lh[i] >= c.nblocks then Some(s.(mode := Panicked))
      else Some(Written(s, s.lh[i], Content(s, c.LogBlock(i))).(mode := Recovering(Reinstall(i + 1))))
    case Reset =>
      Some(Written(s, c.start, HeadBlock(Content(s, c.start), [])).(lh := [], mode := Running))
  }

  // ----- one step

  predicate Enabled(c: Config, s: State, l: Label) {
    match l
    case Begin(t) => t < |s.procs| && s.procs[t] == Outside
    case Try(t) => t < |s.procs| && s.procs[t] == Trying
    case Read(t, b) => t < |s.procs| && c.Home(b) && Available(s, b)
    case Modify(t, b, _) => t < |s.procs| && InOp(s.procs[t]) && b in s.cache && c.Home(b) && s.cache[b].holder == By(t)
    case LogCheck(t, b) =>
      && t < |s.procs| && s.procs[t].Inside? && b in s.cache && c.Home(b) && s.cache[b].holder == By(t)
      && |s.procs[t].logged + {b}| <= MAXOPBLOCKS
    case LogAppend(t) =>
      t < |s.procs| && s.procs[t].Checked? && s.procs[t].b in s.cache && s.cache[s.procs[t].b].holder == By(t)
    case Release(t, b) =>
      && t < |s.procs| && b in s.cache && s.cache[b].holder == By(t) && !s.cache[b].unlogged
      && !(s.procs[t].Checked? && s.procs[t].b == b)
    case End(t) => t < |s.procs| && s.procs[t].Inside? && !HasUnlogged(s, t)
    case Commit => s.committing.Yes?
    case Evict(b) => b in s.cache && !s.cache[b].dirty && s.cache[b].holder == Free
    case Crash => true
    case Recover => true
  }

  /** May this step be the next one? Operations are assumed to keep to the interface: at most
      MAXOPBLOCKS distinct blocks per operation, and every changed buffer is logged before it is released. */
  predicate Offered(c: Config, s: State, l: Label) {
    if l.Crash? then true
    else if s.mode.Recovering? then l.Recover?
    else s.mode.Running? && !l.Recover? && Enabled(c, s, l)
  }

  /** The step itself, once its buffers are there. */
  function Act(c: Config, s: State, l: Label): (r: Option<State>)
    requires |s.disk| == c.nblocks && c.Valid()
  {
    if !Offered(c, s, l) then None
    else match l
      case Crash => Some(Crashed(s))
      case Recover => RecoverStep(c, s)
      case Begin(t) => Some(s.(procs := s.procs[t := Trying]))
      case Try(t) => Some(TryBegin(s, t))
      case Read(t, b) =>
        var buf := if b in s.cache then s.cache[b] else Buf(s.disk[b], false, Free, false);
        Some(s.(cache := s.cache[b := buf.(holder := By(t))]))
      case Modify(t, b, data) => Some(s.(cache := s.cache[b := s.cache[b].(data := data, unlogged := true)]))
      case LogCheck(t, b) =>
        if LogFull(c, s) || s.outstanding < 1 then Some(s.(mode := Panicked))
        else Some(s.(procs := s.procs[t := Checked(s.procs[t].logged, b)]))
      case LogAppend(t) =>
        var Checked(logged, b) := s.procs[t];
        Some(s.(lh := Absorb(s.lh, b), cache := s.cache[b := s.cache[b].(dirty := true, unlogged := false)],
                procs := s.procs[t := Inside(logged + {b})]))
      case Release(t, b) => Some(s.(cache := s.cache[b := s.cache[b].(holder := Free)]))
      case End(t) => Some(EndOp(s, t))
      case Commit => CommitStep(c, s)
      case Evict(b) => Some(s.(cache := s.cache - {b}))
  }

  // ----- a limited number of buffers

  /** The blocks that a step has in buffers at the same time. */
  function Needs(c: Config, s: State, l: Label): (r: set<nat>) {
    match l
    case Read(_, b) => {b}
    case Commit =>
      if s.committing.No? then {}
      else (match s.committing.ph
        case CopyLog(i) => if i < |s.lh| then {c.LogBlock(i), s.lh[i]} else {}
        case Install(i) => if i < |s.lh| then {c.LogBlock(i), s.lh[i]} else {}
        case CommitHead => {c.start}
        case Erase => {c.start}
        case Finish => {})
    case Recover =>
      if !s.mode.Recovering? then {}
      else (match s.mode.ph
        case ReadHead => {c.start}
        case Reset => {c.start}
        case Reinstall(i) => if i < |s.lh| then {c.LogBlock(i), s.lh[i]} else {})
    case _ => {}
  }

  /** The blocks of `need` that were not cached have been read. */
  function Loaded(s: State, need: set<nat>): (r: State) {
    if need <= s.cache.Keys then s
    else s.(cache := map b: nat | b in s.cache.Keys + need && (b in s.cache || b < |s.disk|) ::
                       if b in s.cache then s.cache[b] else Buf(s.disk[b], false, Free, false))
  }

  predicate HasBuffers(c: Config, s: State, l: Label) {
    Needs(c, s, l) <= s.cache.Keys || |s.cache.Keys + Needs(c, s, l)| <= c.nbuf
  }

  predicate Recyclable(s: State, b: nat) { b in s.cache && !s.cache[b].dirty && s.cache[b].holder == Free }

  /** One step. With no buffer left for a block that it needs, bget recycles one, which is a step Evict;
      and if every other buffer is dirty or held, it panics. */
  function Exec(c: Config, s: State, l: Label): (r: Option<State>)
    requires |s.disk| == c.nblocks && c.Valid()
  {
    if !Offered(c, s, l) then None
    else if HasBuffers(c, s, l) then Act(c, Loaded(s, Needs(c, s, l)), l)
    else if exists b | b in s.cache :: b !in Needs(c, s, l) && Recyclable(s, b) then None
    else Some(s.(mode := Panicked))
  }

  /** A freshly formatted disk, before anything has been read. */
  predicate Init(c: Config, s: State) {
    && |s.disk| == c.nblocks && c.start < c.nblocks && |s.disk[c.start]| == WORDS && Count(s.disk[c.start]) == 0
    && s.cache == map[] && s.lh == [] && s.outstanding == 0 && s.committing == No
    && (forall t | 0 <= t < |s.procs| :: s.procs[t] == Outside) && s.mode == Recovering(ReadHead)
  }
}
