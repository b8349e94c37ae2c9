/** Every step of an operation brings it nearer to its end: going down the tree, or through the fixed
    number of steps that remain at its place. */
module BstProgress {
  import opened BstTree
  import opened BstEdits
  import opened BstMachine
  import opened BstInvariant
  import opened BstSteps
  import opened BstDeletes
  import opened BstTheorems

  const REST: nat := 10   // more than the steps after the last comparison

  /** The part of the tree below a place, four steps for each level. */
  function Below(T: Tree, l: Loc): (n: nat) {
    if Rank(T, l) <= Height(T) then 4 * (Height(T) + 1 - Rank(T, l)) else 0
  }

  /** A bound on the steps that the operation still takes while the tree stays as it is. */
  function Work(T: Tree, pc: PC): (n: nat) {
    match pc
    case Idle => 0
    case Start(_) => Below(T, TreeLock) + REST + 4
    case At(_, cur) => Below(T, cur) + REST + 3
    case Wait(_, _, _, next) => Below(T, NodeLock(next)) + REST + 6
    case HandOver(_, _, next) => Below(T, NodeLock(next)) + REST + 5
    case DelAt(_, _, _, x) => Below(T, NodeLock(x)) + REST + 5
    case DelDrop(_, _, x, _, _) => Below(T, NodeLock(x)) + REST + 4
    case TwoDrop(_, _, x) => Below(T, NodeLock(x)) + REST + 4
    case TwoFirst(_, x) => Below(T, NodeLock(x)) + REST + 3
    case TwoAt(_, _, _, succ) => Below(T, NodeLock(succ)) + REST + 5
    case TwoWait(_, _, _, _, next) => Below(T, NodeLock(next)) + REST + 7
    case TwoHand(_, _, _, _, next) => Below(T, NodeLock(next)) + REST + 6
    case TwoValue(_, _, _, _) => 8
    case TwoUnlink(_, _, _, _) => 7
    case Finish(_, todo, _) => |todo| + 1
  }

  lemma Deeper(s: State, T: Tree, t: Tid, held: Loc, wanted: Loc)
    requires Inv(s, T) && t in s.threads && held in Held(s.threads[t]) && Wants(s, t, wanted)
    ensures Below(T, wanted) + 4 <= Below(T, held)
  {
    hide Inv, Wants, Rank, Height, Held;
    DownTheTree(s, T, t, held, wanted);
    WantedRank(s, T, t, wanted);
  }

  /** Where a step leads from where: the flow of control of the three operations. */
  predicate Follows(pc: PC, pc': PC) {
    match pc
    case Idle => pc'.Start?
    case Start(_) => pc'.At? && pc'.cur == TreeLock
    case At(_, cur) => (pc'.Finish? && |pc'.todo| == 1) || (pc'.Wait? && pc'.cur == cur)
    case Wait(_, _, _, next) => (pc'.HandOver? && pc'.next == next) || (pc'.DelAt? && pc'.node == next)
    case HandOver(_, _, next) => pc'.At? && pc'.cur == NodeLock(next)
    case DelAt(_, _, _, x) =>
      (pc'.Finish? && |pc'.todo| <= 3) || (pc'.DelDrop? && pc'.node == x) || (pc'.TwoDrop? && pc'.node == x)
    case DelDrop(_, _, x, _, _) => pc'.Wait? && pc'.cur == NodeLock(x)
    case TwoDrop(_, _, x) => pc'.TwoFirst? && pc'.node == x
    case TwoFirst(_, x) => pc'.TwoAt? && pc'.node == x
    case TwoAt(_, _, _, succ) => pc'.TwoValue? || (pc'.TwoWait? && pc'.succ == succ)
    case TwoWait(_, _, _, _, next) => (pc'.TwoAt? && pc'.succ == next) || (pc'.TwoHand? && pc'.next == next)
    case TwoHand(_, _, _, _, next) => pc'.TwoAt? && pc'.succ == next
    case TwoValue(_, _, _, _) => pc'.TwoUnlink?
    case TwoUnlink(_, _, _, _) => pc'.Finish? && |pc'.todo| <= 4
    case Finish(_, todo, _) => if todo == [] then pc'.Idle? else pc'.Finish? && |pc'.todo| == |todo| - 1
  }

  lemma Flow(s: State, t: Tid, c: Choice, s': State)
    requires t in s.threads && Exec(s, t, c) == Next(s')
    ensures t in s'.threads && Follows(s.threads[t], s'.threads[t])
  {}

  /** A thread holds the place from which it goes on to wait. */
  lemma WaitsBelow(s: State, T: Tree, t: Tid)
    requires Inv(s, T) && t in s.threads
    ensures var pc := s.threads[t];
            && (pc.Wait? ==> Below(T, NodeLock(pc.next)) + 4 <= Below(T, pc.cur))
            && (pc.TwoWait? ==> Below(T, NodeLock(pc.next)) + 4 <= Below(T, NodeLock(pc.succ)))
  {
    hide Inv, Below;
    var pc := s.threads[t];
    if pc.Wait? { Deeper(s, T, t, pc.cur, NodeLock(pc.next)); }
    if pc.TwoWait? { Deeper(s, T, t, NodeLock(pc.succ), NodeLock(pc.next)); }
  }

  lemma FirstBelow(s: State, T: Tree, t: Tid, c: Choice, s': State)
    requires Inv(s, T) && t in s.threads && s.threads[t].TwoFirst? && Exec(s, t, c) == Next(s')
    ensures t in s'.threads && s'.threads[t].TwoAt?
    ensures Below(T, NodeLock(s'.threads[t].succ)) + 4 <= Below(T, NodeLock(s.threads[t].node))
  {
    hide Inv, Below;
    Deeper(s, T, t, NodeLock(s.threads[t].node), NodeLock(s'.threads[t].succ));
  }

  lemma KeptTree(s: State, T: Tree, t: Tid, s': State, T': Tree)
    requires t in s.threads && Kept(s, T, t, Next(s'), T')
    ensures Inv(s', T') && t in s'.threads && (StatusOf(s'.threads[t]).Pending? ==> T' == T)
  {
    hide Inv;
  }

  lemma LessWork(T: Tree, pc: PC, pc': PC)
    requires Follows(pc, pc') && !pc.Idle?
    requires pc'.Wait? ==> Below(T, NodeLock(pc'.next)) + 4 <= Below(T, pc'.cur)
    requires pc'.TwoWait? ==> Below(T, NodeLock(pc'.next)) + 4 <= Below(T, NodeLock(pc'.succ))
    requires pc.TwoFirst? && pc'.TwoAt? ==> Below(T, NodeLock(pc'.succ)) + 4 <= Below(T, NodeLock(pc.node))
    ensures Work(T, pc') < Work(T, pc)
  {
    hide Below;
  }

  /** After the effect the rest does not depend on the tree. */
  lemma SameRest(T: Tree, T': Tree, pc: PC)
    requires !StatusOf(pc).Pending?
    ensures Work(T', pc) == Work(T, pc)
  {}

  /** Every step of an unfinished operation leaves it with less work. */
  lemma StepWorks(s: State, T: Tree, t: Tid, c: Choice, s': State, T': Tree)
    requires Inv(s, T) && t in s.threads && !s.threads[t].Idle? && Exec(s, t, c) == Next(s') && Kept(s, T, t, Next(s'), T')
    ensures t in s'.threads && Work(T', s'.threads[t]) < Work(T, s.threads[t])
  {
    hide Inv, Below, Exec, Kept, Work, Follows;
    Flow(s, t, c, s');
    KeptTree(s, T, t, s', T');
    var pc, pc' := s.threads[t], s'.threads[t];
    if StatusOf(pc').Pending? {
      WaitsBelow(s', T, t);
      if pc.TwoFirst? { FirstBelow(s, T, t, c, s'); }
    } else {
      SameRest(T, T', pc');
    }
    LessWork(T, pc, pc');
  }

  lemma Sizes(r: Run, trees: seq<Tree>)
    requires IsRun(r) && Explains(r, trees)
    ensures |r.states| == |trees| == |r.who| + 1 == |r.choices| + 1
  {
    hide Inv, Exec, Init, Kept;
  }

  lemma StepAt(r: Run, trees: seq<Tree>, i: nat)
    requires IsRun(r) && Explains(r, trees) && i < |r.who|
    ensures |r.states| == |trees| == |r.who| + 1 == |r.choices| + 1 && r.who[i] in r.states[i].threads && Inv(r.states[i], trees[i])
    ensures Exec(r.states[i], r.who[i], r.choices[i]) == Next(r.states[i + 1])
    ensures Kept(r.states[i], trees[i], r.who[i], Next(r.states[i + 1]), trees[i + 1])
  {
    hide Inv, Exec, Init, Kept;
  }

  /** A thread that runs without the others getting in between takes boundedly many steps to finish. */
  lemma {:induction false} FinishesAlone(r: Run, trees: seq<Tree>, t: Tid, i: nat, j: nat)
    requires IsRun(r) && Explains(r, trees) && i <= j < |r.states| && t in r.states[i].threads
    requires forall k | i <= k < j :: r.who[k] == t && t in r.states[k].threads && !r.states[k].threads[t].Idle?
    ensures t in r.states[j].threads && j - i + Work(trees[j], r.states[j].threads[t]) <= Work(trees[i], r.states[i].threads[t])
  {
    hide Inv, Exec, Init, Kept, Work, IsRun, Explains;
    if i < j {
      FinishesAlone(r, trees, t, i, j - 1);
      Sizes(r, trees);
      assert r.who[j - 1] == t;
      StepAt(r, trees, j - 1);
      StepWorks(r.states[j - 1], trees[j - 1], t, r.choices[j - 1], r.states[j], trees[j]);
    }
  }
}
