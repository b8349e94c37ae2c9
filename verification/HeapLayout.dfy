/** The block layout of p3Heap.c as a sequence of blocks, and what best-fit placement, splitting and
    immediate coalescing do to it. Addresses are counted in 4-byte words from the start of the
    mapping; the first header lies in word 1, so that payloads start at multiples of 8 bytes. */
module HeapLayout {
  datatype Block = Block(size: nat, live: bool) {
    function Words(): (r: nat) { size / 4 }
  }

  ghost predicate Sizes(bs: seq<Block>) {
    forall i | 0 <= i < |bs| :: bs[i].size >= 8 && bs[i].size % 8 == 0
  }

  /** Coalescing is immediate: no two free blocks are neighbours. */
  ghost predicate Coalesced(bs: seq<Block>) {
    forall i | 0 <= i < |bs| - 1 :: bs[i].live || bs[i + 1].live
  }

  ghost predicate WellFormed(bs: seq<Block>) { Sizes(bs) && Coalesced(bs) }

  /** The word of the header of block `i`; of the end mark for i == |bs|. */
  function Start(bs: seq<Block>, i: nat): (r: nat)
    requires i <= |bs|
  {
    if i == 0 then 1 else Start(bs, i - 1) + bs[i - 1].Words()
  }

  // ----- placement

  predicate Fits(b: Block, need: int) { !b.live && b.size >= need }

  /** Block `k` is the first of the smallest free blocks that are large enough, among the first `n`. */
  ghost predicate IsBestFit(bs: seq<Block>, n: nat, need: int, k: nat) {
    && k < n <= |bs| && Fits(bs[k], need)
    && (forall j | 0 <= j < n && Fits(bs[j], need) :: bs[k].size <= bs[j].size)
    && (forall j | 0 <= j < k && Fits(bs[j], need) :: bs[k].size < bs[j].size)
  }

  ghost predicate NoFit(bs: seq<Block>, n: nat, need: int)
    requires n <= |bs|
  {
    forall j | 0 <= j < n :: !Fits(bs[j], need)
  }

  /** Header and payload, rounded up to a multiple of 8. */
  function Need(size: int): (r: int)
    requires size >= 1
  {
    (size + 4 + 7) / 8 * 8
  }

  /** Allocating in block `k`: the remainder, if there is any, becomes a free block. */
  function Place(bs: seq<Block>, k: nat, need: int): (r: seq<Block>)
    requires k < |bs| && 0 <= need <= bs[k].size
  {
    var rest := bs[k].size - need;
    if rest >= 8 then bs[..k] + [Block(need, true), Block(rest, false)] + bs[k + 1..]
    else bs[k := bs[k].(live := true)]
  }

  // ----- coalescing

  /** Merges block `k` with its right neighbour. */
  function Merge(bs: seq<Block>, k: nat): (r: seq<Block>)
    requires k + 1 < |bs|
  {
    bs[..k] + [Block(bs[k].size + bs[k + 1].size, false)] + bs[k + 2..]
  }

  function MergeRight(bs: seq<Block>, k: nat): (r: seq<Block>)
    requires k < |bs|
  {
    if k + 1 < |bs| && !bs[k + 1].live then Merge(bs, k) else bs
  }

  function MergeLeft(bs: seq<Block>, k: nat): (r: seq<Block>)
    requires k < |bs|
  {
    if k > 0 && !bs[k - 1].live then Merge(bs, k - 1) else bs
  }

  /** Freeing block `k`: free it, then merge with the free neighbours. */
  function Dispose(bs: seq<Block>, k: nat): (r: seq<Block>)
    requires k < |bs|
  {
    MergeLeft(MergeRight(bs[k := bs[k].(live := false)], k), k)
  }

  lemma NeedFacts(size: int)
    requires size >= 1
    ensures Need(size) % 8 == 0 && size + 4 <= Need(size) < size + 12 && Need(size) >= 8
  {}

  lemma PlaceKeeps(bs: seq<Block>, k: nat, need: int)
    requires WellFormed(bs) && k < |bs| && Fits(bs[k], need) && need >= 8 && need % 8 == 0
    ensures WellFormed(Place(bs, k, need))
    ensures bs[k].size - need >= 8 || bs[k].size == need
  {
    var bs' := Place(bs, k, need);
    forall i | 0 <= i < |bs'| - 1 ensures bs'[i].live || bs'[i + 1].live {
      if bs[k].size - need >= 8 && i > k { assert bs'[i] == if i == k + 1 then Block(bs[k].size - need, false) else bs[i - 1]; }
    }
  }

  predicate Pair(bs: seq<Block>, i: int)
    requires 0 <= i < |bs| - 1
  {
    bs[i].live || bs[i + 1].live
  }

  lemma MergeFacts(bs: seq<Block>, k: nat)
    requires k + 1 < |bs|
    ensures |Merge(bs, k)| == |bs| - 1
    ensures forall i | 0 <= i < |bs| - 1 ::
              Merge(bs, k)[i] == if i < k then bs[i] else if i == k then Block(bs[k].size + bs[k + 1].size, false) else bs[i + 1]
  {}

  lemma MergeRightKeeps(bs: seq<Block>, k: nat)
    requires Sizes(bs) && k < |bs| && !bs[k].live
    requires forall i | 0 <= i < |bs| - 1 && i != k - 1 && i != k :: Pair(bs, i)
    ensures var bs' := MergeRight(bs, k);
            && Sizes(bs') && k < |bs'| <= |bs| && !bs'[k].live && bs'[..k] == bs[..k]
            && (forall i | 0 <= i < |bs'| - 1 && i != k - 1 :: Pair(bs', i))
  {
    var bs' := MergeRight(bs, k);
    if k + 1 < |bs| && !bs[k + 1].live {
      MergeFacts(bs, k);
      hide Merge;
      forall i | 0 <= i < |bs'| - 1 && i != k - 1 ensures Pair(bs', i) {
        if i >= k { assert Pair(bs, i + 1); } else { assert Pair(bs, i); }
      }
    }
  }

  lemma MergeLeftKeeps(bs: seq<Block>, k: nat)
    requires Sizes(bs) && k < |bs| && !bs[k].live && (k > 1 && !bs[k - 1].live ==> bs[k - 2].live)
    requires forall i | 0 <= i < |bs| - 1 && i != k - 1 :: Pair(bs, i)
    ensures WellFormed(MergeLeft(bs, k))
  {
    var bs' := MergeLeft(bs, k);
    if k > 0 && !bs[k - 1].live {
      MergeFacts(bs, k - 1);
      hide Merge;
      forall i | 0 <= i < |bs'| - 1 ensures bs'[i].live || bs'[i + 1].live {
        if i >= k - 1 { assert Pair(bs, i + 1); } else { assert Pair(bs, i); }
      }
    } else {
      forall i | 0 <= i < |bs| - 1 ensures bs[i].live || bs[i + 1].live {
        if i != k - 1 { assert Pair(bs, i); }
      }
    }
  }

  lemma DisposeKeeps(bs: seq<Block>, k: nat)
    requires WellFormed(bs) && k < |bs| && bs[k].live
    ensures WellFormed(Dispose(bs, k))
  {
    var bs1 := bs[k := bs[k].(live := false)];
    MergeRightKeeps(bs1, k);
    var bs2 := MergeRight(bs1, k);
    assert k > 0 ==> bs2[k - 1] == bs2[..k][k - 1] == bs1[..k][k - 1] == bs[k - 1];
    assert k > 1 ==> bs2[k - 2] == bs2[..k][k - 2] == bs1[..k][k - 2] == bs[k - 2];
    MergeLeftKeeps(bs2, k);
  }

  /** Freeing what has just been allocated restores the layout exactly. */
  lemma PlaceDispose(bs: seq<Block>, k: nat, need: int)
    requires WellFormed(bs) && k < |bs| && Fits(bs[k], need) && need >= 8 && need % 8 == 0
    ensures Dispose(Place(bs, k, need), k) == bs
  {
    PlaceKeeps(bs, k, need);
    var bs' := Place(bs, k, need);
    var bs1 := bs'[k := bs'[k].(live := false)];
    if bs[k].size - need >= 8 {
      assert bs1[k + 1] == Block(bs[k].size - need, false);
      assert MergeRight(bs1, k) == bs;
    } else {
      assert bs1 == bs;
    }
  }

  // ----- addresses

  lemma {:induction false} StartSame(bs: seq<Block>, bs': seq<Block>, i: nat)
    requires i <= |bs| && i <= |bs'| && forall j | 0 <= j < i :: bs[j].size == bs'[j].size
    ensures Start(bs, i) == Start(bs', i)
  {
    if i > 0 { StartSame(bs, bs', i - 1); }
  }

  lemma {:induction false} StartMono(bs: seq<Block>, i: nat, j: nat)
    requires Sizes(bs) && i <= j <= |bs|
    ensures Start(bs, i) + 2 * (j - i) <= Start(bs, j)
    ensures i < j ==> Start(bs, i) + bs[i].Words() <= Start(bs, j)
    ensures Start(bs, i) % 2 == 1
  {
    if j > i { StartMono(bs, i, j - 1); }
    else if i > 0 { StartMono(bs, i - 1, i - 1); }
  }

  /** Equal tails start equally far on. */
  lemma {:induction false} StartShift(bs: seq<Block>, bs': seq<Block>, i: nat, i': nat, n: nat)
    requires i + n <= |bs| && i' + n <= |bs'| && Start(bs, i) == Start(bs', i')
    requires bs[i..i + n] == bs'[i'..i' + n]
    ensures Start(bs, i + n) == Start(bs', i' + n)
  {
    if n > 0 {
      assert bs[i..i + (n - 1)] == bs[i..i + n][..n - 1];
      assert bs'[i'..i' + (n - 1)] == bs'[i'..i' + n][..n - 1];
      StartShift(bs, bs', i, i', n - 1);
      assert bs[i + (n - 1)] == bs[i..i + n][n - 1];
      assert bs'[i' + (n - 1)] == bs'[i'..i' + n][n - 1];
    }
  }

  /** Two live payloads do not overlap. */
  lemma PayloadsDisjoint(bs: seq<Block>, i: nat, j: nat, w: int)
    requires Sizes(bs) && i < |bs| && j < |bs|
    requires Start(bs, i) < w < Start(bs, i + 1) && Start(bs, j) < w < Start(bs, j + 1)
    ensures i == j
  {
    if i < j { StartMono(bs, i + 1, j); }
    if j < i { StartMono(bs, j + 1, i); }
  }
}
