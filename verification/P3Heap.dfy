/** p3Heap.c: the heap as an array of header, footer and payload words, with the layout it encodes. */
module P3Heap {
  import opened HeapLayout

  /** Pointers as byte offsets from the start of the mapping. */
  datatype Ptr = Null | At(offset: int)

  // ----- header words: the size, the p-bit (2) and the a-bit (1)

  function GetSize(w: int): (r: int) { w - w % 4 }

  predicate IsAllocated(w: int) { w % 2 == 1 }

  predicate PrevAllocated(w: int) { (w / 2) % 2 == 1 }

  function SetPrev(w: int): (r: int) { if PrevAllocated(w) then w else w + 2 }

  function ClearPrev(w: int): (r: int) { if PrevAllocated(w) then w - 2 else w }

  function Header(size: nat, prevLive: bool, live: bool): (r: nat) {
    size + (if prevLive then 2 else 0) + if live then 1 else 0
  }

  lemma HeaderBits(size: nat, prevLive: bool, live: bool)
    requires size % 8 == 0
    ensures var w := Header(size, prevLive, live);
            && GetSize(w) == size && IsAllocated(w) == live && PrevAllocated(w) == prevLive
            && SetPrev(w) == Header(size, true, live) && ClearPrev(w) == Header(size, false, live)
            && (size >= 8 ==> w != 1)
  {}

  function PrevLive(bs: seq<Block>, i: nat): (r: bool)
    requires i <= |bs|
  {
    i == 0 || bs[i - 1].live
  }

  /** Header and footer of block `i`, which ends where block `i + 1` or the end mark starts. */
  ghost predicate EncodesBlock(m: seq<int>, bs: seq<Block>, i: nat)
    requires i < |bs|
  {
    var s, e := Start(bs, i), Start(bs, i + 1);
    && 0 <= s && s + 2 <= e < |m|
    && m[s] == Header(bs[i].size, PrevLive(bs, i), bs[i].live)
    && (!bs[i].live ==> m[e - 1] == bs[i].size)
  }

  /** The words `m` hold the blocks `bs`, one after another, from word 1 to the end mark. */
  ghost predicate Encodes(m: seq<int>, bs: seq<Block>) {
    && |m| == Start(bs, |bs|) + 1 && m[|m| - 1] == 1
    && forall i | 0 <= i < |bs| :: EncodesBlock(m, bs, i)
  }

  function Replace(bs: seq<Block>, a: nat, mid: seq<Block>, b: nat): (r: seq<Block>)
    requires a <= b <= |bs|
  {
    bs[..a] + mid + bs[b..]
  }

  lemma ReplaceItems(bs: seq<Block>, a: nat, mid: seq<Block>, b: nat)
    requires a <= b <= |bs|
    ensures var bs' := Replace(bs, a, mid, b);
            && |bs'| == a + |mid| + (|bs| - b)
            && (forall i | 0 <= i < a :: bs'[i] == bs[i])
            && (forall i | 0 <= i < |mid| :: bs'[a + i] == mid[i])
            && (forall i | b <= i < |bs| :: bs'[a + |mid| + (i - b)] == bs[i])
  {}

  lemma ReplaceStartBefore(bs: seq<Block>, a: nat, mid: seq<Block>, b: nat, i: nat)
    requires i <= a <= b <= |bs|
    ensures |Replace(bs, a, mid, b)| >= a && Start(Replace(bs, a, mid, b), i) == Start(bs, i)
  {
    StartSame(bs, Replace(bs, a, mid, b), i);
  }

  lemma ReplaceStartAfter(bs: seq<Block>, a: nat, mid: seq<Block>, b: nat, i: nat)
    requires a <= b <= i <= |bs| && Start(Replace(bs, a, mid, b), a + |mid|) == Start(bs, b)
    ensures |Replace(bs, a, mid, b)| == a + |mid| + (|bs| - b)
    ensures Start(Replace(bs, a, mid, b), a + |mid| + (i - b)) == Start(bs, i)
  {
    StartShift(bs, Replace(bs, a, mid, b), b, a + |mid|, i - b);
  }

  /** Outside the words from `lo` to `hi`, `m'` holds what `m` holds. */
  ghost predicate SameOutside(m: seq<int>, m': seq<int>, lo: int, hi: int) {
    |m'| == |m| && forall w | 0 <= w < |m| && !(lo <= w <= hi) :: m'[w] == m[w]
  }

  /** Rewriting the words of the blocks a..b, and the p-bit of the block after them. */
  lemma EncodeReplace(m: seq<int>, m': seq<int>, bs: seq<Block>, a: nat, mid: seq<Block>, b: nat)
    requires Sizes(bs) && Encodes(m, bs) && a < b <= |bs| && Start(bs, b) < |m|
    requires SameOutside(m, m', Start(bs, a), Start(bs, b))
    requires var bs' := Replace(bs, a, mid, b);
             && Start(bs', a + |mid|) == Start(bs, b)
             && (forall i | a <= i < a + |mid| :: EncodesBlock(m', bs', i))
             && m'[Start(bs, b)] == if b < |bs| then Header(bs[b].size, PrevLive(bs', a + |mid|), bs[b].live) else 1
    ensures Encodes(m', Replace(bs, a, mid, b))
  {
    hide EncodesBlock, Header, Replace, PrevLive, Start;
    var bs' := Replace(bs, a, mid, b);
    ReplaceStartAfter(bs, a, mid, b, |bs|);
    StartMono(bs, b, |bs|);
    forall i | 0 <= i < |bs'| ensures EncodesBlock(m', bs', i) {
      if i < a {
        EncodeBefore(m, m', bs, a, mid, b, i);
      } else if i >= a + |mid| {
        EncodeAfter(m, m', bs, a, mid, b, i - a - |mid| + b);
      }
    }
  }

  /** A block keeps its header and footer when it keeps its place, its size, its predecessor's
      status and its words. */
  lemma EncodesKept(m: seq<int>, m': seq<int>, bs: seq<Block>, i: nat, bs': seq<Block>, i': nat)
    requires i < |bs| && i' < |bs'| && EncodesBlock(m, bs, i) && |m'| == |m| && bs[i] == bs'[i']
    requires Start(bs, i) == Start(bs', i') && Start(bs, i + 1) == Start(bs', i' + 1)
    requires m'[Start(bs, i)] == Header(bs[i].size, PrevLive(bs', i'), bs[i].live)
    requires m'[Start(bs, i + 1) - 1] == m[Start(bs, i + 1) - 1]
    ensures EncodesBlock(m', bs', i')
  {
    hide Start, Header, PrevLive;
  }

  lemma EncodeBefore(m: seq<int>, m': seq<int>, bs: seq<Block>, a: nat, mid: seq<Block>, b: nat, i: nat)
    requires Sizes(bs) && Encodes(m, bs) && i < a < b <= |bs|
    requires SameOutside(m, m', Start(bs, a), Start(bs, b))
    ensures i < |Replace(bs, a, mid, b)| && EncodesBlock(m', Replace(bs, a, mid, b), i)
  {
    hide Replace, Header, Start, Sizes;
    ReplaceItems(bs, a, mid, b);
    ReplaceStartBefore(bs, a, mid, b, i);
    ReplaceStartBefore(bs, a, mid, b, i + 1);
    StartMono(bs, i + 1, a);
    assert EncodesBlock(m, bs, i);
    EncodesKept(m, m', bs, i, Replace(bs, a, mid, b), i);
  }

  lemma EncodeAfter(m: seq<int>, m': seq<int>, bs: seq<Block>, a: nat, mid: seq<Block>, b: nat, j: nat)
    requires Sizes(bs) && Encodes(m, bs) && a < b <= j < |bs|
    requires Start(Replace(bs, a, mid, b), a + |mid|) == Start(bs, b) < |m|
    requires SameOutside(m, m', Start(bs, a), Start(bs, b))
    requires m'[Start(bs, b)] == Header(bs[b].size, PrevLive(Replace(bs, a, mid, b), a + |mid|), bs[b].live)
    ensures var i := a + |mid| + (j - b); i < |Replace(bs, a, mid, b)| && EncodesBlock(m', Replace(bs, a, mid, b), i)
  {
    hide Replace, Header, Start, Sizes;
    ReplaceItems(bs, a, mid, b);
    ReplaceStartAfter(bs, a, mid, b, j);
    ReplaceStartAfter(bs, a, mid, b, j + 1);
    StartMono(bs, b, j);
    assert EncodesBlock(m, bs, j);
    ghost var bs', i := Replace(bs, a, mid, b), a + |mid| + (j - b);
    if j > b { assert bs'[a + |mid| + (j - 1 - b)] == bs[j - 1]; }
    EncodesKept(m, m', bs, j, bs', i);
  }

  // ----- reading the words back

  /** The header of block `i` tells its size, its status and its predecessor's. */
  lemma HeaderAt(m: seq<int>, bs: seq<Block>, i: nat)
    requires WellFormed(bs) && Encodes(m, bs) && i < |bs|
    ensures 1 <= Start(bs, i) < Start(bs, i) + bs[i].size / 4 == Start(bs, i + 1) < |m|
    ensures var w := m[Start(bs, i)];
            && w == Header(bs[i].size, PrevLive(bs, i), bs[i].live) && w != 1
            && GetSize(w) == bs[i].size && IsAllocated(w) == bs[i].live && PrevAllocated(w) == PrevLive(bs, i)
            && SetPrev(w) == Header(bs[i].size, true, bs[i].live) && ClearPrev(w) == Header(bs[i].size, false, bs[i].live)
  {
    StartMono(bs, 0, i);
    assert EncodesBlock(m, bs, i);
    HeaderBits(bs[i].size, PrevLive(bs, i), bs[i].live);
  }

  /** The word after a block: the next header, or the end mark. */
  lemma WordAfter(m: seq<int>, bs: seq<Block>, b: nat)
    requires WellFormed(bs) && Encodes(m, bs) && 0 < b <= |bs|
    ensures 1 <= Start(bs, b) < |m|
    ensures m[Start(bs, b)] == 1 <==> b == |bs|
    ensures b < |bs| ==>
              && SetPrev(m[Start(bs, b)]) == Header(bs[b].size, true, bs[b].live)
              && ClearPrev(m[Start(bs, b)]) == Header(bs[b].size, false, bs[b].live)
  {
    hide Sizes, Start, EncodesBlock, Header;
    HeaderAt(m, bs, b - 1);
    if b < |bs| { HeaderAt(m, bs, b); }
  }

  lemma BestFitStep(bs: seq<Block>, i: nat, need: int, k: nat)
    requires i < |bs|
    ensures NoFit(bs, i, need) && Fits(bs[i], need) ==> IsBestFit(bs, i + 1, need, i)
    ensures NoFit(bs, i, need) && !Fits(bs[i], need) ==> NoFit(bs, i + 1, need)
    ensures IsBestFit(bs, i, need, k) && Fits(bs[i], need) && bs[i].size < bs[k].size ==> IsBestFit(bs, i + 1, need, i)
    ensures IsBestFit(bs, i, need, k) && !(Fits(bs[i], need) && bs[i].size < bs[k].size) ==> IsBestFit(bs, i + 1, need, k)
  {}

  lemma SearchStart(m: seq<int>, bs: seq<Block>, need: int)
    requires WellFormed(bs) && Encodes(m, bs)
    ensures Start(bs, 0) == 1 < |m| && NoFit(bs, 0, need)
    ensures m[1] == 1 <==> 0 == |bs|
  {
    if |bs| > 0 { HeaderAt(m, bs, 0); }
  }

  // ----- payloads

  /** The payload words of every live block of `bs` except block `skip` are the same in `m'` as in `m`. */
  ghost predicate PayloadsKept(m: seq<int>, m': seq<int>, bs: seq<Block>, skip: int) {
    && |m'| == |m|
    && forall i, w | 0 <= i < |bs| && i != skip && bs[i].live && Start(bs, i) < w < Start(bs, i + 1) && w < |m| ::
         m'[w] == m[w]
  }

  lemma SamePayloads(m: seq<int>, bs: seq<Block>)
    ensures PayloadsKept(m, m, bs, -1)
  {}

  /** Only block `k` of a..b was live, if any: the other payloads lie outside the words rewritten. */
  lemma OutsidePayloads(m: seq<int>, m': seq<int>, bs: seq<Block>, a: nat, b: nat, skip: int)
    requires Sizes(bs) && a < b <= |bs| && SameOutside(m, m', Start(bs, a), Start(bs, b))
    requires forall i | a <= i < b && i != skip :: !bs[i].live
    ensures PayloadsKept(m, m', bs, skip)
  {
    hide Start;
    forall i, w | 0 <= i < |bs| && i != skip && bs[i].live && Start(bs, i) < w < Start(bs, i + 1) && w < |m|
      ensures m'[w] == m[w]
    {
      if i < a { StartMono(bs, i + 1, a); } else { StartMono(bs, b, i); }
    }
  }

  // ----- writing the words of a placement

  lemma PlaceShape(bs: seq<Block>, k: nat, need: nat)
    requires WellFormed(bs) && k < |bs| && Fits(bs[k], need) && need >= 8 && need % 8 == 0
    ensures var rest := bs[k].size - need;
            var mid := if rest >= 8 then [Block(need, true), Block(rest, false)] else [Block(need, true)];
            var bs' := Place(bs, k, need);
            && bs' == Replace(bs, k, mid, k + 1) && |bs'| == |bs| + |mid| - 1
            && bs'[k] == mid[0] && (rest >= 8 ==> bs'[k + 1] == mid[1])
            && Start(bs', k) == Start(bs, k) && PrevLive(bs', k) == PrevLive(bs, k)
            && Start(bs', k + 1) == Start(bs, k) + need / 4
            && (rest >= 8 ==> Start(bs', k + 2) == Start(bs', k + 1) + rest / 4)
            && Start(bs', k + |mid|) == Start(bs, k + 1)
            && PrevLive(bs', k + |mid|) == !(rest >= 8)
  {
    PlaceKeeps(bs, k, need);
    StartSame(bs, Place(bs, k, need), k);
    Quarter(need, bs[k].size - need);
    PlaceItems(bs, k, need);
    hide Place, WellFormed, Replace;
    var bs' := Place(bs, k, need);
    assert Start(bs', k + 1) == Start(bs', k) + need / 4;
  }

  lemma PlaceItems(bs: seq<Block>, k: nat, need: nat)
    requires k < |bs| && need <= bs[k].size && !bs[k].live && (bs[k].size - need >= 8 || bs[k].size == need)
    ensures var rest := bs[k].size - need;
            var mid := if rest >= 8 then [Block(need, true), Block(rest, false)] else [Block(need, true)];
            var bs' := Place(bs, k, need);
            && bs' == Replace(bs, k, mid, k + 1) && |bs'| == |bs| + |mid| - 1
            && bs'[k] == mid[0] && (rest >= 8 ==> bs'[k + 1] == mid[1])
            && (k > 0 ==> bs'[k - 1] == bs[k - 1])
  {}

  /** The words alloc writes when it splits block `k`. */
  lemma PlaceSplit(m: seq<int>, m': seq<int>, bs: seq<Block>, k: nat, need: nat)
    requires WellFormed(bs) && Encodes(m, bs) && k < |bs| && Fits(bs[k], need) && need >= 8 && need % 8 == 0
    requires bs[k].size - need >= 8
    requires var s, rest, e := Start(bs, k), bs[k].size - need, Start(bs, k + 1);
             && 0 <= s && e < |m| && SameOutside(m, m', s, e)
             && s < s + need / 4 < e - 1
             && m'[s] == need + (if PrevLive(bs, k) then 2 else 0) + 1 && m'[s + need / 4] == rest + 2 && m'[e - 1] == rest
             && m'[e] == if m[e] != 1 then ClearPrev(m[e]) else m[e]
    ensures Encodes(m', Place(bs, k, need)) && PayloadsKept(m, m', bs, -1)
  {
    OutsidePayloads(m, m', bs, k, k + 1, -1);
    hide Sizes, Start, Place, Replace, Encodes, PayloadsKept, ClearPrev;
    PlaceShape(bs, k, need);
    WordAfter(m, bs, k + 1);
    var mid := [Block(need, true), Block(bs[k].size - need, false)];
    var bs' := Place(bs, k, need);
    assert EncodesBlock(m', bs', k);
    assert EncodesBlock(m', bs', k + 1);
    EncodeReplace(m, m', bs, k, mid, k + 1);
  }

  /** The words alloc writes when it takes block `k` whole. */
  lemma PlaceWhole(m: seq<int>, m': seq<int>, bs: seq<Block>, k: nat, need: nat)
    requires WellFormed(bs) && Encodes(m, bs) && k < |bs| && Fits(bs[k], need) && bs[k].size == need >= 8 && need % 8 == 0
    requires var s, e := Start(bs, k), Start(bs, k + 1);
             && 0 <= s && s + 2 <= e < |m| && SameOutside(m, m', s, e)
             && m'[s] == m[s] + 1
             && m'[e] == if m[e] != 1 then SetPrev(m[e]) else m[e]
    ensures Encodes(m', Place(bs, k, need)) && PayloadsKept(m, m', bs, -1)
  {
    OutsidePayloads(m, m', bs, k, k + 1, -1);
    hide Sizes, Start, Place, Replace, Encodes, PayloadsKept, SetPrev;
    PlaceShape(bs, k, need);
    WordAfter(m, bs, k + 1);
    HeaderAt(m, bs, k);
    assert EncodesBlock(m', Place(bs, k, need), k);
    EncodeReplace(m, m', bs, k, [Block(need, true)], k + 1);
  }

  /** What alloc reads in the block it has chosen. */
  lemma BestBlock(m: seq<int>, bs: seq<Block>, need: int, k: nat)
    requires WellFormed(bs) && Encodes(m, bs) && IsBestFit(bs, |bs|, need, k) && need >= 8 && need % 8 == 0
    ensures k < |bs| && Fits(bs[k], need) && !NoFit(bs, |bs|, need) && WellFormed(Place(bs, k, need))
    ensures var s, e, rest := Start(bs, k), Start(bs, k + 1), bs[k].size - need;
            && 1 <= s && s + 2 <= e < |m| && e == s + bs[k].size / 4 && s % 2 == 1 && s == Start(Place(bs, k, need), k)
            && (rest < 8 ==> rest == 0)
            && (rest >= 8 ==> s < s + need / 4 < e - 1 && s + need / 4 + rest / 4 == e)
    ensures PrevAllocated(m[Start(bs, k)]) == PrevLive(bs, k)
  {
    hide Start, Header, Sizes, Place, Replace, Encodes;
    SizesAt(bs, k);
    Quarter(need, bs[k].size - need);
    PlaceKeeps(bs, k, need);
    PlaceShape(bs, k, need);
    HeaderAt(m, bs, k);
    StartMono(bs, k, k + 1);
  }

  lemma RoundUp(size: int)
    requires size >= 1
    ensures var n := size + 4; Need(size) == if n % 8 != 0 then n + (8 - n % 8) else n
    ensures Need(size) >= 8 && Need(size) % 8 == 0
  {}

  lemma Aligned(w: int)
    ensures w % 2 == 1 ==> (4 * w + 4) % 8 == 0
  {}

  lemma SizesAt(bs: seq<Block>, k: nat)
    requires WellFormed(bs) && k < |bs|
    ensures bs[k].size >= 8 && bs[k].size % 8 == 0
  {}

  lemma Quarter(a: int, b: int)
    requires a % 8 == 0 && a >= 8 && (a + b) % 8 == 0 && b >= 0
    ensures b % 8 == 0 && (a + b) / 4 == a / 4 + b / 4 && a / 4 >= 2
    ensures b >= 8 ==> b / 4 >= 2
    ensures b < 8 ==> b == 0
  {}

  // ----- writing the words of a free

  /** The blocks from FreeLow up to FreeHigh become one when block `k` is freed. */
  function FreeLow(bs: seq<Block>, k: nat): (r: nat)
    requires k < |bs|
  {
    if k > 0 && !bs[k - 1].live then k - 1 else k
  }

  function FreeHigh(bs: seq<Block>, k: nat): (r: nat)
    requires k < |bs|
  {
    if k + 1 < |bs| && !bs[k + 1].live then k + 2 else k + 1
  }

  function FreeTotal(bs: seq<Block>, k: nat): (r: nat)
    requires k < |bs|
  {
    bs[k].size + (if FreeLow(bs, k) < k then bs[k - 1].size else 0) + if FreeHigh(bs, k) == k + 2 then bs[k + 1].size else 0
  }

  lemma DisposeShape(bs: seq<Block>, k: nat)
    requires k < |bs|
    ensures Dispose(bs, k) == Replace(bs, FreeLow(bs, k), [Block(FreeTotal(bs, k), false)], FreeHigh(bs, k))
  {
    var bs1 := bs[k := bs[k].(live := false)];
    var bs2 := MergeRight(bs1, k);
    assert bs2[..k] == bs[..k];
    assert bs2 == bs[..k] + [Block(bs[k].size + if FreeHigh(bs, k) == k + 2 then bs[k + 1].size else 0, false)] + bs[FreeHigh(bs, k)..];
    if FreeLow(bs, k) < k {
      assert bs2[..k - 1] == bs[..k - 1];
      assert bs2[k + 1..] == bs[FreeHigh(bs, k)..];
    }
  }

  /** The merged block fills the words from FreeLow to FreeHigh. */
  lemma FreeSpan(bs: seq<Block>, k: nat)
    requires WellFormed(bs) && k < |bs|
    ensures FreeTotal(bs, k) % 8 == 0
    ensures Start(bs, FreeLow(bs, k)) + FreeTotal(bs, k) / 4 == Start(bs, FreeHigh(bs, k))
  {
    hide WellFormed, Start;
    SizesAt(bs, k);
    StartNext(bs, k);
    var low, mid, high := 0, bs[k].size, 0;
    if k > 0 { StartNext(bs, k - 1); }
    if FreeLow(bs, k) < k { SizesAt(bs, k - 1); low := bs[k - 1].size; }
    if FreeHigh(bs, k) == k + 2 { SizesAt(bs, k + 1); StartNext(bs, k + 1); high := bs[k + 1].size; }
    Quarters(low, mid, high);
  }

  lemma Quarters(a: int, b: int, c: int)
    requires a % 8 == 0 && b % 8 == 0 && c % 8 == 0
    ensures (a + b + c) % 8 == 0 && (a + b + c) / 4 == a / 4 + b / 4 + c / 4
  {
    Eighths(a);
    Eighths(b);
    Eighths(c);
    var n := a / 8 + b / 8 + c / 8;
    assert a + b + c == 8 * n;
  }

  lemma Eighths(a: int)
    requires a % 8 == 0
    ensures a == 8 * (a / 8) && a / 4 == 2 * (a / 8)
  {}

  lemma StartNext(bs: seq<Block>, k: nat)
    requires k < |bs|
    ensures Start(bs, k + 1) == Start(bs, k) + bs[k].size / 4
  {}

  lemma MergeEncode(m: seq<int>, m': seq<int>, bs: seq<Block>, a: nat, block: Block, b: nat)
    requires WellFormed(bs) && Encodes(m, bs) && a < b <= |bs| && Start(bs, a) + block.size / 4 == Start(bs, b) && !block.live
    requires 0 <= Start(bs, a) && Start(bs, a) + 2 <= Start(bs, b) < |m| && |m'| == |m|
    requires SameOutside(m, m', Start(bs, a), Start(bs, b))
    requires m'[Start(bs, a)] == block.size + (if PrevLive(bs, a) then 2 else 0) && m'[Start(bs, b) - 1] == block.size
    requires m'[Start(bs, b)] == if m[Start(bs, b)] != 1 then ClearPrev(m[Start(bs, b)]) else m[Start(bs, b)]
    ensures Encodes(m', Replace(bs, a, [block], b))
  {
    WordAfter(m, bs, b);
    MergedStart(bs, a, block, b);
    MergedBlock(m', bs, a, block, b);
    WellFormedSizes(bs);
    hide Sizes, Start, Encodes, ClearPrev, Replace, WellFormed, Header, EncodesBlock, SameOutside, PrevLive;
    EncodeReplace(m, m', bs, a, [block], b);
  }

  lemma WellFormedSizes(bs: seq<Block>)
    ensures WellFormed(bs) ==> Sizes(bs)
  {}

  lemma MergedBlock(m': seq<int>, bs: seq<Block>, a: nat, block: Block, b: nat)
    requires a < b <= |bs| && Start(bs, a) + block.size / 4 == Start(bs, b) && !block.live
    requires 0 <= Start(bs, a) && Start(bs, a) + 2 <= Start(bs, b) < |m'|
    requires m'[Start(bs, a)] == block.size + (if PrevLive(bs, a) then 2 else 0) && m'[Start(bs, b) - 1] == block.size
    ensures |Replace(bs, a, [block], b)| == |bs| - (b - a) + 1
    ensures EncodesBlock(m', Replace(bs, a, [block], b), a) && !PrevLive(Replace(bs, a, [block], b), a + 1)
  {
    MergedStart(bs, a, block, b);
    ReplaceItems(bs, a, [block], b);
    assert Replace(bs, a, [block], b)[a + 0] == block;
    hide Start, Replace;
  }

  lemma LowHigh(bs: seq<Block>, k: nat)
    requires k < |bs|
    ensures FreeLow(bs, k) <= k < FreeHigh(bs, k) <= |bs|
    ensures forall i | FreeLow(bs, k) <= i < FreeHigh(bs, k) && i != k :: !bs[i].live
  {}

  lemma MergedStart(bs: seq<Block>, a: nat, block: Block, b: nat)
    requires a < b <= |bs| && Start(bs, a) + block.size / 4 == Start(bs, b)
    ensures var bs' := Replace(bs, a, [block], b);
            Start(bs', a) == Start(bs, a) && Start(bs', a + 1) == Start(bs, b) && PrevLive(bs', a) == PrevLive(bs, a)
  {
    ReplaceItems(bs, a, [block], b);
    ReplaceStartBefore(bs, a, [block], b, a);
    var bs' := Replace(bs, a, [block], b);
    assert bs'[a + 0] == block;
    hide Replace;
  }

  /** What free_block reads in the header of the live block `k`, in the footer before it and in the
      header after it. */
  lemma LiveBlock(m: seq<int>, bs: seq<Block>, k: nat)
    requires WellFormed(bs) && Encodes(m, bs) && k < |bs| && (bs[k].live || (0 <= Start(bs, k) < |m| && IsAllocated(m[Start(bs, k)])))
    ensures bs[k].live
    ensures var s, e := Start(bs, k), Start(bs, k + 1); 1 <= s && s + 2 <= e == s + bs[k].size / 4 < |m|
    ensures GetSize(m[Start(bs, k)]) == bs[k].size && PrevAllocated(m[Start(bs, k)]) == PrevLive(bs, k)
  {
    hide Start, Header;
    HeaderAt(m, bs, k);
    StartMono(bs, k, k + 1);
  }

  lemma BlockBefore(m: seq<int>, bs: seq<Block>, k: nat)
    requires WellFormed(bs) && Encodes(m, bs) && k < |bs| && bs[k].live
    ensures PrevLive(bs, k) ==> FreeLow(bs, k) == k
    ensures !PrevLive(bs, k) ==>
              && FreeLow(bs, k) == k - 1 && FreeTotal(bs, k) >= bs[k].size
              && 2 < Start(bs, k) <= |m| && GetSize(m[Start(bs, k) - 1]) == bs[k - 1].size
              && Start(bs, k - 1) + bs[k - 1].size / 4 == Start(bs, k)
              && 1 <= Start(bs, k - 1) < Start(bs, k) - 1
              && PrevAllocated(m[Start(bs, k - 1)]) == PrevLive(bs, k - 1)
  {
    if !PrevLive(bs, k) {
      hide Start, Header;
      HeaderAt(m, bs, k - 1);
      StartMono(bs, k - 1, k);
      SizesAt(bs, k - 1);
      assert EncodesBlock(m, bs, k - 1);
    }
  }

  lemma BlockAfter(m: seq<int>, bs: seq<Block>, k: nat)
    requires WellFormed(bs) && Encodes(m, bs) && k < |bs| && bs[k].live
    ensures 0 <= Start(bs, k + 1) < |m|
    ensures var w := m[Start(bs, k + 1)];
            && FreeHigh(bs, k) == (if w != 1 && !IsAllocated(w) then k + 2 else k + 1)
            && (FreeHigh(bs, k) == k + 2 ==> GetSize(w) == bs[k + 1].size)
    ensures Start(bs, k + 1) <= Start(bs, FreeHigh(bs, k)) < |m|
  {
    hide Start, Header, EncodesBlock, GetSize, IsAllocated, PrevAllocated, SetPrev, ClearPrev, PrevLive, Sizes;
    WordAfter(m, bs, k + 1);
    HeaderAt(m, bs, k);
    if k + 1 < |bs| { HeaderAt(m, bs, k + 1); }
  }

  lemma FreeSizes(bs: seq<Block>, k: nat)
    requires WellFormed(bs) && k < |bs|
    ensures FreeLow(bs, k) <= k < FreeHigh(bs, k) <= |bs|
    ensures FreeTotal(bs, k) == bs[k].size + (if FreeLow(bs, k) < k then bs[k - 1].size else 0) + if FreeHigh(bs, k) == k + 2 then bs[k + 1].size else 0
    ensures Start(bs, FreeLow(bs, k)) + FreeTotal(bs, k) / 4 == Start(bs, FreeHigh(bs, k))
    ensures PrevAllocated(bs[k].size) == false && PrevAllocated(bs[k].size + 2)
  {
    FreeSpan(bs, k);
    SizesAt(bs, k);
    PrevBit(bs[k].size, 0);
    PrevBit(bs[k].size, 2);
    hide Start, WellFormed, PrevAllocated;
  }

  /** The words free_block writes, all between the merged block's header and the word after it. */
  lemma DisposeWords(m: seq<int>, m': seq<int>, bs: seq<Block>, k: nat)
    requires WellFormed(bs) && Encodes(m, bs) && k < |bs| && bs[k].live
    requires var s, e := Start(bs, FreeLow(bs, k)), Start(bs, FreeHigh(bs, k));
             && 0 <= s && s + 2 <= e < |m| && |m'| == |m| && SameOutside(m, m', s, e)
             && m'[s] == FreeTotal(bs, k) + (if PrevLive(bs, FreeLow(bs, k)) then 2 else 0) && m'[e - 1] == FreeTotal(bs, k)
             && m'[e] == if m[e] != 1 then ClearPrev(m[e]) else m[e]
    ensures Encodes(m', Dispose(bs, k)) && WellFormed(Dispose(bs, k)) && PayloadsKept(m, m', bs, k)
  {
    hide Sizes, Start, Encodes, PayloadsKept, ClearPrev, WellFormed, Dispose, SameOutside, PrevLive, Replace;
    DisposeKeeps(bs, k);
    DisposeShape(bs, k);
    FreeSizes(bs, k);
    LowHigh(bs, k);
    WellFormedSizes(bs);
    hide FreeLow, FreeHigh, FreeTotal;
    MergeEncode(m, m', bs, FreeLow(bs, k), Block(FreeTotal(bs, k), false), FreeHigh(bs, k));
    OutsidePayloads(m, m', bs, FreeLow(bs, k), FreeHigh(bs, k), k);
  }

  lemma PrevBit(size: int, bit: int)
    requires size % 8 == 0 && (bit == 0 || bit == 2)
    ensures PrevAllocated(size + bit) == (bit == 2)
  {}

  // ----- the heap

  class Heap {
    const mem: array<int>
    ghost var blocks: seq<Block>

    ghost predicate Valid()
      reads this, mem
    {
      WellFormed(blocks) && Encodes(mem[..], blocks)
    }

    /** The layout init_heap sets up in a region of allocSize bytes: one free block. */
    constructor (allocSize: nat)
      requires allocSize >= 8 && allocSize % 8 == 0
      ensures Valid() && fresh(mem) && blocks == [Block(allocSize, false)]
    {
      var n := allocSize / 4;
      mem := new int[n + 2](_ => 0);
      blocks := [Block(allocSize, false)];
      new;
      mem[n + 1] := 1;
      mem[1] := allocSize + 2;
      mem[n] := allocSize;
      assert Start(blocks, 0) == 1 && Start(blocks, 1) == n + 1;
      assert EncodesBlock(mem[..], blocks, 0);
    }

    /** The search of alloc: the word of the best-fitting block and its size, or 0 if there is none. */
    method FindBest(need: int) returns (best: nat, bestSize: int, ghost k: nat)
      requires Valid() && need >= 8
      ensures best == 0 ==> NoFit(blocks, |blocks|, need)
      ensures best != 0 ==> IsBestFit(blocks, |blocks|, need, k) && best == Start(blocks, k) && bestSize == blocks[k].size
    {
      hide Sizes, Start, EncodesBlock, Header, GetSize, IsAllocated, NoFit, IsBestFit;
      best, bestSize, k := 0, 0, 0;
      var cur := 1;
      ghost var i: nat := 0;
      SearchStart(mem[..], blocks, need);
      while mem[cur] != 1
        invariant i <= |blocks| && cur == Start(blocks, i) && 0 <= cur < mem.Length
        invariant mem[cur] == 1 <==> i == |blocks|
        invariant best == 0 ==> NoFit(blocks, i, need)
        invariant best != 0 ==> k < i && IsBestFit(blocks, i, need, k) && best == Start(blocks, k) && bestSize == blocks[k].size
        decreases |blocks| - i
      {
        HeaderAt(mem[..], blocks, i);
        BestFitStep(blocks, i, need, k);
        WordAfter(mem[..], blocks, i + 1);
        var size := GetSize(mem[cur]);
        var live := IsAllocated(mem[cur]);
        if !live && size >= need {
          if best == 0 || size < bestSize {
            best, bestSize, k := cur, size, i;
          }
        }
        cur := cur + size / 4;
        i := i + 1;
      }
    }

    /** alloc after its search: marks block `k` as allocated and splits off what is left, if it is enough
        for a block. */
    method Occupy(best: nat, bestSize: int, need: nat, ghost k: nat)
      requires Valid() && IsBestFit(blocks, |blocks|, need, k) && need >= 8 && need % 8 == 0
      requires best == Start(blocks, k) && bestSize == blocks[k].size
      modifies this`blocks, mem
      ensures Valid() && blocks == Place(old(blocks), k, need) && best == Start(blocks, k) && best % 2 == 1
      ensures PayloadsKept(old(mem[..]), mem[..], old(blocks), -1)
    {
      hide Sizes, Start, Encodes, EncodesBlock, Header, GetSize, IsAllocated, PrevAllocated, NoFit, IsBestFit, Place, PayloadsKept, SetPrev, ClearPrev, WellFormed, PrevLive, Fits, Replace;
      ghost var bs, m := blocks, mem[..];
      BestBlock(m, bs, need, k);
      var rest := bestSize - need;
      if rest >= 8 {
        var pBit := if PrevAllocated(mem[best]) then 2 else 0;
        mem[best] := need + pBit + 1;
        var split := best + need / 4;
        mem[split] := rest + 2;
        mem[split + rest / 4 - 1] := rest;
        var next := split + rest / 4;
        if mem[next] != 1 { mem[next] := ClearPrev(mem[next]); }
        PlaceSplit(m, mem[..], bs, k, need);
      } else {
        mem[best] := mem[best] + 1;
        var next := best + bestSize / 4;
        if mem[next] != 1 { mem[next] := SetPrev(mem[next]); }
        PlaceWhole(m, mem[..], bs, k, need);
      }
      blocks := Place(bs, k, need);
    }

    /** alloc: NULL exactly when the size is not positive or no free block is large enough; otherwise
        the payload of the first best-fitting block, which is split if at least 8 bytes remain. */
    method Alloc(size: int) returns (ptr: Ptr, ghost k: nat)
      requires Valid() && size + 11 <= 0x7fff_ffff
      modifies this, mem
      ensures Valid()
      ensures ptr.Null? <==> size < 1 || NoFit(old(blocks), |old(blocks)|, Need(size))
      ensures ptr.Null? ==> blocks == old(blocks) && mem[..] == old(mem[..])
      ensures ptr.At? ==>
                && IsBestFit(old(blocks), |old(blocks)|, Need(size), k)
                && blocks == Place(old(blocks), k, Need(size))
                && ptr == At(4 * Start(blocks, k) + 4) && ptr.offset % 8 == 0
      ensures PayloadsKept(old(mem[..]), mem[..], old(blocks), -1)
    {
      hide Sizes, Start, Encodes, EncodesBlock, Header, GetSize, IsAllocated, NoFit, IsBestFit, Place, PayloadsKept, WellFormed, Need, Fits;
      k := 0;
      ghost var bs := blocks;
      SamePayloads(mem[..], bs);
      if size < 1 { return Null, 0; }
      var need := size + 4;
      if need % 8 != 0 { need := need + (8 - need % 8); }
      RoundUp(size);
      var best, bestSize;
      best, bestSize, k := FindBest(need);
      if best == 0 { return Null, 0; }
      BestBlock(mem[..], bs, need, k);
      Occupy(best, bestSize, need, k);
      ptr := At(4 * best + 4);
      Aligned(best);
    }

    /** The checks of free_block on the pointer and on the header in front of it. */
    predicate Rejects(ptr: Ptr)
      reads mem
    {
      || ptr.Null? || ptr.offset % 8 != 0 || ptr.offset - 4 < 4 || ptr.offset - 4 >= 4 + 4 * (mem.Length - 2)
      || !IsAllocated(mem[ptr.offset / 4 - 1])
    }

    /** A pointer to the payload of a live block passes the checks. */
    lemma AllocatedPasses(ptr: Ptr, k: nat)
      requires Valid() && k < |blocks| && blocks[k].live && ptr == At(4 * Start(blocks, k) + 4)
      ensures !Rejects(ptr)
    {
      hide Start, Encodes, EncodesBlock, Header, IsAllocated, GetSize, PrevAllocated, SetPrev, ClearPrev;
      HeaderAt(mem[..], blocks, k);
      StartMono(blocks, k, k);
      Aligned(Start(blocks, k));
    }

    /** What does not pass: NULL, a pointer that is not a multiple of 8, one outside the heap, and the
        payload of a free block. */
    lemma OthersFail(ptr: Ptr)
      requires Valid()
      requires || ptr.Null? || ptr.offset % 8 != 0 || ptr.offset < 8 || ptr.offset >= 4 * Start(blocks, |blocks|) + 4
               || exists i: nat :: i < |blocks| && !blocks[i].live && ptr.offset == 4 * Start(blocks, i) + 4
      ensures Rejects(ptr)
    {
      hide Start, EncodesBlock, Header, IsAllocated, GetSize, PrevAllocated, SetPrev, ClearPrev;
      if i: nat :| ptr.At? && i < |blocks| && !blocks[i].live && ptr.offset == 4 * Start(blocks, i) + 4 {
        HeaderAt(mem[..], blocks, i);
      }
    }

    /** free_block once block `k` is free and has merged with its neighbours: writes header and footer of
        the free block that results. */
    method WriteMerged(merged: nat, mergedSize: nat, pBit: int, ghost m: seq<int>, ghost bs: seq<Block>, ghost k: nat)
      requires WellFormed(bs) && Encodes(m, bs) && k < |bs| && bs[k].live && |m| == mem.Length
      requires merged == Start(bs, FreeLow(bs, k)) && mergedSize == FreeTotal(bs, k)
      requires merged + 2 <= merged + mergedSize / 4 == Start(bs, FreeHigh(bs, k)) < mem.Length
      requires SameOutside(m, mem[..], merged, merged + mergedSize / 4) && mem[merged + mergedSize / 4] == m[merged + mergedSize / 4]
      requires pBit == if PrevLive(bs, FreeLow(bs, k)) then 2 else 0
      modifies mem
      ensures WellFormed(Dispose(bs, k)) && Encodes(mem[..], Dispose(bs, k)) && PayloadsKept(m, mem[..], bs, k)
    {
      hide Sizes, Start, Encodes, EncodesBlock, PayloadsKept, ClearPrev, WellFormed, Dispose, FreeLow, FreeHigh, FreeTotal, PrevLive;
      mem[merged] := mergedSize + pBit;
      mem[merged + mergedSize / 4 - 1] := mergedSize;
      var after := merged + mergedSize / 4;
      if mem[after] != 1 { mem[after] := ClearPrev(mem[after]); }
      DisposeWords(m, mem[..], bs, k);
    }

    /** free_block after its checks: frees block `k` and merges it with its free neighbours. */
    method Release(block: int, ghost k: nat)
      requires Valid() && k < |blocks| && blocks[k].live && block == Start(blocks, k)
      modifies this, mem
      ensures Valid() && blocks == Dispose(old(blocks), k)
      ensures PayloadsKept(old(mem[..]), mem[..], old(blocks), k)
    {
      hide Sizes, Start, Encodes, EncodesBlock, Header, GetSize, IsAllocated, PrevAllocated, PayloadsKept, ClearPrev, WellFormed, Dispose, FreeLow, FreeHigh, FreeTotal, PrevLive, Replace;
      ghost var bs, m := blocks, mem[..];
      LiveBlock(m, bs, k);
      BlockBefore(m, bs, k);
      BlockAfter(m, bs, k);
      FreeSizes(bs, k);
      var blockSize := GetSize(mem[block]);
      var pBit := if PrevAllocated(mem[block]) then 2 else 0;
      mem[block] := blockSize + pBit;
      mem[block + blockSize / 4 - 1] := blockSize;
      var merged, mergedSize := block, blockSize;
      if pBit == 0 {
        var prevSize := GetSize(mem[block - 1]);
        merged := block - prevSize / 4;
        mergedSize := mergedSize + prevSize;
      }
      var next := block + blockSize / 4;
      if mem[next] != 1 && !IsAllocated(mem[next]) {
        mergedSize := mergedSize + GetSize(mem[next]);
      }
      var mergedBit := if PrevAllocated(mem[merged]) then 2 else 0;
      WriteMerged(merged, mergedSize, mergedBit, m, bs, k);
      blocks := Dispose(bs, k);
    }

    /** free_block: 0 exactly for a pointer to the payload of a live block, which is freed and merged with
        its free neighbours; -1 and no change for any other. A pointer that passes the checks must be one
        that alloc returned. */
    method FreeBlock(ptr: Ptr) returns (r: int, ghost k: nat)
      requires Valid()
      requires !Rejects(ptr) ==> exists i: nat :: i < |blocks| && ptr.offset == 4 * Start(blocks, i) + 4
      modifies this, mem
      ensures Valid()
      ensures r == if old(Rejects(ptr)) then -1 else 0
      ensures r == 0 <==> IsLivePayload(old(blocks), ptr)
      ensures r == -1 ==> blocks == old(blocks) && mem[..] == old(mem[..])
      ensures r == 0 ==>
                && k < |old(blocks)| && old(blocks)[k].live && ptr.offset == 4 * Start(old(blocks), k) + 4
                && blocks == Dispose(old(blocks), k)
                && PayloadsKept(old(mem[..]), mem[..], old(blocks), k)
    {
      hide Sizes, Start, Encodes, EncodesBlock, GetSize, IsAllocated, PrevAllocated, PayloadsKept, WellFormed, Dispose;
      k := 0;
      if IsLivePayload(blocks, ptr) {
        ghost var i: nat :| i < |blocks| && blocks[i].live && ptr == At(4 * Start(blocks, i) + 4);
        AllocatedPasses(ptr, i);
      }
      if ptr.Null? { return -1, 0; }
      if ptr.offset % 8 != 0 { return -1, 0; }
      var block := ptr.offset / 4 - 1;
      if ptr.offset - 4 < 4 { return -1, 0; }
      if ptr.offset - 4 >= 4 + 4 * (mem.Length - 2) { return -1, 0; }
      if !IsAllocated(mem[block]) { return -1, 0; }
      k :| k < |blocks| && ptr.offset == 4 * Start(blocks, k) + 4;
      LiveBlock(mem[..], blocks, k);
      Release(block, k);
      r := 0;
    }

    /** Freeing at once what alloc has returned gives 0 and the old layout. */
    method AllocThenFree(size: int) returns (ptr: Ptr, r: int)
      requires Valid() && size + 11 <= 0x7fff_ffff
      modifies this, mem
      ensures Valid() && blocks == old(blocks)
      ensures ptr.Null? <==> size < 1 || NoFit(old(blocks), |old(blocks)|, Need(size))
      ensures r == if ptr.Null? then -1 else 0
    {
      hide Start, Encodes, NoFit, IsBestFit, Place, Dispose, WellFormed, Need, PayloadsKept;
      ghost var bs, k, k' := blocks, 0, 0;
      ptr, k := Alloc(size);
      ghost var placed := blocks;
      if ptr.At? { PlacedLive(bs, size, k); }
      r, k' := FreeBlock(ptr);
      if ptr.At? { Restored(bs, size, k, placed, k', blocks); }
    }
  }

  ghost predicate IsLivePayload(bs: seq<Block>, ptr: Ptr) {
    exists i: nat :: i < |bs| && bs[i].live && ptr == At(4 * Start(bs, i) + 4)
  }

  /** The block that alloc has chosen is live afterwards. */
  lemma PlacedLive(bs: seq<Block>, size: int, k: nat)
    requires size >= 1 && IsBestFit(bs, |bs|, Need(size), k)
    ensures var bs' := Place(bs, k, Need(size)); k < |bs'| && bs'[k].live
  {}

  /** Freeing it again restores the layout: no two blocks start in the same word. */
  lemma Restored(bs: seq<Block>, size: int, k: nat, placed: seq<Block>, k': nat, bs': seq<Block>)
    requires WellFormed(bs) && WellFormed(placed) && size >= 1 && IsBestFit(bs, |bs|, Need(size), k)
    requires placed == Place(bs, k, Need(size)) && k < |placed| && k' < |placed| && Start(placed, k) == Start(placed, k')
    requires placed[k'].live && bs' == Dispose(placed, k')
    ensures bs' == bs
  {
    if k < k' { StartMono(placed, k, k'); }
    if k' < k { StartMono(placed, k', k); }
    NeedFacts(size);
    PlaceDispose(bs, k, Need(size));
  }
}
