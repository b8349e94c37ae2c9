/** fs.c: the free map, the words of an indirect block, and who owns which block. */
module FsBlocks {
  const BSIZE: nat := 512
  const NDIRECT: nat := 12
  const NINDIRECT: nat := 128
  const MAXFILE: nat := 140
  const BPB: nat := 4096
  const NSLOTS: nat := 141

  type Byte = x: int | 0 <= x < 256
  type Block = seq<Byte>

  predicate IsBlock(b: Block) { |b| == BSIZE }

  function Zeros(): (b: Block)
    ensures IsBlock(b) && forall i | 0 <= i < |b| :: b[i] == 0
  {
    seq(BSIZE, _ => 0)
  }

  // ----- the free map

  /** 1 << k */
  function Mask(k: nat): (r: bv8)
    requires k < 8
    ensures r == 1 << k
  {
    match k
    case 0 => 1 case 1 => 2 case 2 => 4 case 3 => 8 case 4 => 16 case 5 => 32 case 6 => 64 case _ => 128
  }

  predicate Bit(bitmap: seq<bv8>, b: nat)
    requires b / 8 < |bitmap|
  {
    bitmap[b / 8] & Mask(b % 8) != 0
  }

  function SetBit(bitmap: seq<bv8>, b: nat): (r: seq<bv8>)
    requires b / 8 < |bitmap|
  {
    bitmap[b / 8 := bitmap[b / 8] | Mask(b % 8)]
  }

  function ClearBit(bitmap: seq<bv8>, b: nat): (r: seq<bv8>)
    requires b / 8 < |bitmap|
  {
    bitmap[b / 8 := bitmap[b / 8] & !Mask(b % 8)]
  }

  lemma MaskApart(k: nat, l: nat)
    requires k < 8 && l < 8 && k != l
    ensures Mask(k) & Mask(l) == 0
  {}

  lemma MaskBits(x: bv8, m: bv8, t: bv8)
    requires m & t == 0
    ensures (x | m) & t == x & t && (x & !m) & t == x & t
  {}

  lemma MaskSelf(x: bv8, k: nat)
    requires k < 8
    ensures (x | Mask(k)) & Mask(k) != 0 && (x & !Mask(k)) & Mask(k) == 0
  {}

  lemma SameByte(b: nat, c: nat)
    ensures b / 8 == c / 8 && b % 8 == c % 8 ==> b == c
  {}

  /** Setting and clearing a bit leaves every other bit alone. */
  lemma BitUpdate(bitmap: seq<bv8>, b: nat, c: nat)
    requires b / 8 < |bitmap| && c / 8 < |bitmap|
    ensures Bit(SetBit(bitmap, b), c) == (c == b || Bit(bitmap, c))
    ensures Bit(ClearBit(bitmap, b), c) == (c != b && Bit(bitmap, c))
  {
    if b == c {
      MaskSelf(bitmap[b / 8], b % 8);
    } else if b / 8 == c / 8 {
      SameByte(b, c);
      MaskApart(b % 8, c % 8);
      MaskBits(bitmap[b / 8], Mask(b % 8), Mask(c % 8));
    }
  }

  /** The bits before `n` are set. */
  ghost predicate AllSet(bitmap: seq<bv8>, n: nat) {
    n <= 8 * |bitmap| && forall c: nat | c < n :: BitAt(bitmap, c)
  }

  predicate BitAt(bitmap: seq<bv8>, c: nat) { c / 8 < |bitmap| && Bit(bitmap, c) }

  lemma AllSetNext(bitmap: seq<bv8>, n: nat)
    requires AllSet(bitmap, n) && n < 8 * |bitmap|
    ensures InMap(n, bitmap) && (Bit(bitmap, n) ==> AllSet(bitmap, n + 1))
  {
    hide Bit;
  }

  /** How many of the first `n` blocks are free. */
  function ClearCount(bitmap: seq<bv8>, n: nat): (r: nat) {
    if n == 0 then 0 else ClearCount(bitmap, n - 1) + if BitAt(bitmap, n - 1) then 0 else 1
  }

  lemma {:induction false} ClearNone(bitmap: seq<bv8>, n: nat)
    requires n <= 8 * |bitmap|
    ensures AllSet(bitmap, n) <==> ClearCount(bitmap, n) == 0
  {
    if n > 0 { ClearNone(bitmap, n - 1); }
  }

  lemma {:induction false} ClearLess(bitmap: seq<bv8>, b: nat, n: nat)
    requires n <= 8 * |bitmap| && InMap(b, bitmap) && !Bit(bitmap, b)
    ensures ClearCount(SetBit(bitmap, b), n) == ClearCount(bitmap, n) - if b < n then 1 else 0
  {
    if n > 0 {
      ClearLess(bitmap, b, n - 1);
      InRange(n - 1, bitmap);
      BitUpdate(bitmap, b, n - 1);
      hide Bit, SetBit;
    }
  }

  // ----- the words of an indirect block, little-endian

  function Word(b: Block, i: nat): (r: nat)
    requires IsBlock(b) && i < NINDIRECT
  {
    b[4 * i] as int + 256 * b[4 * i + 1] as int + 65536 * b[4 * i + 2] as int + 16777216 * b[4 * i + 3] as int
  }

  function PutWord(b: Block, i: nat, v: nat): (r: Block)
    requires IsBlock(b) && i < NINDIRECT && v < 0x1_0000_0000
    ensures IsBlock(r)
  {
    b[4 * i := v % 256][4 * i + 1 := v / 256 % 256][4 * i + 2 := v / 65536 % 256][4 * i + 3 := v / 16777216]
  }

  lemma Bytes4(v: nat)
    requires v < 0x1_0000_0000
    ensures v == v % 256 + 256 * (v / 256 % 256) + 65536 * (v / 65536 % 256) + 16777216 * (v / 16777216)
    ensures v / 16777216 < 256
  {
    var a, b, c := v / 256, v / 65536, v / 16777216;
    assert v == 256 * a + v % 256;
    assert a == 256 * b + a % 256 by { Nested(v, 256); }
    assert b == 256 * c + b % 256 by { Nested(v, 65536); }
  }

  lemma Nested(v: nat, d: nat)
    requires d == 256 || d == 65536
    ensures v / d / 256 == v / (256 * d)
  {}

  lemma WordPut(b: Block, i: nat, v: nat, j: nat)
    requires IsBlock(b) && i < NINDIRECT && j < NINDIRECT && v < 0x1_0000_0000
    ensures Word(PutWord(b, i, v), j) == if i == j then v else Word(b, j)
  {
    Bytes4(v);
  }

  lemma WordZero(i: nat)
    requires i < NINDIRECT
    ensures Word(Zeros(), i) == 0
  {}

  // ----- owners

  /** refs[i][s]: the block that inode `i` holds in slot `s`, or 0. Slots 0 to 11 are the direct blocks,
      slot 12 the indirect block, and slots 13 to 140 the blocks it lists. */
  type Refs = seq<seq<nat>>

  ghost predicate Shaped(refs: Refs) {
    forall i | 0 <= i < |refs| :: |refs[i]| == NSLOTS
  }

  datatype Owner = Owner(i: nat, s: nat)

  /** Every block past the first `meta` is owned at most once, and its bit says whether it is owned;
      the bits of the first `meta` blocks are set. */
  ghost predicate Owned(refs: Refs, owner: map<nat, Owner>, bitmap: seq<bv8>, meta: nat, size: nat) {
    && Shaped(refs) && 0 < meta <= size && size <= 8 * |bitmap|
    && (forall i, s | 0 <= i < |refs| && 0 <= s < NSLOTS && refs[i][s] != 0 ::
          refs[i][s] in owner && owner[refs[i][s]] == Owner(i, s))
    && (forall b | b in owner :: meta <= b < size && owner[b].i < |refs| && owner[b].s < NSLOTS && refs[owner[b].i][owner[b].s] == b)
    && (forall b: nat {:trigger Bit(bitmap, b)} | b < size :: InMap(b, bitmap) && (Bit(bitmap, b) <==> b < meta || b in owner))
  }

  predicate InMap(b: nat, bitmap: seq<bv8>) { b / 8 < |bitmap| }

  function SetRef(refs: Refs, i: nat, s: nat, b: nat): (r: Refs)
    requires Shaped(refs) && i < |refs| && s < NSLOTS
    ensures Shaped(r) && |r| == |refs|
    ensures forall j, t | 0 <= j < |refs| && 0 <= t < NSLOTS :: r[j][t] == if j == i && t == s then b else refs[j][t]
  {
    var row: seq<nat> := refs[i][s := b];
    refs[i := row]
  }

  lemma InRange(b: nat, bitmap: seq<bv8>)
    requires b < 8 * |bitmap|
    ensures InMap(b, bitmap)
  {}

  /** A free block becomes owned. */
  lemma TakeKeeps(refs: Refs, owner: map<nat, Owner>, bitmap: seq<bv8>, meta: nat, size: nat, i: nat, s: nat, b: nat)
    requires Owned(refs, owner, bitmap, meta, size) && i < |refs| && s < NSLOTS && refs[i][s] == 0
    requires b < size && InMap(b, bitmap) && !Bit(bitmap, b)
    ensures b != 0 && Owned(SetRef(refs, i, s, b), owner[b := Owner(i, s)], SetBit(bitmap, b), meta, size)
  {
    var bitmap' := SetBit(bitmap, b);
    forall c: nat | c < size ensures InMap(c, bitmap') && (Bit(bitmap', c) <==> c < meta || c in owner[b := Owner(i, s)]) {
      InRange(c, bitmap);
      BitUpdate(bitmap, b, c);
    }
    hide SetBit, Bit;
  }

  /** An owned block becomes free. */
  lemma GiveKeeps(refs: Refs, owner: map<nat, Owner>, bitmap: seq<bv8>, meta: nat, size: nat, i: nat, s: nat)
    requires Owned(refs, owner, bitmap, meta, size) && i < |refs| && s < NSLOTS && refs[i][s] != 0
    ensures var b := refs[i][s];
            && meta <= b < size && InMap(b, bitmap) && Bit(bitmap, b)
            && Owned(SetRef(refs, i, s, 0), owner - {b}, ClearBit(bitmap, b), meta, size)
  {
    var b := refs[i][s];
    InRange(b, bitmap);
    var bitmap' := ClearBit(bitmap, b);
    forall c: nat | c < size ensures InMap(c, bitmap') && (Bit(bitmap', c) <==> c < meta || c in owner - {b}) {
      InRange(c, bitmap);
      BitUpdate(bitmap, b, c);
    }
    hide ClearBit, Bit;
  }

  /** No block is owned twice. */
  lemma OwnedOnce(refs: Refs, owner: map<nat, Owner>, bitmap: seq<bv8>, meta: nat, size: nat, i: nat, s: nat, j: nat, t: nat)
    requires Owned(refs, owner, bitmap, meta, size) && i < |refs| && j < |refs| && s < NSLOTS && t < NSLOTS
    requires refs[i][s] == refs[j][t] != 0
    ensures i == j && s == t
  {
    assert owner[refs[i][s]] == Owner(i, s) && owner[refs[j][t]] == Owner(j, t);
  }

  predicate Holds(refs: Refs, i: nat, s: nat, b: nat) { i < |refs| && s < |refs[i]| && refs[i][s] == b }

  /** The bitmap is exact: a bit is set if and only if the block is metadata or some inode holds it, and
      then only one inode does, in one slot. */
  lemma BitmapExactly(refs: Refs, owner: map<nat, Owner>, bitmap: seq<bv8>, meta: nat, size: nat, b: nat)
    requires Owned(refs, owner, bitmap, meta, size) && b < size
    ensures InMap(b, bitmap) && (Bit(bitmap, b) <==> b < meta || exists i, s :: Holds(refs, i, s, b))
    ensures forall i, s, j, t | b != 0 && Holds(refs, i, s, b) && Holds(refs, j, t, b) :: i == j && s == t
  {
    InRange(b, bitmap);
    hide Bit;
    if b in owner { assert Holds(refs, owner[b].i, owner[b].s, b); }
    forall i, s, j, t | b != 0 && Holds(refs, i, s, b) && Holds(refs, j, t, b) ensures i == j && s == t {
      OwnedOnce(refs, owner, bitmap, meta, size, i, s, j, t);
    }
  }

  /** The free map of a new file system: the bits of the metadata blocks. */
  function FreshBits(n: nat, meta: nat): (r: seq<bv8>)
    requires meta <= 8 * n
  {
    if meta == 0 then seq(n, _ => 0) else SetFresh(FreshBits(n, meta - 1), meta - 1)
  }

  function SetFresh(bitmap: seq<bv8>, b: nat): (r: seq<bv8>) {
    if b / 8 < |bitmap| then SetBit(bitmap, b) else bitmap
  }

  lemma {:induction false} FreshBitsAre(n: nat, meta: nat, b: nat)
    requires meta <= 8 * n && b < 8 * n
    ensures |FreshBits(n, meta)| == n && b / 8 < n && (Bit(FreshBits(n, meta), b) <==> b < meta)
  {
    if meta > 0 {
      FreshBitsAre(n, meta - 1, b);
      BitUpdate(FreshBits(n, meta - 1), meta - 1, b);
    }
  }

  lemma FreshOwned(refs: Refs, n: nat, meta: nat, size: nat)
    requires Shaped(refs) && (forall i, s | 0 <= i < |refs| && 0 <= s < NSLOTS :: refs[i][s] == 0) && 0 < meta <= size <= 8 * n
    ensures Owned(refs, map[], FreshBits(n, meta), meta, size)
  {
    FreshBitsAre(n, meta, 0);
    forall b: nat | b < size ensures InMap(b, FreshBits(n, meta)) && (Bit(FreshBits(n, meta), b) <==> b < meta) {
      FreshBitsAre(n, meta, b);
    }
    hide Bit, FreshBits;
  }
}
