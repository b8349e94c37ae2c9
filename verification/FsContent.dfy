/** fs.c: file contents behind direct and indirect blocks, and what single writes do to them. */
module FsContent {
  import opened FsBlocks

  datatype Inode = Inode(size: nat, addrs: seq<nat>)

  const MAXSIZE: nat := 71680

  ghost predicate Formed(disk: seq<Block>, inodes: seq<Inode>) {
    && (forall b | 0 <= b < |disk| :: IsBlock(disk[b]))
    && (forall i | 0 <= i < |inodes| :: |inodes[i].addrs| == NDIRECT + 1)
  }

  /** The block that the inode holds in slot `s`. */
  function Ref(disk: seq<Block>, ip: Inode, s: nat): (r: nat)
    requires (forall b | 0 <= b < |disk| :: IsBlock(disk[b])) && |ip.addrs| == NDIRECT + 1 && s < NSLOTS
  {
    if s <= NDIRECT then ip.addrs[s]
    else if ip.addrs[NDIRECT] == 0 || ip.addrs[NDIRECT] >= |disk| then 0
    else Word(disk[ip.addrs[NDIRECT]], s - NDIRECT - 1)
  }

  ghost predicate Concrete(disk: seq<Block>, inodes: seq<Inode>, refs: Refs) {
    && Formed(disk, inodes) && Shaped(refs) && |refs| == |inodes|
    && forall i, s | 0 <= i < |refs| && 0 <= s < NSLOTS :: refs[i][s] == Ref(disk, inodes[i], s)
  }

  /** The slot of the `bn`-th block of a file. */
  function Slot(bn: nat): (r: nat) { if bn < NDIRECT then bn else bn + 1 }

  /** Byte `k` of file `i`; blocks that are not allocated read as zeros. */
  function At(disk: seq<Block>, refs: Refs, i: nat, k: nat): (r: Byte)
    requires Shaped(refs) && i < |refs| && k < MAXSIZE && forall b | 0 <= b < |disk| :: IsBlock(disk[b])
  {
    SlotRange(k);
    var b := refs[i][Slot(k / BSIZE)];
    if b == 0 || b >= |disk| then 0
    else
      assert IsBlock(disk[b]);
      disk[b][k % BSIZE]
  }

  /** No byte of any file differs. */
  ghost predicate SameBytes(disk: seq<Block>, refs: Refs, disk': seq<Block>, refs': Refs)
    requires Shaped(refs) && Shaped(refs') && |refs| == |refs'|
    requires (forall b | 0 <= b < |disk| :: IsBlock(disk[b])) && (forall b | 0 <= b < |disk'| :: IsBlock(disk'[b]))
  {
    forall i: nat, k: nat | i < |refs| && k < MAXSIZE :: At(disk', refs', i, k) == At(disk, refs, i, k)
  }

  lemma RefAt(disk: seq<Block>, inodes: seq<Inode>, refs: Refs, i: nat, s: nat)
    requires Concrete(disk, inodes, refs) && i < |refs| && s < NSLOTS
    ensures refs[i][s] == Ref(disk, inodes[i], s)
  {}

  /** Without an indirect block nothing is listed. */
  lemma NoIndirect(disk: seq<Block>, inodes: seq<Inode>, refs: Refs, i: nat, s: nat)
    requires Concrete(disk, inodes, refs) && i < |refs| && NDIRECT < s < NSLOTS && refs[i][NDIRECT] == 0
    ensures refs[i][s] == 0
  {
    RefAt(disk, inodes, refs, i, s);
    RefAt(disk, inodes, refs, i, NDIRECT);
  }

  /** A block that no slot names can be rewritten without any reference changing. */
  lemma RefKept(disk: seq<Block>, disk': seq<Block>, inodes: seq<Inode>, refs: Refs, b: nat, j: nat, t: nat)
    requires Concrete(disk, inodes, refs) && b < |disk| == |disk'| && j < |refs| && t < NSLOTS && refs[j][NDIRECT] != b
    requires IsBlock(disk'[b]) && disk' == disk[b := disk'[b]] && Formed(disk', inodes)
    ensures Ref(disk', inodes[j], t) == refs[j][t]
  {
    RefAt(disk, inodes, refs, j, t);
    RefAt(disk, inodes, refs, j, NDIRECT);
  }

  lemma FormedAfter(disk: seq<Block>, inodes: seq<Inode>, b: nat, block: Block)
    requires Formed(disk, inodes) && b < |disk| && IsBlock(block)
    ensures Formed(disk[b := block], inodes)
  {}

  // ----- a fresh block in a direct slot or as the indirect block

  lemma TakeDirect(disk: seq<Block>, inodes: seq<Inode>, refs: Refs, i: nat, s: nat, b: nat)
    requires Concrete(disk, inodes, refs) && i < |refs| && s <= NDIRECT && refs[i][s] == 0 && 0 < b < |disk|
    requires forall j, t | 0 <= j < |refs| && 0 <= t < NSLOTS :: refs[j][t] != b
    ensures var inodes' := inodes[i := inodes[i].(addrs := inodes[i].addrs[s := b])];
            Concrete(disk[b := Zeros()], inodes', SetRef(refs, i, s, b))
  {
    var disk', inodes' := disk[b := Zeros()], inodes[i := inodes[i].(addrs := inodes[i].addrs[s := b])];
    var refs' := SetRef(refs, i, s, b);
    FormedAfter(disk, inodes, b, Zeros());
    forall j, t | 0 <= j < |refs'| && 0 <= t < NSLOTS ensures refs'[j][t] == Ref(disk', inodes'[j], t) {
      RefAt(disk, inodes, refs, j, t);
      if j != i {
        RefKept(disk, disk', inodes, refs, b, j, t);
      } else if s == NDIRECT && t > NDIRECT {
        NoIndirect(disk, inodes, refs, i, t);
        WordZero(t - NDIRECT - 1);
      } else if t > NDIRECT {
        RefKept(disk, disk', inodes, refs, b, i, t);
      }
    }
  }

  /** A fresh block in a slot that was empty: nobody's bytes change. */
  lemma TakeBytes(disk: seq<Block>, disk': seq<Block>, refs: Refs, i: nat, s: nat, b: nat)
    requires Shaped(refs) && i < |refs| && s < NSLOTS && refs[i][s] == 0 && 0 < b < |disk| == |disk'|
    requires (forall c | 0 <= c < |disk| :: IsBlock(disk[c])) && (forall c | 0 <= c < |disk'| :: IsBlock(disk'[c]))
    requires forall j, t | 0 <= j < |refs| && 0 <= t < NSLOTS :: refs[j][t] != b
    requires disk'[b] == Zeros()
    requires forall j, t | 0 <= j < |refs| && 0 <= t < NSLOTS && t != NDIRECT && 0 < refs[j][t] < |disk| :: disk'[refs[j][t]] == disk[refs[j][t]]
    ensures SameBytes(disk, refs, disk', SetRef(refs, i, s, b))
  {
    hide SetRef;
    forall j: nat, k: nat | j < |refs| && k < MAXSIZE
      ensures At(disk', SetRef(refs, i, s, b), j, k) == At(disk, refs, j, k)
    {
      SlotRange(k);
    }
  }

  lemma SlotRange(k: nat)
    requires k < MAXSIZE
    ensures k / BSIZE < MAXFILE && Slot(k / BSIZE) < NSLOTS && Slot(k / BSIZE) != NDIRECT && k % BSIZE < BSIZE
  {}

  // ----- a fresh block in the indirect block

  lemma TakeIndirect(disk: seq<Block>, inodes: seq<Inode>, refs: Refs, i: nat, s: nat, b: nat)
    requires Concrete(disk, inodes, refs) && i < |refs| && NDIRECT < s < NSLOTS && refs[i][s] == 0 && 0 < b < |disk|
    requires forall j, t | 0 <= j < |refs| && 0 <= t < NSLOTS :: refs[j][t] != b
    requires 0 < refs[i][NDIRECT] < |disk| && |disk| < 0x1_0000_0000
    requires forall j | 0 <= j < |refs| && j != i :: refs[j][NDIRECT] != refs[i][NDIRECT]
    ensures var ib := refs[i][NDIRECT];
            Concrete(disk[b := Zeros()][ib := PutWord(disk[ib], s - NDIRECT - 1, b)], inodes, SetRef(refs, i, s, b))
  {
    var ib := refs[i][NDIRECT];
    var disk1 := disk[b := Zeros()];
    var disk2, refs' := disk1[ib := PutWord(disk[ib], s - NDIRECT - 1, b)], SetRef(refs, i, s, b);
    FormedAfter(disk, inodes, b, Zeros());
    FormedAfter(disk1, inodes, ib, PutWord(disk[ib], s - NDIRECT - 1, b));
    RefAt(disk, inodes, refs, i, NDIRECT);
    forall j, t | 0 <= j < |refs'| && 0 <= t < NSLOTS ensures refs'[j][t] == Ref(disk2, inodes[j], t) {
      RefAt(disk, inodes, refs, j, t);
      RefAt(disk, inodes, refs, j, NDIRECT);
      if j == i && t > NDIRECT { WordPut(disk[ib], s - NDIRECT - 1, b, t - NDIRECT - 1); }
    }
  }

  // ----- data in a block that a file owns

  lemma WriteKeeps(disk: seq<Block>, inodes: seq<Inode>, refs: Refs, b: nat, block: Block)
    requires Concrete(disk, inodes, refs) && b < |disk| && IsBlock(block)
    requires forall j | 0 <= j < |refs| :: refs[j][NDIRECT] != b
    ensures Concrete(disk[b := block], inodes, refs)
  {
    FormedAfter(disk, inodes, b, block);
    forall j, t | 0 <= j < |refs| && 0 <= t < NSLOTS ensures refs[j][t] == Ref(disk[b := block], inodes[j], t) {
      RefKept(disk, disk[b := block], inodes, refs, b, j, t);
    }
  }

  /** Writing a data block changes the bytes of that block of that file only. */
  lemma WriteBytes(disk: seq<Block>, refs: Refs, i: nat, bn: nat, block: Block, j: nat, k: nat)
    requires Shaped(refs) && i < |refs| && bn < MAXFILE && IsBlock(block) && forall c | 0 <= c < |disk| :: IsBlock(disk[c])
    requires 0 < refs[i][Slot(bn)] < |disk| && j < |refs| && k < MAXSIZE
    requires forall t | 0 <= t < NSLOTS :: refs[j][t] == refs[i][Slot(bn)] ==> j == i && t == Slot(bn)
    ensures At(disk[refs[i][Slot(bn)] := block], refs, j, k) == if j == i && k / BSIZE == bn then block[k % BSIZE] else At(disk, refs, j, k)
  {
    SlotRange(k);
    assert refs[j][Slot(k / BSIZE)] == refs[i][Slot(bn)] ==> j == i && Slot(k / BSIZE) == Slot(bn);
  }

  // ----- files without holes, and the blocks that a write will need

  predicate Used(ip: Inode, bn: nat) { bn * BSIZE < ip.size }

  /** Every block below the end of a file is there. */
  ghost predicate NoHoles(inodes: seq<Inode>, refs: Refs)
    requires Shaped(refs) && |refs| == |inodes|
  {
    forall i, bn: nat | 0 <= i < |inodes| && bn < MAXFILE && Used(inodes[i], bn) :: refs[i][Slot(bn)] != 0
  }

  /** Slots that were in use still hold the same block. */
  ghost predicate Grown(refs0: Refs, refs: Refs)
    requires Shaped(refs0) && Shaped(refs) && |refs0| == |refs|
  {
    forall i, s | 0 <= i < |refs| && 0 <= s < NSLOTS && refs0[i][s] != 0 :: refs[i][s] == refs0[i][s]
  }

  /** How many blocks bmap must allocate for the `bn`-th block of a file. */
  function Cost(row: seq<nat>, bn: nat): (r: nat)
    requires |row| == NSLOTS && bn < MAXFILE
  {
    (if row[Slot(bn)] == 0 then 1 else 0) + if bn >= NDIRECT && row[NDIRECT] == 0 then 1 else 0
  }

  function Holes(row: seq<nat>, lo: nat, hi: nat): (r: nat)
    requires |row| == NSLOTS && hi <= MAXFILE
    decreases hi - lo
  {
    if lo >= hi then 0 else (if row[Slot(lo)] == 0 then 1 else 0) + Holes(row, lo + 1, hi)
  }

  /** How many blocks are missing for the blocks of a file from `lo` below `hi`, with the indirect block. */
  function Missing(row: seq<nat>, lo: nat, hi: nat): (r: nat)
    requires |row| == NSLOTS && hi <= MAXFILE
  {
    Holes(row, lo, hi) + if lo < hi && hi > NDIRECT && row[NDIRECT] == 0 then 1 else 0
  }

  /** What bmap makes of the slots of a file. */
  ghost predicate Mapped(row: seq<nat>, row': seq<nat>, bn: nat)
    requires |row| == |row'| == NSLOTS && bn < MAXFILE
  {
    && (forall s | 0 <= s < NSLOTS && s != Slot(bn) && s != NDIRECT :: row'[s] == row[s])
    && row'[Slot(bn)] != 0 && (row[Slot(bn)] != 0 ==> row'[Slot(bn)] == row[Slot(bn)])
    && (if bn >= NDIRECT then row'[NDIRECT] != 0 else row'[NDIRECT] == row[NDIRECT])
    && (row[NDIRECT] != 0 ==> row'[NDIRECT] == row[NDIRECT])
  }

  lemma {:induction false} SameHoles(row: seq<nat>, row': seq<nat>, bn: nat, lo: nat, hi: nat)
    requires |row| == |row'| == NSLOTS && bn < MAXFILE && bn < lo && hi <= MAXFILE && Mapped(row, row', bn)
    ensures Holes(row', lo, hi) == Holes(row, lo, hi)
    decreases hi - lo
  {
    if lo < hi {
      assert Slot(lo) != Slot(bn) && Slot(lo) != NDIRECT;
      SameHoles(row, row', bn, lo + 1, hi);
    }
  }

  /** bmap of the next block uses up its share of what is missing. */
  lemma MissingNext(row: seq<nat>, row': seq<nat>, bn: nat, hi: nat)
    requires |row| == |row'| == NSLOTS && bn < hi <= MAXFILE && Mapped(row, row', bn)
    ensures Missing(row, bn, hi) == Cost(row, bn) + Missing(row', bn + 1, hi)
    ensures Missing(row', bn, hi) == Missing(row', bn + 1, hi)
  {
    SameHoles(row, row', bn, bn + 1, hi);
  }

  function Put(row: seq<nat>, s: nat, b: nat): (r: seq<nat>)
    requires s < |row|
    ensures |r| == |row|
  {
    row[s := b]
  }

  lemma PutSame(row: seq<nat>, s: nat)
    requires s < |row|
    ensures Put(row, s, row[s]) == row
  {}

  /** The blocks of a file when slot `s` becomes `b`. */
  lemma SetRow(refs: Refs, i: nat, s: nat, b: nat)
    requires Shaped(refs) && i < |refs| && s < NSLOTS && refs[i][s] == 0
    ensures SetRef(refs, i, s, b)[i] == Put(refs[i], s, b) && Grown(refs, SetRef(refs, i, s, b))
  {}

  lemma MappedDirect(row: seq<nat>, bn: nat, b: nat)
    requires |row| == NSLOTS && bn < NDIRECT && b != 0 && (row[bn] == 0 || row[bn] == b)
    ensures Mapped(row, Put(row, bn, b), bn) && Cost(row, bn) == if row[bn] == 0 then 1 else 0
  {}

  lemma MappedListed(row: seq<nat>, row1: seq<nat>, n: nat, ib: nat, b: nat)
    requires |row| == NSLOTS && n < NINDIRECT && b != 0 && ib != 0 && row1 == Put(row, NDIRECT, ib)
    requires row[NDIRECT] == 0 || row[NDIRECT] == ib
    requires row[NDIRECT + 1 + n] == 0 || row[NDIRECT + 1 + n] == b
    ensures Mapped(row, Put(row1, NDIRECT + 1 + n, b), NDIRECT + n)
  {}

  lemma ListedCost(row: seq<nat>, n: nat)
    requires |row| == NSLOTS && n < NINDIRECT
    ensures Slot(NDIRECT + n) == NDIRECT + 1 + n
    ensures Cost(row, NDIRECT + n) == (if row[NDIRECT + 1 + n] == 0 then 1 else 0) + if row[NDIRECT] == 0 then 1 else 0
  {}

  lemma GrownTrans(refs0: Refs, refs1: Refs, refs: Refs)
    requires Shaped(refs0) && Shaped(refs1) && Shaped(refs) && |refs0| == |refs1| == |refs|
    requires Grown(refs0, refs1) && Grown(refs1, refs)
    ensures Grown(refs0, refs)
  {}

  lemma GrownRefl(refs: Refs)
    requires Shaped(refs)
    ensures Grown(refs, refs)
  {}

  /** A new size needs the blocks that it adds. */
  lemma GrowSize(inodes: seq<Inode>, refs: Refs, i: nat, off: nat, size: nat)
    requires Shaped(refs) && |refs| == |inodes| && i < |inodes| && off <= inodes[i].size <= size && NoHoles(inodes, refs)
    requires forall bn: nat | off / BSIZE <= bn < MAXFILE && bn * BSIZE < size :: refs[i][Slot(bn)] != 0
    ensures NoHoles(inodes[i := inodes[i].(size := size)], refs)
  {
    var inodes' := inodes[i := inodes[i].(size := size)];
    forall j, bn: nat | 0 <= j < |inodes| && bn < MAXFILE && Used(inodes'[j], bn) ensures refs[j][Slot(bn)] != 0 {
      if !Used(inodes[j], bn) { assert off <= bn * BSIZE && off / BSIZE <= bn; }
    }
  }

  lemma StillNoHoles(inodes0: seq<Inode>, inodes: seq<Inode>, refs0: Refs, refs: Refs)
    requires Shaped(refs0) && Shaped(refs) && |refs0| == |refs| == |inodes| == |inodes0|
    requires NoHoles(inodes0, refs0) && Grown(refs0, refs)
    requires forall j | 0 <= j < |inodes| :: inodes[j].size == inodes0[j].size
    ensures NoHoles(inodes, refs)
  {
    forall j, bn: nat | 0 <= j < |inodes| && bn < MAXFILE && Used(inodes[j], bn) ensures refs[j][Slot(bn)] != 0 {
      assert Used(inodes0[j], bn);
    }
  }
}
