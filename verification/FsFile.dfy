/** fs.c: balloc, bfree, bmap, readi, writei and itrunc on the block level, with files as flat arrays of
    bytes that never alias. */
module FsFile {
  import opened FsBlocks
  import opened FsContent

  const TWO32: nat := 0x1_0000_0000

  /** -1, the number of bytes, or a panic of the block allocator. */
  datatype Result = Failed | Bytes(n: nat) | Panic

  class FileSystem {
    var disk: seq<Block>
    var inodes: seq<Inode>
    var bitmap: seq<bv8>
    const meta: nat
    ghost var refs: Refs
    ghost var owner: map<nat, Owner>

    /** Also in the middle of itrunc, when blocks below the old size are gone. */
    ghost predicate Consistent()
      reads this
    {
      && |disk| < TWO32
      && Owned(refs, owner, bitmap, meta, |disk|)
      && Concrete(disk, inodes, refs)
      && forall i | 0 <= i < |inodes| :: inodes[i].size <= MAXSIZE
    }

    ghost predicate Valid()
      reads this
    {
      Consistent() && NoHoles(inodes, refs)
    }

    ghost function FreeBlocks(): (r: nat)
      reads this
    {
      ClearCount(bitmap, |disk|)
    }

    /** A new file system: `meta` blocks in use, `files` empty files. */
    constructor (meta: nat, size: nat, files: nat)
      requires 0 < meta <= size < TWO32
      ensures Valid() && |disk| == size && |inodes| == files
      ensures forall i, k | 0 <= i < files && 0 <= k < MAXSIZE :: Byte(i, k) == 0
    {
      this.meta := meta;
      disk := seq(size, _ => Zeros());
      inodes := seq(files, _ => Inode(0, seq(NDIRECT + 1, _ => 0)));
      bitmap := FreshBits(size / 8 + 1, meta);
      refs := seq(files, _ => seq(NSLOTS, _ => 0));
      owner := map[];
      new;
      FreshOwned(refs, size / 8 + 1, meta, size);
    }

    /** Byte `k` of file `i`. */
    ghost function Byte(i: nat, k: nat): (r: Byte)
      requires Valid() && i < |inodes| && k < MAXSIZE
      reads this
    {
      At(disk, refs, i, k)
    }

    /** Where a byte of a file lies on the disk: in one of the 12 blocks that the inode names, or in one of
        the 128 that the block in its 13th place lists. */
    lemma ByteOnDisk(i: nat, k: nat)
      requires Valid() && i < |inodes| && k < inodes[i].size
      ensures k < MAXSIZE && |inodes[i].addrs| == 13
      ensures k < 6144 ==>
                var b := inodes[i].addrs[k / 512];
                0 < b < |disk| && |disk[b]| == 512 && Byte(i, k) == disk[b][k % 512]
      ensures k >= 6144 ==>
                var ib := inodes[i].addrs[12];
                && 0 < ib < |disk| && |disk[ib]| == 512
                && var b := Word(disk[ib], k / 512 - 12);
                   0 < b < |disk| && |disk[b]| == 512 && Byte(i, k) == disk[b][k % 512]
    {
      hide Owned, Concrete, Shaped, Bit, NoHoles, Word;
      ConcreteShape(disk, inodes, refs);
      InodeShape(disk, inodes, i);
      ThereBelow(inodes, refs, i, k);
      DataBlock(refs, owner, bitmap, meta, |disk|, i, k / BSIZE);
      RefAt(disk, inodes, refs, i, Slot(k / BSIZE));
      BlockAt(disk, inodes, refs[i][Slot(k / BSIZE)]);
      if k >= 6144 { BlockAt(disk, inodes, inodes[i].addrs[NDIRECT]); }
    }

    /** balloc: the first block whose bit is clear, marked in use and zeroed, or 0 if there is none. */
    method Balloc() returns (b: nat)
      requires |disk| <= 8 * |bitmap| && BitAt(bitmap, 0)
      modifies this`disk, this`bitmap
      ensures b == 0 ==> disk == old(disk) && bitmap == old(bitmap) && AllSet(bitmap, |disk|)
      ensures b != 0 ==>
                && b < |old(disk)| && InMap(b, old(bitmap)) && !Bit(old(bitmap), b) && AllSet(old(bitmap), b)
                && disk == old(disk)[b := Zeros()] && bitmap == SetBit(old(bitmap), b)
      ensures b == 0 <==> old(FreeBlocks()) == 0
      ensures b != 0 ==> FreeBlocks() == old(FreeBlocks()) - 1
    {
      hide Bit, SetBit, Zeros;
      var base := 0;
      while base < |disk|
        invariant disk == old(disk) && bitmap == old(bitmap)
        invariant AllSet(bitmap, if base < |disk| then base else |disk|)
      {
        var bi := 0;
        while bi < BPB && base + bi < |disk|
          invariant bi <= BPB && base + bi <= |disk| && disk == old(disk) && bitmap == old(bitmap)
          invariant AllSet(bitmap, base + bi)
        {
          AllSetNext(bitmap, base + bi);
          if !Bit(bitmap, base + bi) {
            b := base + bi;
            ClearNone(bitmap, b + 1);
            ClearLess(bitmap, b, |disk|);
            bitmap := SetBit(bitmap, b);
            disk := disk[b := Zeros()];
            return;
          }
          bi := bi + 1;
        }
        base := base + BPB;
      }
      ClearNone(bitmap, |disk|);
      b := 0;
    }

    ghost predicate SameSizes(inodes0: seq<Inode>)
      reads this
    {
      |inodes| == |inodes0| && forall j | 0 <= j < |inodes| :: inodes[j].size == inodes0[j].size
    }

    /** Gives inode `i` a fresh block as direct block `s`, or as its indirect block. */
    method TakeDirectBlock(i: nat, s: nat) returns (b: nat)
      requires Consistent() && i < |inodes| && s <= NDIRECT && inodes[i].addrs[s] == 0
      modifies this`disk, this`inodes, this`bitmap, this`refs, this`owner
      ensures Consistent() && |disk| == |old(disk)| && SameSizes(old(inodes))
      ensures b == 0 <==> old(FreeBlocks()) == 0
      ensures b == 0 ==> refs == old(refs)
      ensures b != 0 ==> FreeBlocks() == old(FreeBlocks()) - 1
      ensures b != 0 ==> refs == SetRef(old(refs), i, s, b)
      ensures SameBytes(old(disk), old(refs), disk, refs)
    {
      hide Owned, Concrete, Bit, SetBit, SameBytes;
      ghost var disk0, inodes0, refs0, owner0, bitmap0 := disk, inodes, refs, owner, bitmap;
      ConcreteShape(disk, inodes, refs);
      RefAt(disk, inodes, refs, i, s);
      Counted(refs, owner, bitmap, meta, |disk|);
      SameBytesRefl(disk, refs);
      b := Balloc();
      if b == 0 { return; }
      FreeBlock(refs, owner, bitmap0, meta, |disk|, b);
      TakeKeeps(refs, owner, bitmap0, meta, |disk|, i, s, b);
      TakeDirect(disk0, inodes, refs, i, s, b);
      TakeBytes(disk0, disk, refs, i, s, b);
      inodes := inodes[i := inodes[i].(addrs := inodes[i].addrs[s := b])];
      refs := SetRef(refs, i, s, b);
      owner := owner[b := Owner(i, s)];
    }

    /** Lists a fresh block as entry `n` of the indirect block of inode `i`. */
    method TakeListedBlock(i: nat, n: nat) returns (b: nat)
      requires Consistent() && i < |inodes| && n < NINDIRECT && refs[i][NDIRECT] != 0 && refs[i][NDIRECT + 1 + n] == 0
      modifies this`disk, this`bitmap, this`refs, this`owner
      ensures Consistent() && |disk| == |old(disk)|
      ensures b == 0 <==> old(FreeBlocks()) == 0
      ensures b == 0 ==> refs == old(refs)
      ensures b != 0 ==> FreeBlocks() == old(FreeBlocks()) - 1
      ensures b != 0 ==> refs == SetRef(old(refs), i, NDIRECT + 1 + n, b)
      ensures SameBytes(old(disk), old(refs), disk, refs)
    {
      hide Owned, Concrete, Bit, SetBit, SameBytes, Word, PutWord;
      ghost var disk0, refs0, owner0, bitmap0, s := disk, refs, owner, bitmap, NDIRECT + 1 + n;
      ConcreteShape(disk, inodes, refs);
      RefAt(disk, inodes, refs, i, NDIRECT);
      Counted(refs, owner, bitmap, meta, |disk|);
      SameBytesRefl(disk, refs);
      IndirectBlock(refs, owner, bitmap, meta, |disk|, i);
      b := Balloc();
      if b == 0 { return; }
      FreeBlock(refs, owner, bitmap0, meta, |disk|, b);
      TakeKeeps(refs, owner, bitmap0, meta, |disk|, i, s, b);
      TakeIndirect(disk0, inodes, refs, i, s, b);
      var ib := inodes[i].addrs[NDIRECT];
      assert disk[ib] == disk0[ib];
      disk := disk[ib := PutWord(disk[ib], n, b)];
      ListedBytes(disk0, disk, refs, i, s, b);
      refs := SetRef(refs, i, s, b);
      owner := owner[b := Owner(i, s)];
    }

    /** The branch of bmap that goes through the indirect block. */
    method BmapListed(i: nat, n: nat) returns (b: nat)
      requires Consistent() && i < |inodes| && n < NINDIRECT
      modifies this`disk, this`inodes, this`bitmap, this`refs, this`owner
      ensures Consistent() && |disk| == |old(disk)| && SameSizes(old(inodes))
      ensures SameBytes(old(disk), old(refs), disk, refs) && Grown(old(refs), refs)
      ensures b == 0 <==> old(FreeBlocks()) < Cost(old(refs)[i], NDIRECT + n)
      ensures b != 0 ==> refs[i][NDIRECT + 1 + n] == b && Mapped(old(refs)[i], refs[i], NDIRECT + n)
      ensures b != 0 ==> FreeBlocks() == old(FreeBlocks()) - Cost(old(refs)[i], NDIRECT + n)
      ensures old(refs)[i][NDIRECT + 1 + n] != 0 ==>
                && disk == old(disk) && inodes == old(inodes) && bitmap == old(bitmap) && refs == old(refs) && owner == old(owner)
                && b == refs[i][NDIRECT + 1 + n]
    {
      hide Owned, Concrete, SameBytes, SetRef, Grown, Mapped, Cost, ClearCount;
      ghost var disk0, refs0 := disk, refs;
      ConcreteShape(disk, inodes, refs);
      Counted(refs, owner, bitmap, meta, |disk|);
      SameBytesRefl(disk, refs);
      GrownRefl(refs);
      RefAt(disk, inodes, refs, i, NDIRECT);
      ListedCost(refs[i], n);
      PutSame(refs[i], NDIRECT);
      if inodes[i].addrs[NDIRECT] == 0 {
        NoIndirect(disk, inodes, refs, i, NDIRECT + 1 + n);
        b := TakeDirectBlock(i, NDIRECT);
        if b == 0 { return; }
        SetRow(refs0, i, NDIRECT, b);
        SetRefAt(refs0, i, NDIRECT, b);
      }
      assert refs[i] == Put(refs0[i], NDIRECT, refs[i][NDIRECT]);
      ghost var disk1, refs1, ib := disk, refs, refs[i][NDIRECT];
      ConcreteShape(disk, inodes, refs);
      PutSame(refs1[i], NDIRECT + 1 + n);
      RefAt(disk, inodes, refs, i, NDIRECT);
      RefAt(disk, inodes, refs, i, NDIRECT + 1 + n);
      IndirectBlock(refs, owner, bitmap, meta, |disk|, i);
      b := Word(disk[inodes[i].addrs[NDIRECT]], n);
      if b == 0 {
        b := TakeListedBlock(i, n);
        ConcreteShape(disk, inodes, refs);
        SameBytesTrans(disk0, refs0, disk1, refs1, disk, refs);
        if b == 0 { return; }
        SetRow(refs1, i, NDIRECT + 1 + n, b);
        GrownTrans(refs0, refs1, refs);
      }
      assert refs[i] == Put(refs1[i], NDIRECT + 1 + n, b);
      MappedListed(refs0[i], refs1[i], n, ib, b);
    }

    /** bmap: the `bn`-th block of a file, allocated if need be; 0 for a panic, for want of a block that
        is missing. No byte of any file changes. */
    method Bmap(i: nat, bn: nat) returns (b: nat)
      requires Consistent() && i < |inodes|
      modifies this`disk, this`inodes, this`bitmap, this`refs, this`owner
      ensures Consistent() && |disk| == |old(disk)| && SameSizes(old(inodes))
      ensures SameBytes(old(disk), old(refs), disk, refs) && Grown(old(refs), refs)
      ensures bn >= MAXFILE ==> b == 0
      ensures bn < MAXFILE ==> (b == 0 <==> old(FreeBlocks()) < Cost(old(refs)[i], bn))
      ensures b != 0 ==> refs[i][Slot(bn)] == b && Mapped(old(refs)[i], refs[i], bn)
      ensures b != 0 ==> FreeBlocks() == old(FreeBlocks()) - Cost(old(refs)[i], bn)
      ensures bn < MAXFILE && old(refs)[i][Slot(bn)] != 0 ==>
                && disk == old(disk) && inodes == old(inodes) && bitmap == old(bitmap) && refs == old(refs) && owner == old(owner)
                && b == refs[i][Slot(bn)]
    {
      hide Owned, Concrete, SameBytes, SetRef, Grown, Mapped, Cost, ClearCount;
      ghost var refs0 := refs;
      ConcreteShape(disk, inodes, refs);
      Counted(refs, owner, bitmap, meta, |disk|);
      SameBytesRefl(disk, refs);
      GrownRefl(refs);
      if bn < NDIRECT {
        RefAt(disk, inodes, refs, i, bn);
        b := inodes[i].addrs[bn];
        if b == 0 {
          MappedDirect(refs0[i], bn, 1);
          b := TakeDirectBlock(i, bn);
          if b == 0 { return; }
          SetRow(refs0, i, bn, b);
        }
        MappedDirect(refs0[i], bn, b);
        assert refs[i] == Put(refs0[i], bn, b);
        return;
      }
      var n := bn - NDIRECT;
      if n < NINDIRECT {
        ListedCost(refs[i], n);
        b := BmapListed(i, n);
        return;
      }
      b := 0;
    }

    /** readi: the bytes from `off` on, at most `n` of them and not beyond the end of the file. It finds
        every block in place, so it allocates nothing and does not panic. */
    method Readi(i: nat, off: nat, n: nat) returns (r: Result, dst: seq<Byte>)
      requires Valid() && i < |inodes| && off < TWO32 && n < TWO32
      modifies this`disk, this`inodes, this`bitmap, this`refs, this`owner
      ensures Valid() && disk == old(disk) && inodes == old(inodes) && bitmap == old(bitmap)
      ensures refs == old(refs) && owner == old(owner)
      ensures off > inodes[i].size || off + n >= TWO32 ==> r == Failed
      ensures off <= inodes[i].size && off + n < TWO32 ==>
                && r == Bytes(if off + n > inodes[i].size then inodes[i].size - off else n) && |dst| == r.n
                && forall k | 0 <= k < |dst| :: dst[k] == Byte(i, off + k)
    {
      hide Owned, Concrete, SameBytes, Shaped, At, Grown, Mapped, Cost, ClearCount, NoHoles;
      ghost var disk0, refs0, inodes0, bitmap0, owner0 := disk, refs, inodes, bitmap, owner;
      ConcreteShape(disk, inodes, refs);
      dst := [];
      if off > inodes[i].size || off + n >= TWO32 { return Failed, []; }
      var want := if off + n > inodes[i].size then inodes[i].size - off else n;
      var tot, pos := 0, off;
      while tot < want
        invariant Valid()
        invariant disk == disk0 && refs == refs0 && inodes == inodes0 && bitmap == bitmap0 && owner == owner0
        invariant tot <= want && pos == off + tot && off + want <= inodes[i].size <= MAXSIZE && |dst| == tot
        invariant ReadSoFar(disk, refs, i, off, dst)
      {
        Chunk(pos);
        ThereBelow(inodes, refs, i, pos);
        var b := Bmap(i, pos / BSIZE);
        DataBlock(refs, owner, bitmap, meta, |disk|, i, pos / BSIZE);
        BlockAt(disk, inodes, b);
        var m := if want - tot < BSIZE - pos % BSIZE then want - tot else BSIZE - pos % BSIZE;
        ReadChunk(disk, refs, i, off, dst, m);
        dst := dst + disk[b][pos % BSIZE..pos % BSIZE + m];
        tot := tot + m;
        pos := pos + m;
      }
      r := Bytes(want);
    }

    /** writei: the bytes `src` at `off`, allocating blocks as needed. It panics exactly when there are
        fewer free blocks than are missing, and then a first part of the bytes has been written. */
    method Writei(i: nat, src: seq<Byte>, off: nat) returns (r: Result)
      requires Valid() && i < |inodes| && off < TWO32 && |src| < TWO32
      modifies this`disk, this`inodes, this`bitmap, this`refs, this`owner
      ensures Valid() && |inodes| == |old(inodes)|
      ensures r.Failed? <==> off > old(inodes)[i].size || off + |src| >= TWO32 || off + |src| > MAXSIZE
      ensures r.Failed? ==> disk == old(disk) && refs == old(refs) && inodes == old(inodes) && bitmap == old(bitmap)
      ensures !r.Failed? ==>
                (r.Panic? <==> old(FreeBlocks()) < Missing(old(refs)[i], off / BSIZE, EndBlock(off, |src|)))
      ensures r.Bytes? ==>
                && r.n == |src| && Wrote(old(disk), old(refs), disk, refs, i, off, src)
                && FreeBlocks() == old(FreeBlocks()) - Missing(old(refs)[i], off / BSIZE, EndBlock(off, |src|))
                && inodes[i].size == (if off + |src| > old(inodes)[i].size then off + |src| else old(inodes)[i].size)
                && forall j | 0 <= j < |inodes| && j != i :: inodes[j].size == old(inodes)[j].size
      ensures r.Panic? ==>
                && SameSizes(old(inodes))
                && exists t :: 0 <= t <= |src| && Wrote(old(disk), old(refs), disk, refs, i, off, src[..t])
    {
      hide Owned, Concrete, SameBytes, Shaped, At, Wrote, Grown, Mapped, Cost, Missing, ClearCount, NoHoles, Written;
      ghost var disk0, refs0, inodes0, free := disk, refs, inodes, FreeBlocks();
      if off > inodes[i].size || off + |src| >= TWO32 { return Failed; }
      if off + |src| > MAXSIZE { return Failed; }
      ConcreteShape(disk, inodes, refs);
      WroteNothing(disk, refs, i, off, src);
      GrownRefl(refs);
      ghost var hi := EndBlock(off, |src|);
      LastBlock(off, |src|);
      ShapedRow(refs, i);
      WrittenNothing(refs[i], off);
      ghost var all := Missing(refs[i], off / BSIZE, hi);
      var tot, pos := 0, off;
      while tot < |src|
        invariant Consistent() && SameSizes(inodes0) && tot <= |src| && pos == off + tot
        invariant Formed(disk, inodes) && Shaped(refs) && |refs| == |inodes| == |refs0|
        invariant Wrote(disk0, refs0, disk, refs, i, off, src[..tot]) && Grown(refs0, refs)
        invariant |refs[i]| == NSLOTS
        invariant free + Missing(refs[i], pos / BSIZE, hi) == FreeBlocks() + all
        invariant Written(refs[i], off, pos)
      {
        ghost var disk1, refs1 := disk, refs;
        Chunk(pos);
        ShapedRow(refs, i);
        BeforeEnd(pos, off, |src|);
        MissingFirst(refs[i], pos / BSIZE, hi);
        var b := Bmap(i, pos / BSIZE);
        ConcreteShape(disk, inodes, refs);
        WroteSame(disk0, refs0, disk1, refs1, disk, refs, i, off, src[..tot]);
        GrownTrans(refs0, refs1, refs);
        ShapedRow(refs, i);
        if b == 0 {
          StillNoHoles(inodes0, inodes, refs0, refs);
          return Panic;
        }
        MissingNext(refs1[i], refs[i], pos / BSIZE, hi);
        DataBlock(refs, owner, bitmap, meta, |disk|, i, pos / BSIZE);
        BlockAt(disk, inodes, b);
        var m := if |src| - tot < BSIZE - pos % BSIZE then |src| - tot else BSIZE - pos % BSIZE;
        var block := disk[b][..pos % BSIZE] + src[tot..tot + m] + disk[b][pos % BSIZE + m..];
        WriteKeeps(disk, inodes, refs, b, block);
        WroteMore(disk0, refs0, disk, refs, i, off, src, tot, m, block);
        WrittenMore(refs1[i], refs[i], off, pos, m);
        disk := disk[b := block];
        tot := tot + m;
        pos := pos + m;
      }
      assert src[..tot] == src;
      NothingMissing(refs[i], off, |src|);
      NewSize(inodes0, inodes, refs0, refs, i, off, |src|);
      if |src| > 0 && pos > inodes[i].size {
        SizeOnly(disk, inodes, refs, i, pos);
        inodes := inodes[i := inodes[i].(size := pos)];
      }
      r := Bytes(|src|);
    }

    /** Reading back what has been written. */
    method WriteThenRead(i: nat, src: seq<Byte>, off: nat) returns (w: Result, r: Result, dst: seq<Byte>)
      requires Valid() && i < |inodes| && off < TWO32 && |src| < TWO32
      modifies this`disk, this`inodes, this`bitmap, this`refs, this`owner
      ensures Valid() && (w.Bytes? ==> r == Bytes(|src|) && dst == src)
    {
      hide Owned, Concrete, Missing, ClearCount, NoHoles;
      r, dst := Failed, [];
      w := Writei(i, src, off);
      if w.Bytes? {
        ConcreteShape(disk, inodes, refs);
        ghost var disk1, refs1 := disk, refs;
        r, dst := Readi(i, off, |src|);
        assert r == Bytes(|src|) && |dst| == |src|;
        forall k | 0 <= k < |src| ensures dst[k] == src[k] {
          assert At(disk1, refs1, i, off + k) == src[k];
          assert dst[k] == Byte(i, off + k);
        }
      }
    }

    /** bfree: clears the block's bit; false for the panic on a block that is free already. */
    method Bfree(b: nat) returns (ok: bool)
      requires InMap(b, bitmap)
      modifies this`bitmap
      ensures ok == Bit(old(bitmap), b)
      ensures bitmap == if ok then ClearBit(old(bitmap), b) else old(bitmap)
    {
      if !Bit(bitmap, b) { return false; }
      bitmap := ClearBit(bitmap, b);
      return true;
    }

    /** Frees the block in direct slot `s`, if there is one. */
    method FreeDirect(i: nat, s: nat) returns (ok: bool)
      requires Consistent() && i < |inodes| && s < NDIRECT
      modifies this`inodes, this`bitmap, this`refs, this`owner
      ensures ok && Consistent() && SameSizes(old(inodes)) && inodes[i].size == old(inodes)[i].size
      ensures Shaped(old(refs)) && i < |old(refs)| && refs == SetRef(old(refs), i, s, 0)
    {
      hide Owned, Concrete, Bit, ClearBit, SetRef;
      ConcreteShape(disk, inodes, refs);
      RefAt(disk, inodes, refs, i, s);
      if inodes[i].addrs[s] == 0 {
        SetSame(refs, i, s);
        return true;
      }
      GiveKeeps(refs, owner, bitmap, meta, |disk|, i, s);
      ClearDirect(disk, inodes, refs, i, s);
      owner := owner - {refs[i][s]};
      ok := Bfree(inodes[i].addrs[s]);
      inodes := inodes[i := inodes[i].(addrs := inodes[i].addrs[s := 0])];
      refs := SetRef(refs, i, s, 0);
    }

    /** Frees the listed blocks and the indirect block. */
    method FreeIndirect(i: nat) returns (ok: bool)
      requires Consistent() && i < |inodes| && refs[i][NDIRECT] != 0
      modifies this`inodes, this`bitmap, this`refs, this`owner
      ensures ok && Consistent() && SameSizes(old(inodes))
      ensures |refs| == |old(refs)| && Shaped(refs) && Shaped(old(refs)) && i < |refs|
      ensures Freed(old(refs), refs, i, NDIRECT, NSLOTS)
    {
      hide Owned, Concrete, Bit, ClearBit, SetRef, Freed, Word;
      ghost var refs0 := refs;
      ConcreteShape(disk, inodes, refs);
      RefAt(disk, inodes, refs, i, NDIRECT);
      IndirectBlock(refs, owner, bitmap, meta, |disk|, i);
      BlockAt(disk, inodes, inodes[i].addrs[NDIRECT]);
      FreedNone(refs, i);
      var block := disk[inodes[i].addrs[NDIRECT]];
      for j := 0 to NINDIRECT
        invariant Owned(refs, owner, bitmap, meta, |disk|) && inodes == old(inodes)
        invariant Shaped(refs) && |refs| == |refs0| && Freed(refs0, refs, i, NDIRECT + 1, NDIRECT + 1 + j)
      {
        ghost var s, refs1 := NDIRECT + 1 + j, refs;
        Listed(disk, inodes, refs0, refs, i, j);
        if Word(block, j) != 0 {
          GiveKeeps(refs, owner, bitmap, meta, |disk|, i, s);
          ok := Bfree(Word(block, j));
          if !ok { return; }
          owner := owner - {refs[i][s]};
        } else {
          SetSame(refs, i, s);
        }
        refs := SetRef(refs, i, s, 0);
        FreedMore(refs0, refs1, i, NDIRECT + 1, s);
      }
      FreedBefore(refs0, refs, i, NDIRECT);
      GiveKeeps(refs, owner, bitmap, meta, |disk|, i, NDIRECT);
      owner := owner - {refs[i][NDIRECT]};
      ok := Bfree(inodes[i].addrs[NDIRECT]);
      FreedLess(refs0, refs, i);
      ClearIndirect(disk, inodes, refs0, SetRef(refs, i, NDIRECT, 0), i);
      inodes := inodes[i := inodes[i].(addrs := inodes[i].addrs[NDIRECT := 0])];
      refs := SetRef(refs, i, NDIRECT, 0);
    }

    /** itrunc: the file is empty and holds no block; every other file is as it was. bfree never finds a
        block that is free already. */
    method Itrunc(i: nat) returns (ok: bool)
      requires Valid() && i < |inodes|
      modifies this`inodes, this`bitmap, this`refs, this`owner
      ensures ok && Valid() && |inodes| == |old(inodes)| && inodes[i].size == 0
      ensures forall j | 0 <= j < |inodes| && j != i :: inodes[j].size == old(inodes)[j].size
      ensures forall j: nat, k: nat | j < |inodes| && k < MAXSIZE :: Byte(j, k) == if j == i then 0 else old(Byte(j, k))
      ensures Shaped(refs) && |refs| == |old(refs)| && Freed(old(refs), refs, i, 0, NSLOTS)
    {
      hide Owned, Concrete, SetRef, Freed;
      ghost var refs0, inodes0 := refs, inodes;
      ConcreteShape(disk, inodes, refs);
      FreedNowhere(refs, i);
      for s := 0 to NDIRECT
        invariant Consistent() && SameSizes(inodes0) && Shaped(refs) && |refs| == |refs0|
        invariant Freed(refs0, refs, i, 0, s)
      {
        FreedMore(refs0, refs, i, 0, s);
        ok := FreeDirect(i, s);
        ConcreteShape(disk, inodes, refs);
      }
      ghost var refs1 := refs;
      ConcreteShape(disk, inodes, refs);
      RefAt(disk, inodes, refs, i, NDIRECT);
      if inodes[i].addrs[NDIRECT] != 0 {
        ok := FreeIndirect(i);
      } else {
        NothingListed(disk, inodes, refs, i);
      }
      FreedBoth(refs0, refs1, refs, i);
      ConcreteShape(disk, inodes, refs);
      SizeOnly(disk, inodes, refs, i, 0);
      inodes := inodes[i := inodes[i].(size := 0)];
      EmptyBytes(disk, refs0, refs, i);
      TruncNoHoles(inodes0, inodes, refs0, refs, i);
      ok := true;
    }
  }

  /** The slots from `lo` below `hi` of inode `i` are empty now; the others are as they were. */
  ghost predicate Freed(refs0: Refs, refs: Refs, i: nat, lo: nat, hi: nat)
    requires Shaped(refs0) && Shaped(refs) && |refs0| == |refs|
  {
    forall j, t | 0 <= j < |refs| && 0 <= t < NSLOTS :: refs[j][t] == if j == i && lo <= t < hi then 0 else refs0[j][t]
  }

  /** File `i` holds `src` from `off` on; every other byte of every file is as it was. */
  ghost predicate Wrote(disk0: seq<Block>, refs0: Refs, disk: seq<Block>, refs: Refs, i: nat, off: nat, src: seq<Byte>)
    requires Shaped(refs0) && Shaped(refs) && |refs0| == |refs|
    requires (forall b | 0 <= b < |disk0| :: IsBlock(disk0[b])) && (forall b | 0 <= b < |disk| :: IsBlock(disk[b]))
  {
    forall j: nat, k: nat | j < |refs| && k < MAXSIZE ::
      At(disk, refs, j, k) == if j == i && off <= k < off + |src| then src[k - off] else At(disk0, refs0, j, k)
  }

  /** `dst` holds the bytes of file `i` from `off` on. */
  ghost predicate ReadSoFar(disk: seq<Block>, refs: Refs, i: nat, off: nat, dst: seq<Byte>)
    requires Shaped(refs) && i < |refs| && off + |dst| <= MAXSIZE && forall b | 0 <= b < |disk| :: IsBlock(disk[b])
  {
    forall k | 0 <= k < |dst| :: dst[k] == At(disk, refs, i, off + k)
  }

  lemma Chunk(pos: nat)
    requires pos < MAXSIZE
    ensures pos / BSIZE < MAXFILE && 0 <= pos % BSIZE < BSIZE
  {}

  lemma BlockAt(disk: seq<Block>, inodes: seq<Inode>, b: nat)
    requires Formed(disk, inodes) && b < |disk|
    ensures IsBlock(disk[b])
  {}

  /** The data blocks of a file are its own, and nobody's indirect block. */
  lemma DataBlock(refs: Refs, owner: map<nat, Owner>, bitmap: seq<bv8>, meta: nat, size: nat, i: nat, bn: nat)
    requires Owned(refs, owner, bitmap, meta, size) && i < |refs| && bn < MAXFILE && Shaped(refs) && refs[i][Slot(bn)] != 0
    ensures refs[i][Slot(bn)] < size
    ensures forall j | 0 <= j < |refs| :: refs[j][NDIRECT] != refs[i][Slot(bn)]
    ensures forall j, t | 0 <= j < |refs| && 0 <= t < NSLOTS && refs[j][t] == refs[i][Slot(bn)] :: j == i && t == Slot(bn)
  {
    hide Bit;
  }

  /** Positions within one block. */
  lemma Within(pos: nat, m: nat, k: nat)
    requires m <= BSIZE - pos % BSIZE
    ensures pos <= k < pos + m <==> k / BSIZE == pos / BSIZE && pos % BSIZE <= k % BSIZE < pos % BSIZE + m
    ensures pos <= k < pos + m ==> k % BSIZE - pos % BSIZE == k - pos
  {
    var q, o := pos / BSIZE, pos % BSIZE;
    var u, v := k / BSIZE, k % BSIZE;
    assert pos == BSIZE * q + o && k == BSIZE * u + v;
  }

  lemma ReadChunk(disk: seq<Block>, refs: Refs, i: nat, off: nat, dst: seq<Byte>, m: nat)
    requires Shaped(refs) && i < |refs| && off + |dst| + m <= MAXSIZE && forall b | 0 <= b < |disk| :: IsBlock(disk[b])
    requires ReadSoFar(disk, refs, i, off, dst)
    requires var pos := off + |dst|;
             pos < MAXSIZE && m <= BSIZE - pos % BSIZE && 0 < refs[i][Slot(pos / BSIZE)] < |disk|
    ensures var pos := off + |dst|;
            var b := refs[i][Slot(pos / BSIZE)];
            |disk[b]| == BSIZE && ReadSoFar(disk, refs, i, off, dst + disk[b][pos % BSIZE..pos % BSIZE + m])
  {
    var pos := off + |dst|;
    var b := refs[i][Slot(pos / BSIZE)];
    assert IsBlock(disk[b]);
    var dst' := dst + disk[b][pos % BSIZE..pos % BSIZE + m];
    forall k | 0 <= k < |dst'| ensures dst'[k] == At(disk, refs, i, off + k) {
      if k >= |dst| { Within(pos, m, off + k); }
    }
  }

  /** The block of a byte below the end of a file is there. */
  lemma ThereBelow(inodes: seq<Inode>, refs: Refs, i: nat, pos: nat)
    requires Shaped(refs) && |refs| == |inodes| && i < |inodes| && NoHoles(inodes, refs) && pos < inodes[i].size <= MAXSIZE
    ensures pos / BSIZE < MAXFILE && refs[i][Slot(pos / BSIZE)] != 0
  {
    assert Used(inodes[i], pos / BSIZE);
  }

  lemma InodeShape(disk: seq<Block>, inodes: seq<Inode>, i: nat)
    requires Formed(disk, inodes) && i < |inodes|
    ensures |inodes[i].addrs| == NDIRECT + 1
  {}

  lemma ShapedRow(refs: Refs, i: nat)
    requires Shaped(refs) && i < |refs|
    ensures |refs[i]| == NSLOTS
  {}

  // ----- the blocks of a write

  /** The blocks that hold the bytes from `off` below `pos` are there. */
  ghost predicate Written(row: seq<nat>, off: nat, pos: nat)
    requires |row| == NSLOTS
  {
    forall bn: nat | off / BSIZE <= bn < MAXFILE && bn * BSIZE < pos && off < pos ::
      row[Slot(bn)] != 0 && (bn >= NDIRECT ==> row[NDIRECT] != 0)
  }

  /** The first block of a file after those that hold the `n` bytes from `off` on. */
  function EndBlock(off: nat, n: nat): (r: nat) { if n == 0 then off / BSIZE else (off + n + BSIZE - 1) / BSIZE }

  lemma LastBlock(off: nat, n: nat)
    requires off + n <= MAXSIZE
    ensures EndBlock(off, n) <= MAXFILE
  {}

  lemma BeforeEnd(pos: nat, off: nat, n: nat)
    requires off <= pos < off + n
    ensures pos / BSIZE < EndBlock(off, n)
  {}

  lemma MissingFirst(row: seq<nat>, bn: nat, hi: nat)
    requires |row| == NSLOTS && bn < hi <= MAXFILE
    ensures Cost(row, bn) <= Missing(row, bn, hi)
  {}

  lemma WrittenNothing(row: seq<nat>, off: nat)
    requires |row| == NSLOTS
    ensures Written(row, off, off)
  {}

  /** There are no holes after a write, also with the size that it may set. */
  lemma NewSize(inodes0: seq<Inode>, inodes: seq<Inode>, refs0: Refs, refs: Refs, i: nat, off: nat, n: nat)
    requires Shaped(refs0) && Shaped(refs) && |refs0| == |refs| == |inodes| == |inodes0| && i < |inodes|
    requires NoHoles(inodes0, refs0) && Grown(refs0, refs) && Written(refs[i], off, off + n) && off <= inodes[i].size
    requires forall j | 0 <= j < |inodes| :: inodes[j].size == inodes0[j].size
    ensures NoHoles(inodes, refs)
    ensures n > 0 && off + n > inodes[i].size ==> NoHoles(inodes[i := inodes[i].(size := off + n)], refs)
  {
    StillNoHoles(inodes0, inodes, refs0, refs);
    if n > 0 && off + n > inodes[i].size { GrowSize(inodes, refs, i, off, off + n); }
  }

  /** One chunk more: the block at `pos` is there now, and the next position is in it or after it. */
  lemma WrittenMore(row: seq<nat>, row': seq<nat>, off: nat, pos: nat, m: nat)
    requires |row| == |row'| == NSLOTS && off <= pos < MAXSIZE && 0 < m <= BSIZE - pos % BSIZE
    requires Written(row, off, pos) && Mapped(row, row', pos / BSIZE)
    ensures Written(row', off, pos + m)
    ensures (pos + m) / BSIZE == pos / BSIZE || (pos + m) / BSIZE == pos / BSIZE + 1
  {
    forall bn: nat | off / BSIZE <= bn < MAXFILE && bn * BSIZE < pos + m
      ensures row'[Slot(bn)] != 0 && (bn >= NDIRECT ==> row'[NDIRECT] != 0)
    {
      if bn != pos / BSIZE { assert bn * BSIZE < pos && off < pos; }
    }
  }

  lemma {:induction false} NoHolesLeft(row: seq<nat>, lo: nat, hi: nat)
    requires |row| == NSLOTS && hi <= MAXFILE && forall bn: nat | lo <= bn < hi :: row[Slot(bn)] != 0
    ensures Holes(row, lo, hi) == 0
    decreases hi - lo
  {
    if lo < hi { NoHolesLeft(row, lo + 1, hi); }
  }

  lemma NothingMissing(row: seq<nat>, off: nat, n: nat)
    requires |row| == NSLOTS && off + n <= MAXSIZE && Written(row, off, off + n) && EndBlock(off, n) <= MAXFILE
    ensures Missing(row, (off + n) / BSIZE, EndBlock(off, n)) == 0
  {
    var lo, hi := (off + n) / BSIZE, EndBlock(off, n);
    assert lo < hi ==> lo + 1 == hi && off / BSIZE <= lo && lo * BSIZE < off + n;
    NoHolesLeft(row, lo, hi);
  }

  lemma TruncNoHoles(inodes0: seq<Inode>, inodes: seq<Inode>, refs0: Refs, refs: Refs, i: nat)
    requires Shaped(refs0) && Shaped(refs) && |refs0| == |refs| == |inodes| == |inodes0| && i < |inodes|
    requires NoHoles(inodes0, refs0) && Freed(refs0, refs, i, 0, NSLOTS) && inodes[i].size == 0
    requires forall j | 0 <= j < |inodes| && j != i :: inodes[j].size == inodes0[j].size
    ensures NoHoles(inodes, refs)
  {
    forall j, bn: nat | 0 <= j < |inodes| && bn < MAXFILE && Used(inodes[j], bn) ensures refs[j][Slot(bn)] != 0 {
      if j != i { assert Used(inodes0[j], bn); }
    }
  }

  lemma WroteNothing(disk: seq<Block>, refs: Refs, i: nat, off: nat, src: seq<Byte>)
    requires Shaped(refs) && forall b | 0 <= b < |disk| :: IsBlock(disk[b])
    ensures Wrote(disk, refs, disk, refs, i, off, src[..0])
  {}

  lemma WroteSame(disk0: seq<Block>, refs0: Refs, disk1: seq<Block>, refs1: Refs, disk2: seq<Block>, refs2: Refs, i: nat, off: nat, src: seq<Byte>)
    requires Shaped(refs0) && Shaped(refs1) && Shaped(refs2) && |refs0| == |refs1| == |refs2|
    requires (forall b | 0 <= b < |disk0| :: IsBlock(disk0[b])) && (forall b | 0 <= b < |disk1| :: IsBlock(disk1[b]))
    requires forall b | 0 <= b < |disk2| :: IsBlock(disk2[b])
    requires Wrote(disk0, refs0, disk1, refs1, i, off, src) && SameBytes(disk1, refs1, disk2, refs2)
    ensures Wrote(disk0, refs0, disk2, refs2, i, off, src)
  {
    hide At;
    forall j: nat, k: nat | j < |refs0| && k < MAXSIZE
      ensures At(disk2, refs2, j, k) == if j == i && off <= k < off + |src| then src[k - off] else At(disk0, refs0, j, k)
    {
      assert At(disk2, refs2, j, k) == At(disk1, refs1, j, k);
    }
  }

  lemma WroteMore(disk0: seq<Block>, refs0: Refs, disk: seq<Block>, refs: Refs, i: nat, off: nat, src: seq<Byte>, tot: nat, m: nat, block: Block)
    requires Shaped(refs0) && Shaped(refs) && i < |refs0| == |refs| && tot + m <= |src| && off + |src| <= MAXSIZE
    requires (forall b | 0 <= b < |disk0| :: IsBlock(disk0[b])) && (forall b | 0 <= b < |disk| :: IsBlock(disk[b]))
    requires Wrote(disk0, refs0, disk, refs, i, off, src[..tot])
    requires var pos := off + tot;
             && pos < MAXSIZE && m <= BSIZE - pos % BSIZE && pos / BSIZE < MAXFILE && 0 < refs[i][Slot(pos / BSIZE)] < |disk|
             && |disk[refs[i][Slot(pos / BSIZE)]]| == BSIZE
             && block == disk[refs[i][Slot(pos / BSIZE)]][..pos % BSIZE] + src[tot..tot + m] + disk[refs[i][Slot(pos / BSIZE)]][pos % BSIZE + m..]
    requires forall j, t | 0 <= j < |refs| && 0 <= t < NSLOTS && refs[j][t] == refs[i][Slot((off + tot) / BSIZE)] :: j == i && t == Slot((off + tot) / BSIZE)
    ensures var disk' := disk[refs[i][Slot((off + tot) / BSIZE)] := block];
            (forall b | 0 <= b < |disk'| :: IsBlock(disk'[b])) && Wrote(disk0, refs0, disk', refs, i, off, src[..tot + m])
  {
    var pos, bn := off + tot, (off + tot) / BSIZE;
    var disk' := disk[refs[i][Slot(bn)] := block];
    forall j: nat, k: nat | j < |refs| && k < MAXSIZE
      ensures At(disk', refs, j, k) == if j == i && off <= k < off + tot + m then src[..tot + m][k - off] else At(disk0, refs0, j, k)
    {
      WriteBytes(disk, refs, i, bn, block, j, k);
      WroteAt(disk, refs, i, off, src, tot, m, block, k);
      hide At;
    }
  }

  /** Byte `k` of the block that is being rewritten. */
  lemma WroteAt(disk: seq<Block>, refs: Refs, i: nat, off: nat, src: seq<Byte>, tot: nat, m: nat, block: Block, k: nat)
    requires Shaped(refs) && i < |refs| && tot + m <= |src| && off + |src| <= MAXSIZE && k < MAXSIZE
    requires forall b | 0 <= b < |disk| :: IsBlock(disk[b])
    requires var pos := off + tot;
             && pos < MAXSIZE && m <= BSIZE - pos % BSIZE && pos / BSIZE < MAXFILE && 0 < refs[i][Slot(pos / BSIZE)] < |disk|
             && |disk[refs[i][Slot(pos / BSIZE)]]| == BSIZE
             && block == disk[refs[i][Slot(pos / BSIZE)]][..pos % BSIZE] + src[tot..tot + m] + disk[refs[i][Slot(pos / BSIZE)]][pos % BSIZE + m..]
    ensures |block| == BSIZE
    ensures k / BSIZE == (off + tot) / BSIZE ==>
              block[k % BSIZE] == if off + tot <= k < off + tot + m then src[k - off] else At(disk, refs, i, k)
    ensures k / BSIZE != (off + tot) / BSIZE ==> !(off + tot <= k < off + tot + m)
  {
    Within(off + tot, m, k);
    SlotRange(k);
  }

  lemma SizeOnly(disk: seq<Block>, inodes: seq<Inode>, refs: Refs, i: nat, size: nat)
    requires Concrete(disk, inodes, refs) && i < |inodes|
    ensures Concrete(disk, inodes[i := inodes[i].(size := size)], refs)
  {
    var inodes' := inodes[i := inodes[i].(size := size)];
    forall j, t | 0 <= j < |refs| && 0 <= t < NSLOTS ensures refs[j][t] == Ref(disk, inodes'[j], t) {
      RefAt(disk, inodes, refs, j, t);
    }
  }

  lemma SetSame(refs: Refs, i: nat, s: nat)
    requires Shaped(refs) && i < |refs| && s < NSLOTS && refs[i][s] == 0
    ensures SetRef(refs, i, s, 0) == refs
  {
    assert refs[i][s := 0] == refs[i];
  }

  lemma ClearDirect(disk: seq<Block>, inodes: seq<Inode>, refs: Refs, i: nat, s: nat)
    requires Concrete(disk, inodes, refs) && i < |inodes| && s < NDIRECT
    ensures Concrete(disk, inodes[i := inodes[i].(addrs := inodes[i].addrs[s := 0])], SetRef(refs, i, s, 0))
  {
    var inodes' := inodes[i := inodes[i].(addrs := inodes[i].addrs[s := 0])];
    forall j, t | 0 <= j < |refs| && 0 <= t < NSLOTS ensures SetRef(refs, i, s, 0)[j][t] == Ref(disk, inodes'[j], t) {
      RefAt(disk, inodes, refs, j, t);
    }
  }

  lemma FreedNowhere(refs: Refs, i: nat)
    requires Shaped(refs)
    ensures Freed(refs, refs, i, 0, 0)
  {}

  lemma NothingListed(disk: seq<Block>, inodes: seq<Inode>, refs: Refs, i: nat)
    requires Concrete(disk, inodes, refs) && i < |refs| && refs[i][NDIRECT] == 0
    ensures Freed(refs, refs, i, NDIRECT, NSLOTS)
  {
    forall t | NDIRECT < t < NSLOTS ensures refs[i][t] == 0 { NoIndirect(disk, inodes, refs, i, t); }
    hide Concrete;
  }

  lemma FreedBoth(refs0: Refs, refs1: Refs, refs: Refs, i: nat)
    requires Shaped(refs0) && Shaped(refs1) && Shaped(refs) && |refs0| == |refs1| == |refs|
    requires Freed(refs0, refs1, i, 0, NDIRECT) && Freed(refs1, refs, i, NDIRECT, NSLOTS)
    ensures Freed(refs0, refs, i, 0, NSLOTS)
  {}

  lemma EmptyBytes(disk: seq<Block>, refs0: Refs, refs: Refs, i: nat)
    requires Shaped(refs0) && Shaped(refs) && |refs0| == |refs| && Freed(refs0, refs, i, 0, NSLOTS)
    requires forall b | 0 <= b < |disk| :: IsBlock(disk[b])
    ensures forall j: nat, k: nat | j < |refs| && k < MAXSIZE :: At(disk, refs, j, k) == if j == i then 0 else At(disk, refs0, j, k)
  {
    forall j: nat, k: nat | j < |refs| && k < MAXSIZE
      ensures At(disk, refs, j, k) == if j == i then 0 else At(disk, refs0, j, k)
    {
      SlotRange(k);
    }
  }

  lemma FreedNone(refs: Refs, i: nat)
    requires Shaped(refs)
    ensures Freed(refs, refs, i, NDIRECT + 1, NDIRECT + 1)
  {}

  /** Entry `j` of the indirect block is still what the file had there. */
  lemma Listed(disk: seq<Block>, inodes: seq<Inode>, refs0: Refs, refs: Refs, i: nat, j: nat)
    requires Concrete(disk, inodes, refs0) && Shaped(refs) && |refs| == |refs0| && i < |refs| && j < NINDIRECT
    requires 0 < inodes[i].addrs[NDIRECT] < |disk| && Freed(refs0, refs, i, NDIRECT + 1, NDIRECT + 1 + j)
    ensures IsBlock(disk[inodes[i].addrs[NDIRECT]]) && refs[i][NDIRECT + 1 + j] == Word(disk[inodes[i].addrs[NDIRECT]], j)
  {
    RefAt(disk, inodes, refs0, i, NDIRECT + 1 + j);
    hide Word;
  }

  lemma FreedMore(refs0: Refs, refs: Refs, i: nat, lo: nat, s: nat)
    requires Shaped(refs0) && Shaped(refs) && |refs0| == |refs| && i < |refs| && lo <= s < NSLOTS && Freed(refs0, refs, i, lo, s)
    ensures Freed(refs0, SetRef(refs, i, s, 0), i, lo, s + 1)
  {
    hide SetRef;
  }

  lemma FreedBefore(refs0: Refs, refs: Refs, i: nat, s: nat)
    requires Shaped(refs0) && Shaped(refs) && |refs0| == |refs| && i < |refs| && s <= NDIRECT
    requires Freed(refs0, refs, i, NDIRECT + 1, NSLOTS)
    ensures refs[i][s] == refs0[i][s]
  {}

  lemma FreedLess(refs0: Refs, refs: Refs, i: nat)
    requires Shaped(refs0) && Shaped(refs) && |refs0| == |refs| && i < |refs| && Freed(refs0, refs, i, NDIRECT + 1, NSLOTS)
    ensures Freed(refs0, SetRef(refs, i, NDIRECT, 0), i, NDIRECT, NSLOTS)
  {
    hide SetRef;
  }

  lemma ClearIndirect(disk: seq<Block>, inodes: seq<Inode>, refs0: Refs, refs: Refs, i: nat)
    requires Concrete(disk, inodes, refs0) && Shaped(refs) && |refs| == |refs0| && i < |inodes| && Freed(refs0, refs, i, NDIRECT, NSLOTS)
    ensures Concrete(disk, inodes[i := inodes[i].(addrs := inodes[i].addrs[NDIRECT := 0])], refs)
  {
    var inodes' := inodes[i := inodes[i].(addrs := inodes[i].addrs[NDIRECT := 0])];
    forall j, t | 0 <= j < |refs| && 0 <= t < NSLOTS ensures refs[j][t] == Ref(disk, inodes'[j], t) {
      RefAt(disk, inodes, refs0, j, t);
    }
  }

  lemma SetRefAt(refs: Refs, i: nat, s: nat, b: nat)
    requires Shaped(refs) && i < |refs| && s < NSLOTS
    ensures SetRef(refs, i, s, b)[i][s] == b
  {}

  lemma SameBytesTrans(disk0: seq<Block>, refs0: Refs, disk1: seq<Block>, refs1: Refs, disk2: seq<Block>, refs2: Refs)
    requires Shaped(refs0) && Shaped(refs1) && Shaped(refs2) && |refs0| == |refs1| == |refs2|
    requires (forall b | 0 <= b < |disk0| :: IsBlock(disk0[b])) && (forall b | 0 <= b < |disk1| :: IsBlock(disk1[b]))
    requires forall b | 0 <= b < |disk2| :: IsBlock(disk2[b])
    requires SameBytes(disk0, refs0, disk1, refs1) && SameBytes(disk1, refs1, disk2, refs2)
    ensures SameBytes(disk0, refs0, disk2, refs2)
  {
    forall i: nat, k: nat | i < |refs0| && k < MAXSIZE ensures At(disk2, refs2, i, k) == At(disk0, refs0, i, k) {
      assert At(disk1, refs1, i, k) == At(disk0, refs0, i, k);
    }
  }

  /** The indirect block of a file is nobody else's, and nobody's data. */
  lemma IndirectBlock(refs: Refs, owner: map<nat, Owner>, bitmap: seq<bv8>, meta: nat, size: nat, i: nat)
    requires Owned(refs, owner, bitmap, meta, size) && i < |refs| && refs[i][NDIRECT] != 0
    ensures Shaped(refs) && 0 < refs[i][NDIRECT] < size
    ensures forall j | 0 <= j < |refs| && j != i :: refs[j][NDIRECT] != refs[i][NDIRECT]
    ensures forall j, t | 0 <= j < |refs| && 0 <= t < NSLOTS && t != NDIRECT :: refs[j][t] != refs[i][NDIRECT]
  {
    hide Bit;
  }

  lemma ListedBytes(disk0: seq<Block>, disk: seq<Block>, refs: Refs, i: nat, s: nat, b: nat)
    requires Shaped(refs) && i < |refs| && NDIRECT < s < NSLOTS && refs[i][s] == 0 && 0 < b < |disk0| == |disk|
    requires (forall c | 0 <= c < |disk0| :: IsBlock(disk0[c])) && 0 < refs[i][NDIRECT] < |disk|
    requires forall j, t | 0 <= j < |refs| && 0 <= t < NSLOTS :: refs[j][t] != b
    requires forall j, t | 0 <= j < |refs| && 0 <= t < NSLOTS && t != NDIRECT :: refs[j][t] != refs[i][NDIRECT]
    requires IsBlock(disk[refs[i][NDIRECT]]) && disk == disk0[b := Zeros()][refs[i][NDIRECT] := disk[refs[i][NDIRECT]]]
    ensures (forall c | 0 <= c < |disk| :: IsBlock(disk[c])) && SameBytes(disk0, refs, disk, SetRef(refs, i, s, b))
  {
    TakeBytes(disk0, disk, refs, i, s, b);
  }

  /** What Owned says of sizes and of block 0. */
  lemma Counted(refs: Refs, owner: map<nat, Owner>, bitmap: seq<bv8>, meta: nat, size: nat)
    requires Owned(refs, owner, bitmap, meta, size)
    ensures 0 < meta <= size <= 8 * |bitmap| && Shaped(refs) && BitAt(bitmap, 0)
  {
    InRange(0, bitmap);
  }

  lemma ConcreteShape(disk: seq<Block>, inodes: seq<Inode>, refs: Refs)
    requires Concrete(disk, inodes, refs)
    ensures Formed(disk, inodes) && Shaped(refs) && |refs| == |inodes|
  {}

  lemma SameBytesRefl(disk: seq<Block>, refs: Refs)
    requires Shaped(refs) && forall b | 0 <= b < |disk| :: IsBlock(disk[b])
    ensures SameBytes(disk, refs, disk, refs)
  {}

  /** A block whose bit is clear is in nobody's hands. */
  lemma FreeBlock(refs: Refs, owner: map<nat, Owner>, bitmap: seq<bv8>, meta: nat, size: nat, b: nat)
    requires Owned(refs, owner, bitmap, meta, size) && b < size && InMap(b, bitmap) && !Bit(bitmap, b)
    ensures Shaped(refs) && 0 < b && b !in owner && forall j, t | 0 <= j < |refs| && 0 <= t < NSLOTS :: refs[j][t] != b
  {
    hide Bit;
  }
}
