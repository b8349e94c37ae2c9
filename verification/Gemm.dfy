/** MatMatMultiply.cpp: the blocked, packed matrix product, for any addition and multiplication at
    all. Matrices are flat arrays in row-major order. */
module Gemm {
  datatype Arith<!T> = Arith(zero: T, add: (T, T) -> T, mul: (T, T) -> T)

  // ----- indexing

  /** The address of [i][j] in a matrix with `cols` columns. */
  function Flat2(cols: nat, i: nat, j: nat): (r: nat) { i * cols + j }

  /** The address of [x][i][y][j] when the same memory is seen as [..][bs][blocks][bs]. */
  function Flat4(bs: nat, blocks: nat, x: nat, i: nat, y: nat, j: nat): (r: nat) {
    ((x * bs + i) * blocks + y) * bs + j
  }

  /** Both views address the same cell. */
  lemma Reinterpret(bs: nat, blocks: nat, x: nat, i: nat, y: nat, j: nat)
    ensures Flat4(bs, blocks, x, i, y, j) == Flat2(blocks * bs, x * bs + i, y * bs + j)
  {
    var r := x * bs + i;
    Distribute(r * blocks, y, bs);
    Associate(r, blocks, bs);
  }

  lemma Distribute(a: int, b: int, c: int)
    ensures (a + b) * c == a * c + b * c
  {}

  lemma Associate(a: int, b: int, c: int)
    ensures a * b * c == a * (b * c)
  {}

  lemma InRange(rows: nat, cols: nat, i: nat, j: nat)
    requires i < rows && j < cols
    ensures Flat2(cols, i, j) < rows * cols
  {
    Scale(i + 1, rows, cols);
    Distribute(i, 1, cols);
  }

  lemma Scale(a: int, b: int, c: nat)
    requires a <= b
    ensures a * c <= b * c
  {}

  lemma Apart(cols: nat, i: nat, j: nat, i': nat, j': nat)
    requires j < cols && j' < cols && (i != i' || j != j')
    ensures Flat2(cols, i, j) != Flat2(cols, i', j')
  {
    if i < i' { Scale(i + 1, i', cols); Distribute(i, 1, cols); }
    if i' < i { Scale(i' + 1, i, cols); Distribute(i', 1, cols); }
  }

  /** Block `x` of `blocks` lies within the rows or columns. */
  lemma BlockFits(bs: nat, blocks: nat, x: nat)
    requires x < blocks
    ensures 0 <= x * bs && x * bs + bs <= blocks * bs
  {
    Scale(x + 1, blocks, bs);
    Distribute(x, 1, bs);
  }

  // ----- the naive product

  datatype Problem<!T> = Problem(op: Arith<T>, a: seq<T>, b: seq<T>, m: nat, k: nat, n: nat) {
    predicate Valid() { |a| == m * k && |b| == k * n }

    function A(i: nat, l: nat): (r: T)
      requires Valid() && i < m && l < k
    {
      InRange(m, k, i, l);
      a[Flat2(k, i, l)]
    }

    function B(l: nat, j: nat): (r: T)
      requires Valid() && l < k && j < n
    {
      InRange(k, n, l, j);
      b[Flat2(n, l, j)]
    }

    /** The sum over the first `l` products, added from the left. */
    function Dot(i: nat, j: nat, l: nat): (r: T)
      requires Valid() && i < m && j < n && l <= k
    {
      if l == 0 then op.zero else op.add(Dot(i, j, l - 1), op.mul(A(i, l - 1), B(l - 1, j)))
    }

    /** Cell [i][j] of the result memory `c`. */
    function C(c: seq<T>, i: nat, j: nat): (r: T)
      requires |c| == m * n && i < m && j < n
    {
      InRange(m, n, i, j);
      c[Flat2(n, i, j)]
    }
  }

  lemma UpdateCell<T>(p: Problem<T>, c: seq<T>, x: nat, y: nat, v: T)
    requires |c| == p.m * p.n && x < p.m && y < p.n
    ensures Flat2(p.n, x, y) < |c|
    ensures forall i: nat, j: nat | i < p.m && j < p.n ::
              p.C(c[Flat2(p.n, x, y) := v], i, j) == if i == x && j == y then v else p.C(c, i, j)
  {
    InRange(p.m, p.n, x, y);
    var c' := c[Flat2(p.n, x, y) := v];
    forall i: nat, j: nat | i < p.m && j < p.n
      ensures p.C(c', i, j) == if i == x && j == y then v else p.C(c, i, j)
    {
      InRange(p.m, p.n, i, j);
      if i != x || j != y { Apart(p.n, i, j, x, y); }
    }
  }

  // ----- one tile

  predicate Square<T>(t: array2<T>, bs: nat) { t.Length0 == bs && t.Length1 == bs }

  method Clear<T>(bs: nat, zero: T, localC: array2<T>)
    requires Square(localC, bs)
    modifies localC
    ensures forall i, j | 0 <= i < bs && 0 <= j < bs :: localC[i, j] == zero
  {
    for ii := 0 to bs
      invariant forall i, j | 0 <= i < ii && 0 <= j < bs :: localC[i, j] == zero
    {
      for jj := 0 to bs
        invariant forall i, j | 0 <= i < ii && 0 <= j < bs :: localC[i, j] == zero
        invariant forall j | 0 <= j < jj :: localC[ii, j] == zero
      {
        localC[ii, jj] := zero;
      }
    }
  }

  /** The matrices in blocks of bs by bs, and the memory that holds them. */
  ghost predicate Blocked<T>(p: Problem<T>, bs: nat, mBlocks: nat, kBlocks: nat, nBlocks: nat, a: array<T>, b: array<T>)
    reads a, b
  {
    p.m == mBlocks * bs && p.k == kBlocks * bs && p.n == nBlocks * bs && p.Valid() && a[..] == p.a && b[..] == p.b
  }

  /** What the blocked views of the two matrices hold. */
  lemma BlockedView<T>(p: Problem<T>, bs: nat, mBlocks: nat, kBlocks: nat, nBlocks: nat, a: array<T>, b: array<T>,
                       bi: nat, bk: nat, bj: nat, ii: nat, jj: nat)
    requires Blocked(p, bs, mBlocks, kBlocks, nBlocks, a, b)
    requires bi < mBlocks && bk < kBlocks && bj < nBlocks && ii < bs && jj < bs
    ensures bi * bs + bs <= p.m && bk * bs + bs <= p.k && bj * bs + bs <= p.n
    ensures var x, y := Flat4(bs, kBlocks, bi, ii, bk, jj), Flat4(bs, nBlocks, bk, ii, bj, jj);
            && x < a.Length && a[x] == p.A(bi * bs + ii, bk * bs + jj)
            && y < b.Length && b[y] == p.B(bk * bs + ii, bj * bs + jj)
  {
    BlockFits(bs, mBlocks, bi);
    BlockFits(bs, kBlocks, bk);
    BlockFits(bs, nBlocks, bj);
    Reinterpret(bs, kBlocks, bi, ii, bk, jj);
    Reinterpret(bs, nBlocks, bk, ii, bj, jj);
    hide Flat2, Flat4;
    InRange(p.m, p.k, bi * bs + ii, bk * bs + jj);
    InRange(p.k, p.n, bk * bs + ii, bj * bs + jj);
  }

  /** Copies tile [bi][bk] of the first matrix and tile [bk][bj] of the second. */
  method Pack<T>(ghost p: Problem<T>, bs: nat, ghost mBlocks: nat, kBlocks: nat, nBlocks: nat, a: array<T>, b: array<T>,
                 bi: nat, bk: nat, bj: nat, ghost r0: nat, ghost l0: nat, ghost c0: nat, localA: array2<T>, localB: array2<T>)
    requires Blocked(p, bs, mBlocks, kBlocks, nBlocks, a, b) && bi < mBlocks && bk < kBlocks && bj < nBlocks
    requires p.Valid() && r0 == bi * bs && l0 == bk * bs && c0 == bj * bs
    requires Square(localA, bs) && Square(localB, bs) && localA != localB
    requires r0 + bs <= p.m && l0 + bs <= p.k && c0 + bs <= p.n
    modifies localA, localB
    ensures forall i: nat, j: nat | i < bs && j < bs :: localA[i, j] == p.A(r0 + i, l0 + j) && localB[i, j] == p.B(l0 + i, c0 + j)
  {
    hide Flat2, Flat4, Blocked, Problem.A, Problem.B, Problem.Valid;
    for ii := 0 to bs
      invariant Blocked(p, bs, mBlocks, kBlocks, nBlocks, a, b)
      invariant forall i: nat, j: nat | i < ii && j < bs :: localA[i, j] == p.A(r0 + i, l0 + j) && localB[i, j] == p.B(l0 + i, c0 + j)
    {
      for jj := 0 to bs
        invariant Blocked(p, bs, mBlocks, kBlocks, nBlocks, a, b)
        invariant forall i: nat, j: nat | i < bs && j < bs && (i < ii || (i == ii && j < jj)) ::
                    localA[i, j] == p.A(r0 + i, l0 + j) && localB[i, j] == p.B(l0 + i, c0 + j)
      {
        BlockedView(p, bs, mBlocks, kBlocks, nBlocks, a, b, bi, bk, bj, ii, jj);
        localA[ii, jj] := a[Flat4(bs, kBlocks, bi, ii, bk, jj)];
        localB[ii, jj] := b[Flat4(bs, nBlocks, bk, ii, bj, jj)];
      }
    }
  }

  /** The inner kernel: adds the product of two tiles, one term after another. */
  method Accumulate<T>(p: Problem<T>, bs: nat, ghost r0: nat, ghost l0: nat, ghost c0: nat, localA: array2<T>, localB: array2<T>, localC: array2<T>)
    requires p.Valid() && r0 + bs <= p.m && l0 + bs <= p.k && c0 + bs <= p.n
    requires Square(localA, bs) && Square(localB, bs) && Square(localC, bs) && localC != localA && localC != localB
    requires forall i: nat, j: nat | i < bs && j < bs :: localA[i, j] == p.A(r0 + i, l0 + j) && localB[i, j] == p.B(l0 + i, c0 + j)
    requires forall i: nat, j: nat | i < bs && j < bs :: localC[i, j] == p.Dot(r0 + i, c0 + j, l0)
    modifies localC
    ensures forall i: nat, j: nat | i < bs && j < bs :: localC[i, j] == p.Dot(r0 + i, c0 + j, l0 + bs)
  {
    hide Problem.Dot, Problem.A, Problem.B, Problem.Valid;
    for ii := 0 to bs
      invariant forall i: nat, j: nat | i < bs && j < bs ::
                  localC[i, j] == p.Dot(r0 + i, c0 + j, if i < ii then l0 + bs else l0)
    {
      for kk := 0 to bs
        invariant forall i: nat, j: nat | i < bs && j < bs ::
                    localC[i, j] == p.Dot(r0 + i, c0 + j, if i < ii then l0 + bs else if i == ii then l0 + kk else l0)
      {
        for jj := 0 to bs
          invariant forall i: nat, j: nat | i < bs && j < bs ::
                      localC[i, j] == p.Dot(r0 + i, c0 + j,
                                            if i < ii then l0 + bs else if i > ii then l0 else if j < jj then l0 + kk + 1 else l0 + kk)
        {
          DotNext(p, r0 + ii, c0 + jj, l0 + kk);
          localC[ii, jj] := p.op.add(localC[ii, jj], p.op.mul(localA[ii, kk], localB[kk, jj]));
        }
      }
    }
  }

  lemma DotNext<T>(p: Problem<T>, i: nat, j: nat, l: nat)
    requires p.Valid() && i < p.m && j < p.n && l < p.k
    ensures p.Dot(i, j, l + 1) == p.op.add(p.Dot(i, j, l), p.op.mul(p.A(i, l), p.B(l, j)))
  {}

  predicate InTile(i: int, j: int, r0: nat, c0: nat, bs: nat) { r0 <= i < r0 + bs && c0 <= j < c0 + bs }

  /** Copies the finished tile to its place in the result, and touches no other cell. */
  method WriteBack<T>(ghost p: Problem<T>, bs: nat, ghost mBlocks: nat, nBlocks: nat, bi: nat, bj: nat, localC: array2<T>, c: array<T>)
    requires p.m == mBlocks * bs && p.n == nBlocks * bs && bi < mBlocks && bj < nBlocks
    requires Square(localC, bs) && c.Length == p.m * p.n
    modifies c
    ensures forall i: nat, j: nat | i < p.m && j < p.n ::
              p.C(c[..], i, j) == if InTile(i, j, bi * bs, bj * bs, bs) then localC[i - bi * bs, j - bj * bs] else old(p.C(c[..], i, j))
  {
    ghost var r0, c0, was := bi * bs, bj * bs, c[..];
    BlockFits(bs, mBlocks, bi);
    BlockFits(bs, nBlocks, bj);
    hide Flat2, Flat4, Problem.C;
    for ii := 0 to bs
      invariant forall i: nat, j: nat | i < p.m && j < p.n ::
                  p.C(c[..], i, j) == if InTile(i, j, r0, c0, bs) && i - r0 < ii then localC[i - r0, j - c0] else p.C(was, i, j)
    {
      for jj := 0 to bs
        invariant forall i: nat, j: nat | i < p.m && j < p.n ::
                    p.C(c[..], i, j) == if InTile(i, j, r0, c0, bs) && (i - r0 < ii || (i - r0 == ii && j - c0 < jj)) then localC[i - r0, j - c0]
                                        else p.C(was, i, j)
      {
        Reinterpret(bs, nBlocks, bi, ii, bj, jj);
        UpdateCell(p, c[..], r0 + ii, c0 + jj, localC[ii, jj]);
        ghost var before := c[..];
        c[Flat4(bs, nBlocks, bi, ii, bj, jj)] := localC[ii, jj];
        assert c[..] == before[Flat2(p.n, r0 + ii, c0 + jj) := localC[ii, jj]];
      }
    }
  }

  /** One tile of the result: the sum of the products of the tiles along k. */
  method Tile<T>(p: Problem<T>, bs: nat, ghost mBlocks: nat, kBlocks: nat, nBlocks: nat, a: array<T>, b: array<T>,
                 bi: nat, bj: nat, localA: array2<T>, localB: array2<T>, localC: array2<T>)
    requires Blocked(p, bs, mBlocks, kBlocks, nBlocks, a, b) && bi < mBlocks && bj < nBlocks
    requires Square(localA, bs) && Square(localB, bs) && Square(localC, bs) && localA != localB && localC != localA && localC != localB
    modifies localA, localB, localC
    ensures bi * bs + bs <= p.m && bj * bs + bs <= p.n && p.Valid()
    ensures forall i: nat, j: nat | i < bs && j < bs :: localC[i, j] == p.Dot(bi * bs + i, bj * bs + j, p.k)
  {
    ghost var r0, c0 := bi * bs, bj * bs;
    BlockFits(bs, mBlocks, bi);
    BlockFits(bs, nBlocks, bj);
    assert p.Valid() && p.k == kBlocks * bs && r0 + bs <= p.m && c0 + bs <= p.n;
    hide Blocked, Problem.A, Problem.B, Problem.Valid;
    Clear(bs, p.op.zero, localC);
    NoTerms(bs);
    for bk := 0 to kBlocks
      invariant Blocked(p, bs, mBlocks, kBlocks, nBlocks, a, b) && bk * bs <= p.k
      invariant forall i: nat, j: nat | i < bs && j < bs :: localC[i, j] == p.Dot(r0 + i, c0 + j, bk * bs)
    {
      BlockFits(bs, kBlocks, bk);
      Distribute(bk, 1, bs);
      hide Problem.Dot;
      Pack(p, bs, mBlocks, kBlocks, nBlocks, a, b, bi, bk, bj, r0, bk * bs, c0, localA, localB);
      Accumulate(p, bs, r0, bk * bs, c0, localA, localB, localC);
    }
  }

  lemma NoTerms(bs: nat)
    ensures 0 * bs == 0
  {}

  /** Rows bi * bs and after: one iteration of the parallel loop, with its own local tiles. */
  method Band<T(0)>(p: Problem<T>, bs: nat, ghost mBlocks: nat, kBlocks: nat, nBlocks: nat, a: array<T>, b: array<T>, c: array<T>, bi: nat)
    requires Blocked(p, bs, mBlocks, kBlocks, nBlocks, a, b) && bi < mBlocks
    requires c.Length == p.m * p.n && c != a && c != b
    modifies c
    ensures p.Valid()
    ensures forall i: nat, j: nat | i < p.m && j < p.n ::
              p.C(c[..], i, j) == if InBlock(i, bi, bs) then p.Dot(i, j, p.k) else old(p.C(c[..], i, j))
  {
    var localA, localB, localC := new T[bs, bs], new T[bs, bs], new T[bs, bs];
    ghost var r0, was := bi * bs, c[..];
    assert p.Valid() && p.m == mBlocks * bs && p.n == nBlocks * bs;
    hide Blocked, Problem.A, Problem.B, Problem.C, Problem.Dot, Problem.Valid;
    NoTerms(bs);
    for bj := 0 to nBlocks
      invariant Blocked(p, bs, mBlocks, kBlocks, nBlocks, a, b)
      invariant forall i: nat, j: nat | i < p.m && j < p.n ::
                  p.C(c[..], i, j) == if r0 <= i < r0 + bs && j < bj * bs then p.Dot(i, j, p.k) else p.C(was, i, j)
    {
      Distribute(bj, 1, bs);
      Tile(p, bs, mBlocks, kBlocks, nBlocks, a, b, bi, bj, localA, localB, localC);
      WriteBack(p, bs, mBlocks, nBlocks, bi, bj, localC, c);
    }
  }

  lemma Divided(m: nat, bs: nat)
    requires bs > 0 && m % bs == 0
    ensures m / bs * bs == m
  {}

  /** Row `i` belongs to block `x`. */
  predicate InBlock(i: nat, x: nat, bs: nat) { x * bs <= i < x * bs + bs }

  /** Some block of rows contains row `i`. */
  lemma InBand(i: nat, bs: nat, blocks: nat) returns (x: nat)
    requires bs > 0 && i < blocks * bs
    ensures x < blocks && InBlock(i, x, bs)
  {
    x := i / bs;
    assert i == x * bs + i % bs;
    if x >= blocks { Scale(blocks, x, bs); }
  }

  /** The whole product: whatever the order of the bands, every cell is the left-to-right sum of the
      naive loop, with the same additions and multiplications in the same order. */
  method MatMatMultiply<T(0)>(op: Arith<T>, m: nat, k: nat, n: nat, bs: nat, a: array<T>, b: array<T>, c: array<T>, order: seq<nat>)
    requires bs > 0 && m % bs == 0 && k % bs == 0 && n % bs == 0
    requires a.Length == m * k && b.Length == k * n && c.Length == m * n && c != a && c != b
    requires forall x :: x in order <==> 0 <= x < m / bs
    modifies c
    ensures var p := Problem(op, old(a[..]), old(b[..]), m, k, n);
            p.Valid() && forall i: nat, j: nat | i < m && j < n :: p.C(c[..], i, j) == p.Dot(i, j, k)
  {
    var mBlocks, kBlocks, nBlocks := m / bs, k / bs, n / bs;
    Divided(m, bs);
    Divided(k, bs);
    Divided(n, bs);
    var p := Problem(op, a[..], b[..], m, k, n);
    assert Blocked(p, bs, mBlocks, kBlocks, nBlocks, a, b);
    hide Problem.A, Problem.B, Problem.C, Problem.Dot, Blocked, InBlock;
    for t := 0 to |order|
      invariant Blocked(p, bs, mBlocks, kBlocks, nBlocks, a, b)
      invariant forall u: nat, i: nat, j: nat | u < t && InBlock(i, order[u], bs) && i < m && j < n ::
                  p.C(c[..], i, j) == p.Dot(i, j, k)
    {
      assert order[t] in order;
      Band(p, bs, mBlocks, kBlocks, nBlocks, a, b, c, order[t]);
    }
    forall i: nat, j: nat | i < m && j < n ensures p.C(c[..], i, j) == p.Dot(i, j, k) {
      var u := BandOf(i, bs, mBlocks, order);
    }
  }

  lemma BandOf(i: nat, bs: nat, blocks: nat, order: seq<nat>) returns (u: nat)
    requires bs > 0 && i < blocks * bs && forall x :: x in order <==> 0 <= x < blocks
    ensures u < |order| && InBlock(i, order[u], bs)
  {
    var x := InBand(i, bs, blocks);
    assert x in order;
    u :| u < |order| && order[u] == x;
  }
}
