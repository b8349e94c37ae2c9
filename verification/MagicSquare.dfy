/** The Siamese method of my_magic_square.c, for every odd size.

    The walk is summed up by a closed form: with h = n/2, the number in row i and column j is
    q*n + r + 1 where q = (i+j-h) mod n and r = (i+2j+1) mod n. */
module MagicSquare {
  // ----- remainders

  lemma AtLeast(k: int, n: int)
    requires k >= 1 && n >= 0
    ensures k * n >= n
  {
    assert (k - 1) * n == k * n - n;
  }

  lemma SmallMultiple(d: int, n: int, k: int)
    requires n > 0 && -n < d < n && d == k * n
    ensures d == 0 && k == 0
  {
    assert (-k) * n == -(k * n);
    if k >= 1 { AtLeast(k, n); } else if k <= -1 { AtLeast(-k, n); }
  }

  lemma DivMod(x: int, n: int)
    requires n > 0
    ensures x == (x / n) * n + x % n && 0 <= x % n < n
  {}

  lemma DivUnique(x: int, n: int, q: int, r: int)
    requires n > 0 && 0 <= r < n && x == q * n + r
    ensures x / n == q && x % n == r
  {
    DivMod(x, n);
    assert (x / n - q) * n == (x / n) * n - q * n;
    SmallMultiple(r - x % n, n, x / n - q);
  }

  /** Adding multiples of n does not change the remainder. */
  lemma ModShift(x: int, y: int, n: int, a: int, b: int, c: int)
    requires n > 0 && x == y + a * n + b * n + c * n
    ensures x % n == y % n
  {
    DivMod(y, n);
    assert (y / n + a + b + c) * n == (y / n) * n + a * n + b * n + c * n;
    DivUnique(x, n, y / n + a + b + c, y % n);
  }

  lemma ModSame(x: int, y: int, n: int) returns (k: int)
    requires n > 0 && x % n == y % n
    ensures x - y == k * n
  {
    DivMod(x, n);
    DivMod(y, n);
    k := x / n - y / n;
    assert k * n == (x / n) * n - (y / n) * n;
  }

  lemma ModSmall(x: int, n: int)
    requires 0 <= x < n
    ensures x % n == x
  {
    DivUnique(x, n, 0, x);
  }

  /** A remainder differs from its number by a multiple of n. */
  lemma ModRest(x: int, n: int) returns (k: int)
    requires n > 0
    ensures 0 <= x % n < n && x % n == x + k * n
  {
    DivMod(x, n);
    k := -(x / n);
    assert k * n == -((x / n) * n);
  }

  lemma NextMod(x: int, n: int)
    requires n > 0
    ensures (x + 1) % n == if x % n == n - 1 then 0 else x % n + 1
  {
    DivMod(x, n);
    assert (x / n + 1) * n == (x / n) * n + n;
    if x % n == n - 1 { DivUnique(x + 1, n, x / n + 1, 0); } else { DivUnique(x + 1, n, x / n, x % n + 1); }
  }

  /** Opposite remainders add up to n-1. */
  lemma ModMirror(x: int, y: int, n: int, k: int)
    requires n > 0 && x + y == k * n - 1
    ensures x % n + y % n == n - 1
  {
    DivMod(x, n);
    assert (k - 1 - x / n) * n == k * n - n - (x / n) * n;
    DivUnique(y, n, k - 1 - x / n, n - 1 - x % n);
  }

  // ----- the closed form

  predicate Odd(n: int) { n >= 3 && n % 2 == 1 }

  function Q(n: int, i: int, j: int): (r: int)
    requires n > 0
  {
    (i + j + n - n / 2) % n
  }

  function R(n: int, i: int, j: int): (r: int)
    requires n > 0
  {
    (i + 2 * j + 1) % n
  }

  function Value(n: int, i: int, j: int): (r: int)
    requires n > 0
  {
    Q(n, i, j) * n + R(n, i, j) + 1
  }

  /** A number is made of its quotient and remainder. */
  lemma Digits(n: int, q: int, r: int)
    requires n > 0 && 0 <= q < n && 0 <= r < n
    ensures 0 <= q * n + r < n * n && (q * n + r) / n == q && (q * n + r) % n == r
    ensures (q + 1) * n == q * n + n
    ensures q * n + r == n * n - 1 <==> q == n - 1 && r == n - 1
  {
    DivUnique(q * n + r, n, q, r);
    assert (n - 1 - q) * n == n * n - n - q * n;
    if q < n - 1 { AtLeast(n - 1 - q, n); }
    if q >= 1 { AtLeast(q, n); }
  }

  lemma ValueRange(n: int, i: int, j: int)
    requires n > 0
    ensures 0 <= Q(n, i, j) < n && 0 <= R(n, i, j) < n
    ensures 1 <= Value(n, i, j) <= n * n
    ensures (Value(n, i, j) - 1) / n == Q(n, i, j) && (Value(n, i, j) - 1) % n == R(n, i, j)
  {
    DivMod(i + j + n - n / 2, n);
    DivMod(i + 2 * j + 1, n);
    Digits(n, Q(n, i, j), R(n, i, j));
  }

  /** No number occurs twice. */
  lemma ValueInjective(n: int, i: int, j: int, i': int, j': int)
    requires n > 0 && 0 <= i < n && 0 <= j < n && 0 <= i' < n && 0 <= j' < n
    requires Value(n, i, j) == Value(n, i', j')
    ensures i == i' && j == j'
  {
    ValueRange(n, i, j);
    ValueRange(n, i', j');
    assert Q(n, i, j) == Q(n, i', j') && R(n, i, j) == R(n, i', j');
    var k := ModSame(i + j + n - n / 2, i' + j' + n - n / 2, n);
    var m := ModSame(i + 2 * j + 1, i' + 2 * j' + 1, n);
    assert (m - k) * n == m * n - k * n;
    SmallMultiple(j - j', n, m - k);
    SmallMultiple(i - i', n, k);
  }

  /** The cell of a number: every number from 1 to n*n occurs. */
  function CellOf(n: int, num: int): (r: (int, int))
    requires n > 0
  {
    var q, r := (num - 1) / n, (num - 1) % n;
    ((2 * q - r) % n, (n / 2 - q + r) % n)
  }

  lemma QuotientRange(n: int, x: int)
    requires n > 0 && 0 <= x < n * n
    ensures 0 <= x / n < n && 0 <= x % n < n
  {
    DivMod(x, n);
    var q := x / n;
    assert (q - n + 1) * n == q * n - n * n + n;
    assert (-q) * n == -(q * n);
    if q >= n { AtLeast(q - n + 1, n); }
    if q <= -1 { AtLeast(-q, n); }
  }

  lemma ValueOfCell(n: int, num: int)
    requires Odd(n) && 1 <= num <= n * n
    ensures var (i, j) := CellOf(n, num); 0 <= i < n && 0 <= j < n && Value(n, i, j) == num
  {
    var q, r, h := (num - 1) / n, (num - 1) % n, n / 2;
    QuotientRange(n, num - 1);
    DivMod(num - 1, n);
    var (i, j) := CellOf(n, num);
    var k := ModRest(2 * q - r, n);
    var m := ModRest(h - q + r, n);
    assert n == 2 * h + 1;
    CellDigits(n, i, j, q, r, k, m);
  }

  lemma CellDigits(n: int, i: int, j: int, q: int, r: int, k: int, m: int)
    requires Odd(n) && 0 <= q < n && 0 <= r < n
    requires i == 2 * q - r + k * n && j == n / 2 - q + r + m * n
    ensures Q(n, i, j) == q && R(n, i, j) == r
  {
    assert n == 2 * (n / 2) + 1;
    ModShift(i + j + n - n / 2, q, n, k, m, 1);
    ModSmall(q, n);
    assert i + 2 * j + 1 == r + k * n + m * n + (m + 1) * n by { assert (m + 1) * n == m * n + n; }
    ModShift(i + 2 * j + 1, r, n, k, m, m + 1);
    ModSmall(r, n);
  }

  // ----- one step of the walk

  /** Up and to the right: the quotient stays, the remainder goes up by one, and from n-1 to 0. */
  lemma UpRight(n: int, row: int, col: int)
    requires Odd(n) && 0 <= row < n && 0 <= col < n
    ensures var i, j := (row - 1 + n) % n, (col + 1) % n;
            && 0 <= i < n && 0 <= j < n && Q(n, i, j) == Q(n, row, col)
            && R(n, i, j) == if R(n, row, col) == n - 1 then 0 else R(n, row, col) + 1
  {
    var i, j := (row - 1 + n) % n, (col + 1) % n;
    var k := ModRest(row - 1 + n, n);
    var m := ModRest(col + 1, n);
    ModShift(i + j + n - n / 2, row + col + n - n / 2, n, k, m, 1);
    assert (m + 1) * n == m * n + n;
    ModShift(i + 2 * j + 1, (row + 2 * col + 1) + 1, n, k, m, m + 1);
    NextMod(row + 2 * col + 1, n);
  }

  /** Down: both go up by one. */
  lemma Down(n: int, row: int, col: int)
    requires Odd(n) && 0 <= row < n && 0 <= col < n
    ensures var d := (row + 1) % n;
            && 0 <= d < n
            && Q(n, d, col) == (if Q(n, row, col) == n - 1 then 0 else Q(n, row, col) + 1)
            && R(n, d, col) == if R(n, row, col) == n - 1 then 0 else R(n, row, col) + 1
  {
    var d := (row + 1) % n;
    var k := ModRest(row + 1, n);
    ModShift(d + col + n - n / 2, (row + col + n - n / 2) + 1, n, k, 0, 0);
    NextMod(row + col + n - n / 2, n);
    ModShift(d + 2 * col + 1, (row + 2 * col + 1) + 1, n, k, 0, 0);
    NextMod(row + 2 * col + 1, n);
  }

  /** Going up and to the right leads to the next number, except from a multiple of n, where it leads
      back to a cell that is already filled and the step down is taken. */
  lemma NextCell(n: int, row: int, col: int)
    requires Odd(n) && 0 <= row < n && 0 <= col < n
    ensures var num := Value(n, row, col);
            var i, j := (row - 1 + n) % n, (col + 1) % n;
            && 0 <= i < n && 0 <= j < n && 0 <= (row + 1) % n < n
            && (num % n != 0 ==> Value(n, i, j) == num + 1)
            && (num % n == 0 ==> Value(n, i, j) <= num)
            && (num % n == 0 && num < n * n ==> Value(n, (row + 1) % n, col) == num + 1)
  {
    var q, r := Q(n, row, col), R(n, row, col);
    UpRight(n, row, col);
    Down(n, row, col);
    ValueRange(n, row, col);
    Digits(n, q, r);
    if r == n - 1 { DivUnique(q * n + r + 1, n, q + 1, 0); } else { DivUnique(q * n + r + 1, n, q, r + 1); }
  }

  lemma FirstCell(n: int)
    requires Odd(n)
    ensures Value(n, 0, n / 2) == 1
  {
    DivUnique(0 + n / 2 + n - n / 2, n, 1, 0);
    DivUnique(0 + 2 * (n / 2) + 1, n, 1, 0);
  }

  // ----- the method

  /** What has been written when the next number is `num`. */
  ghost predicate FilledUpTo(a: array2<int>, n: int, num: int)
    requires n > 0 && a.Length0 == n && a.Length1 == n
    reads a
  {
    forall i, j | 0 <= i < n && 0 <= j < n :: a[i, j] == if Value(n, i, j) < num then Value(n, i, j) else 0
  }

  /** The rows of the square. */
  function Rows(a: array2<int>): (r: seq<seq<int>>)
    reads a
  {
    seq(a.Length0, i requires 0 <= i < a.Length0 reads a =>
          seq(a.Length1, j requires 0 <= j < a.Length1 reads a => a[i, j]))
  }

  /** generateMagicSquare. Sizes that are even or below 3 are refused where the size is read. */
  method Generate(n: int) returns (a: array2<int>)
    requires Odd(n)
    ensures fresh(a) && a.Length0 == n && a.Length1 == n
    ensures forall i, j | 0 <= i < n && 0 <= j < n :: a[i, j] == Value(n, i, j)
    ensures Magic(Rows(a), n)
  {
    a := new int[n, n]((i, j) => 0);
    var row, col := 0, n / 2;
    FirstCell(n);
    forall i, j | 0 <= i < n && 0 <= j < n ensures Value(n, i, j) >= 1 { ValueRange(n, i, j); }
    var num := 1;
    while num <= n * n
      invariant 1 <= num <= n * n + 1
      invariant 0 <= row < n && 0 <= col < n
      invariant num <= n * n ==> Value(n, row, col) == num
      invariant FilledUpTo(a, n, num)
    {
      // the cell is still empty: nothing is ever overwritten
      assert a[row, col] == 0;
      a[row, col] := num;
      Placed(a, n, num, row, col);
      var nextRow := (row - 1 + n) % n;
      var nextCol := (col + 1) % n;
      NextCell(n, row, col);
      ValueRange(n, nextRow, nextCol);
      if a[nextRow, nextCol] != 0 {
        nextRow := (row + 1) % n;
        nextCol := col;
      }
      row, col := nextRow, nextCol;
      num := num + 1;
    }
    forall i, j | 0 <= i < n && 0 <= j < n ensures a[i, j] == Value(n, i, j) { ValueRange(n, i, j); }
    IsMagic(Rows(a), n);
  }

  lemma Placed(a: array2<int>, n: int, num: int, row: int, col: int)
    requires n > 0 && a.Length0 == n && a.Length1 == n && 0 <= row < n && 0 <= col < n
    requires Value(n, row, col) == num && a[row, col] == num
    requires forall i, j | 0 <= i < n && 0 <= j < n && (i != row || j != col) ::
               a[i, j] == if Value(n, i, j) < num then Value(n, i, j) else 0
    ensures FilledUpTo(a, n, num + 1)
  {
    forall i, j | 0 <= i < n && 0 <= j < n
      ensures a[i, j] == if Value(n, i, j) < num + 1 then Value(n, i, j) else 0
    {
      if Value(n, i, j) == num { ValueInjective(n, i, j, row, col); }
    }
  }

  // ----- what makes it magic

  function Total(s: seq<int>): (r: int) { if s == [] then 0 else Total(s[..|s| - 1]) + s[|s| - 1] }

  ghost predicate Square(m: seq<seq<int>>, n: int) {
    n >= 0 && |m| == n && forall i | 0 <= i < n :: |m[i]| == n
  }

  function Column(m: seq<seq<int>>, n: nat, j: int): (r: seq<int>)
    requires Square(m, n) && 0 <= j < n
  {
    seq(n, i requires 0 <= i < n => m[i][j])
  }

  function Diagonal(m: seq<seq<int>>, n: nat): (r: seq<int>)
    requires Square(m, n)
  {
    seq(n, i requires 0 <= i < n => m[i][i])
  }

  function AntiDiagonal(m: seq<seq<int>>, n: nat): (r: seq<int>)
    requires Square(m, n)
  {
    seq(n, i requires 0 <= i < n => m[i][n - 1 - i])
  }

  function Opposite(m: seq<seq<int>>, n: int, i: int, j: int): (r: int)
    requires Square(m, n) && 0 <= i < n && 0 <= j < n
  {
    m[n - 1 - i][n - 1 - j]
  }

  ghost predicate Occurs(m: seq<seq<int>>, n: int, v: int)
    requires Square(m, n)
  {
    exists i, j :: 0 <= i < n && 0 <= j < n && m[i][j] == v
  }

  /** Each of 1..n*n exactly once; all rows, columns and both diagonals add up to n(n*n+1)/2; cells
      opposite through the centre add up to n*n+1. */
  ghost predicate Magic(m: seq<seq<int>>, n: int) {
    && Square(m, n)
    && (forall i, j | 0 <= i < n && 0 <= j < n :: 1 <= m[i][j] <= n * n)
    && (forall v | 1 <= v <= n * n :: Occurs(m, n, v))
    && (forall i, j, i', j' | 0 <= i < n && 0 <= j < n && 0 <= i' < n && 0 <= j' < n && m[i][j] == m[i'][j'] ::
          i == i' && j == j')
    && (forall i | 0 <= i < n :: 2 * Total(m[i]) == n * (n * n + 1))
    && (forall j | 0 <= j < n :: 2 * Total(Column(m, n, j)) == n * (n * n + 1))
    && 2 * Total(Diagonal(m, n)) == n * (n * n + 1)
    && 2 * Total(AntiDiagonal(m, n)) == n * (n * n + 1)
    && (forall i, j | 0 <= i < n && 0 <= j < n :: m[i][j] + Opposite(m, n, i, j) == n * n + 1)
  }

  /** c mod n, (c+s) mod n, ..., k terms. */
  function Residues(n: int, c: int, s: int, k: nat): (r: seq<int>)
    requires n > 0
  {
    seq(k, j requires 0 <= j < k => (c + s * j) % n)
  }

  lemma {:induction false} TotalPair(s: seq<int>, t: seq<int>, d: int)
    requires |s| == |t| && forall i | 0 <= i < |s| :: s[i] + t[|s| - 1 - i] == d
    ensures Total(s) + Total(t) == |s| * d
  {
    if s != [] {
      var k := |s| - 1;
      var s', t' := s[..k], t[1..];
      TotalPair(s', t', d);
      TotalHead(t);
      assert |s| * d == k * d + d;
    }
  }

  lemma {:induction false} TotalHead(t: seq<int>)
    requires t != []
    ensures Total(t) == t[0] + Total(t[1..])
  {
    if |t| > 1 {
      TotalHead(t[..|t| - 1]);
      assert t[1..][..|t| - 2] == t[..|t| - 1][1..];
    }
  }

  lemma {:induction false} TotalCombine(s: seq<int>, q: seq<int>, r: seq<int>, n: int)
    requires |s| == |q| == |r| && forall i | 0 <= i < |s| :: s[i] == q[i] * n + r[i] + 1
    ensures Total(s) == Total(q) * n + Total(r) + |s|
  {
    if s != [] {
      var k := |s| - 1;
      TotalCombine(s[..k], q[..k], r[..k], n);
      assert Total(q) * n == Total(q[..k]) * n + q[k] * n;
    }
  }

  lemma ResiduesEnds(n: int, c: int, s: int, k: nat)
    requires n > 0
    ensures var a := Residues(n, c, s, k + 1);
            a[0] == c % n && a[k] == (c + s * k) % n && a[1..] == Residues(n, c + s, s, k) && a[..k] == Residues(n, c, s, k)
  {
    var a, b := Residues(n, c, s, k + 1), Residues(n, c + s, s, k);
    forall j | 0 <= j < k ensures a[1..][j] == b[j] {
      assert s * (j + 1) == s * j + s;
      assert a[1..][j] == a[j + 1] == (c + s * (j + 1)) % n;
    }
    assert s * 0 == 0;
  }

  /** Starting s later drops the first term and adds one at the end. */
  lemma ResiduesShift(n: int, c: int, s: int, k: nat)
    requires n > 0
    ensures Total(Residues(n, c + s, s, k)) == Total(Residues(n, c, s, k)) - c % n + (c + s * k) % n
  {
    var a := Residues(n, c, s, k + 1);
    ResiduesEnds(n, c, s, k);
    hide Residues;
    TotalHead(a);
  }

  /** A full round of residues has the same total when it starts one step later, whatever the step. */
  lemma ResiduesRound(n: int, c: int, s: int)
    requires n > 0
    ensures Total(Residues(n, c + s, s, n)) == Total(Residues(n, c, s, n))
  {
    ResiduesShift(n, c, s, n);
    ModShift(c + s * n, c, n, s, 0, 0);
  }

  lemma {:induction false} ResiduesRounds(n: int, c: int, s: int, k: nat)
    requires n > 0
    ensures Total(Residues(n, c + k * s, s, n)) == Total(Residues(n, c, s, n))
  {
    if k > 0 {
      ResiduesRounds(n, c, s, k - 1);
      ResiduesRound(n, c + (k - 1) * s, s);
      assert c + (k - 1) * s + s == c + k * s;
    } else {
      assert c + k * s == c;
    }
  }

  lemma ResiduesPeriod(n: int, c: int, s: int, m: int)
    requires n > 0
    ensures Residues(n, c + m * n, s, n) == Residues(n, c, s, n)
  {
    forall j | 0 <= j < n ensures (c + m * n + s * j) % n == (c + s * j) % n {
      ModShift(c + m * n + s * j, c + s * j, n, m, 0, 0);
    }
  }

  /** From any start to any other in steps of 1 or 2, going round as often as it takes: since n is
      odd, an extra round changes the parity of the distance. */
  lemma Meet(n: int, d: int, s: int) returns (k: nat, m: nat)
    requires Odd(n) && (s == 1 || s == 2)
    ensures k * s == d + m * n
  {
    m := if d >= 0 then 0 else -d;
    if m >= 1 { AtLeast(n, m); assert n * m == m * n; }
    if s == 2 && (d + m * n) % 2 == 1 {
      assert (m + 1) * n == m * n + n;
      m := m + 1;
    }
    k := (d + m * n) / s;
  }

  lemma ResiduesSame(n: int, c: int, e: int, s: int)
    requires Odd(n) && (s == 1 || s == 2)
    ensures Total(Residues(n, c, s, n)) == Total(Residues(n, e, s, n))
  {
    var k, m := Meet(n, c - e, s);
    ResiduesRounds(n, e, s, k);
    assert e + k * s == c + m * n;
    ResiduesPeriod(n, c, s, m);
  }

  lemma ResiduesTotal(n: int, c: int, s: int)
    requires Odd(n) && (s == 1 || s == 2)
    ensures 2 * Total(Residues(n, c, s, n)) == n * (n - 1)
  {
    // the mirror image starts at e, and is a round with the same step
    var e := -1 - c - s * (n - 1);
    var a, b := Residues(n, c, s, n), Residues(n, e, s, n);
    forall i | 0 <= i < n ensures a[i] + b[n - 1 - i] == n - 1 {
      assert s * (n - 1 - i) == s * (n - 1) - s * i;
      ModMirror(c + s * i, e + s * (n - 1 - i), n, 0);
    }
    TotalPair(a, b, n - 1);
    ResiduesSame(n, c, e, s);
  }

  lemma LineTotal(n: int, line: seq<int>, c: int, d: int, s: int, s': int)
    requires Odd(n) && |line| == n && (s == 1 || s == 2) && (s' == 1 || s' == 2)
    requires forall k | 0 <= k < n :: line[k] == ((c + s * k) % n) * n + (d + s' * k) % n + 1
    ensures 2 * Total(line) == n * (n * n + 1)
  {
    var q, r := Residues(n, c, s, n), Residues(n, d, s', n);
    TotalCombine(line, q, r, n);
    ResiduesTotal(n, c, s);
    ResiduesTotal(n, d, s');
    LineArithmetic(n, Total(q), Total(r));
  }

  lemma LineArithmetic(n: int, q: int, r: int)
    requires 2 * q == n * (n - 1) && 2 * r == n * (n - 1)
    ensures 2 * (q * n + r + n) == n * (n * n + 1)
  {
    assert 2 * (q * n) == (2 * q) * n == (n * (n - 1)) * n;
    assert n * (n - 1) == n * n - n;
    assert (n * n - n) * n == n * n * n - n * n;
    assert n * (n * n + 1) == n * n * n + n;
  }

  lemma OppositeSum(n: int, i: int, j: int)
    requires Odd(n)
    ensures Value(n, i, j) + Value(n, n - 1 - i, n - 1 - j) == n * n + 1
  {
    var h := n / 2;
    assert n == 2 * h + 1;
    ModMirror(i + j + n - h, (n - 1 - i) + (n - 1 - j) + n - h, n, 3);
    ModMirror(i + 2 * j + 1, (n - 1 - i) + 2 * (n - 1 - j) + 1, n, 3);
    var q, q' := Q(n, i, j), Q(n, n - 1 - i, n - 1 - j);
    assert q * n + q' * n == (q + q') * n;
    assert (n - 1) * n == n * n - n;
  }

  ghost predicate Siamese(m: seq<seq<int>>, n: int) {
    n > 0 && Square(m, n) && forall i, j | 0 <= i < n && 0 <= j < n :: m[i][j] == Value(n, i, j)
  }

  lemma OccursOnce(m: seq<seq<int>>, n: int, v: int)
    requires Odd(n) && Siamese(m, n) && 1 <= v <= n * n
    ensures Occurs(m, n, v)
  {
    hide Odd, Value, CellOf;
    ValueOfCell(n, v);
    var (i, j) := CellOf(n, v);
    assert m[i][j] == v;
  }

  lemma IsMagic(m: seq<seq<int>>, n: int)
    requires Odd(n) && Siamese(m, n)
    ensures Magic(m, n)
  {
    hide Value, Odd, Total, Occurs;
    forall i, j | 0 <= i < n && 0 <= j < n ensures 1 <= m[i][j] <= n * n { ValueRange(n, i, j); }
    forall v | 1 <= v <= n * n ensures Occurs(m, n, v) { OccursOnce(m, n, v); }
    forall i, j, i', j' | 0 <= i < n && 0 <= j < n && 0 <= i' < n && 0 <= j' < n && m[i][j] == m[i'][j']
      ensures i == i' && j == j'
    {
      ValueInjective(n, i, j, i', j');
    }
    forall i | 0 <= i < n ensures 2 * Total(m[i]) == n * (n * n + 1) { RowTotal(m, n, i); }
    forall j | 0 <= j < n ensures 2 * Total(Column(m, n, j)) == n * (n * n + 1) { ColumnTotal(m, n, j); }
    forall i, j | 0 <= i < n && 0 <= j < n ensures m[i][j] + Opposite(m, n, i, j) == n * n + 1 { OppositeSum(n, i, j); }
    DiagonalTotals(m, n);
  }

  /** The diagonals run through the centre: each is its own mirror image. */
  lemma DiagonalTotals(m: seq<seq<int>>, n: int)
    requires Odd(n) && Siamese(m, n)
    ensures 2 * Total(Diagonal(m, n)) == n * (n * n + 1) && 2 * Total(AntiDiagonal(m, n)) == n * (n * n + 1)
  {
    hide Value;
    var d, e := Diagonal(m, n), AntiDiagonal(m, n);
    forall i | 0 <= i < n ensures d[i] + d[n - 1 - i] == n * n + 1 && e[i] + e[n - 1 - i] == n * n + 1 {
      OppositeSum(n, i, i);
      OppositeSum(n, i, n - 1 - i);
    }
    TotalPair(d, d, n * n + 1);
    TotalPair(e, e, n * n + 1);
  }

  lemma RowTotal(m: seq<seq<int>>, n: int, i: int)
    requires Odd(n) && Square(m, n) && 0 <= i < n
    requires forall j | 0 <= j < n :: m[i][j] == Value(n, i, j)
    ensures 2 * Total(m[i]) == n * (n * n + 1)
  {
    forall k | 0 <= k < n ensures m[i][k] == ((i + n - n / 2 + 1 * k) % n) * n + (i + 1 + 2 * k) % n + 1 {
      assert i + k + n - n / 2 == i + n - n / 2 + 1 * k;
      assert i + 2 * k + 1 == i + 1 + 2 * k;
    }
    LineTotal(n, m[i], i + n - n / 2, i + 1, 1, 2);
  }

  lemma ColumnTotal(m: seq<seq<int>>, n: int, j: int)
    requires Odd(n) && Square(m, n) && 0 <= j < n
    requires forall i, j | 0 <= i < n && 0 <= j < n :: m[i][j] == Value(n, i, j)
    ensures 2 * Total(Column(m, n, j)) == n * (n * n + 1)
  {
    forall k | 0 <= k < n
      ensures Column(m, n, j)[k] == ((j + n - n / 2 + 1 * k) % n) * n + (2 * j + 1 + 1 * k) % n + 1
    {
      assert k + j + n - n / 2 == j + n - n / 2 + 1 * k;
      assert k + 2 * j + 1 == 2 * j + 1 + 1 * k;
    }
    LineTotal(n, Column(m, n, j), j + n - n / 2, 2 * j + 1, 1, 1);
  }
}
