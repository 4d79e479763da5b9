/**
 * Row-major indexing of an n-by-n grid, the layout both the 8-puzzle board
 * and the percolation grid use, and Java's truncating integer division.
 *
 * The index of cell (r, c) is defined by counting, row r starting n cells
 * after row r - 1, so that quantified facts about cells do not carry
 * products; IndexIsProduct ties it to r * n + c.
 */
module RowMajor {

  /** The index of the cell in row r, column c of a grid n cells wide. */
  function Index(r: nat, c: nat, n: nat): nat {
    if r == 0 then c else n + Index(r - 1, c, n)
  }

  lemma {:induction false} IndexIsProduct(r: nat, c: nat, n: nat)
    ensures Index(r, c, n) == r * n + c
  {
    if r > 0 {
      IndexIsProduct(r - 1, c, n);
      assert r * n == (r - 1) * n + n;
    }
  }

  /** The number of cells of an n-by-n grid: the index just past its last row. */
  function GridCells(n: nat): nat {
    Index(n, 0, n)
  }

  /** An n-by-n grid has n * n cells. */
  lemma GridSize(n: nat)
    ensures GridCells(n) == n * n
  {
    IndexIsProduct(n, 0, n);
  }

  /** Within a row, cells are consecutive. */
  lemma {:induction false} IndexShift(r: nat, c: nat, n: nat)
    ensures Index(r, c, n) == Index(r, 0, n) + c
  {
    if r > 0 {
      IndexShift(r - 1, c, n);
    }
  }

  /** Every cell of a row comes before the start of any later row. */
  lemma {:induction false} IndexBefore(r: nat, i: nat, c: nat, n: nat)
    requires r < i && c < n
    ensures Index(r, c, n) < Index(i, 0, n)
    decreases i
  {
    if r + 1 < i {
      IndexBefore(r, i - 1, c, n);
    } else {
      IndexShift(r, c, n);
    }
  }

  /** A cell of the grid has an index below n * n. */
  lemma IndexInGrid(r: nat, c: nat, n: nat)
    requires r < n && c < n
    ensures Index(r, c, n) < GridCells(n)
  {
    IndexShift(r, c, n);
    if r + 1 < n {
      IndexBefore(r, n, c, n);
    } else {
      IndexShift(r, n, n);
    }
  }

  /** Distinct cells have distinct indices. */
  lemma IndexInjective(r: nat, c: nat, r': nat, c': nat, n: nat)
    requires c < n && c' < n
    requires Index(r, c, n) == Index(r', c', n)
    ensures r == r' && c == c'
  {
    IndexShift(r, c, n);
    IndexShift(r', c', n);
    if r < r' {
      IndexBefore(r, r', c, n);
    } else if r' < r {
      IndexBefore(r', r, c', n);
    }
  }

  /** Division and remainder by n recover the cell of an index. */
  lemma CellOfIndex(r: nat, c: nat, n: nat)
    requires c < n
    ensures Index(r, c, n) / n == r && Index(r, c, n) % n == c
  {
    IndexIsProduct(r, c, n);
    CellOfProduct(r, c, n);
  }

  lemma CellOfProduct(r: nat, c: nat, n: nat)
    requires c < n
    ensures (r * n + c) / n == r && (r * n + c) % n == c
  {
    var k := r * n + c;
    var q, m := k / n, k % n;
    assert k == q * n + m && 0 <= m < n;
    IndexIsProduct(r, c, n);
    IndexIsProduct(q, m, n);
    IndexInjective(r, c, q, m, n);
  }

  /** Every index in [0, n * n) is the index of the cell (k / n, k % n). */
  lemma IndexOfCell(k: nat, n: nat)
    requires k < GridCells(n)
    ensures 0 <= k / n < n && 0 <= k % n < n
    ensures Index(k / n, k % n, n) == k
  {
    var q := k / n;
    IndexIsProduct(q, k % n, n);
    if q >= n {
      GridSize(n);
      IndexShift(q, k % n, n);
      if q > n {
        IndexBefore(n, q, 0, n);
      }
    }
  }

  /** Counting 1..k, the quotient by n steps up exactly at the multiples of n. */
  lemma NextQuotient(k: nat, n: nat)
    requires k >= 1 && n > 0
    ensures k / n == (k - 1) / n + (if k % n == 0 then 1 else 0)
  {
    var q, r := (k - 1) / n, (k - 1) % n;
    assert k == q * n + r + 1;
    if r + 1 == n {
      assert k == (q + 1) * n + 0;
      CellOfProduct(q + 1, 0, n);
    } else {
      CellOfProduct(q, r + 1, n);
    }
  }

  /**
   * Java's `/` on int: rounds toward zero, so the quotient has the
   * dividend's sign and leaves a remainder of that sign below b in size.
   */
  function JavaDiv(a: int, b: int): (q: int)
    requires b > 0
    ensures a >= 0 ==> q >= 0 && 0 <= a - q * b < b
    ensures a < 0 ==> q <= 0 && -b < a - q * b <= 0
  {
    if a >= 0 then a / b else -((-a) / b)
  }

  /** Java's `%` on int: takes the sign of the dividend. */
  function JavaRem(a: int, b: int): (r: int)
    requires b > 0
    ensures a >= 0 ==> 0 <= r < b
    ensures a < 0 ==> -b < r <= 0
  {
    if a >= 0 then a % b else -((-a) % b)
  }

  /** Java's quotient and remainder recompose the dividend. */
  lemma JavaDivRem(a: int, b: int)
    requires b > 0
    ensures a == JavaDiv(a, b) * b + JavaRem(a, b)
  {
    if a < 0 {
      assert -a == ((-a) / b) * b + (-a) % b;
    }
  }
}
