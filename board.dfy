/**
 * The 8-puzzle board (Board.java): an n-by-n grid of blocks stored row by
 * row in an int array, 0 standing for the blank. The goal puts block i+1 at
 * index i and the blank last.
 */
module Puzzle {
  import opened Wrappers
  import opened RowMajor
  import opened Text

  // ---------------------------------------------------------------------------
  // The cells of a board, read row by row

  /** `cells` lists the top-left n-by-n blocks of `blocks` row by row. */
  ghost predicate IsRowMajor(cells: seq<int>, blocks: array2<int>, n: nat)
    reads blocks
  {
    |cells| == GridCells(n) && n <= blocks.Length0 && n <= blocks.Length1 &&
    forall i, j :: 0 <= i < n && 0 <= j < n ==> Index(i, j, n) < |cells| && cells[Index(i, j, n)] == blocks[i, j]
  }

  /** A grid determines its row-by-row listing. */
  lemma RowMajorUnique(s: seq<int>, t: seq<int>, blocks: array2<int>, n: nat)
    requires IsRowMajor(s, blocks, n) && IsRowMajor(t, blocks, n)
    ensures s == t
  {
    forall k | 0 <= k < |s| ensures s[k] == t[k] {
      IndexOfCell(k, n);
      var i, j := k / n, k % n;
      assert s[Index(i, j, n)] == blocks[i, j] == t[Index(i, j, n)];
    }
  }

  /** Every block is the blank or the block the goal puts at its index. */
  predicate InPlace(cells: seq<int>) {
    forall i :: 0 <= i < |cells| ==> cells[i] == 0 || cells[i] == i + 1
  }

  /**
   * The hamming count: blocks that are neither the blank nor in their goal
   * place. It never counts a blank, and is zero exactly when every block is
   * in place.
   */
  function Misplaced(cells: seq<int>): (h: nat)
    ensures h + multiset(cells)[0] <= |cells|
    ensures h == 0 <==> InPlace(cells)
  {
    if cells == [] then 0
    else
      var init := cells[..|cells| - 1];
      var last := cells[|cells| - 1];
      assert cells == init + [last];
      assert InPlace(cells) <==> InPlace(init) && (last == 0 || last == |cells|) by {
        if InPlace(init) && (last == 0 || last == |cells|) {
          forall i | 0 <= i < |cells| ensures cells[i] == 0 || cells[i] == i + 1 {
            if i < |init| {
              assert cells[i] == init[i];
            }
          }
        }
        if InPlace(cells) {
          forall i | 0 <= i < |init| ensures init[i] == 0 || init[i] == i + 1 {
            assert init[i] == cells[i];
          }
        }
      }
      Misplaced(init) + (if last != 0 && last != |cells| then 1 else 0)
  }

  function Abs(x: int): nat {
    if x < 0 then -x else x
  }

  /**
   * calculateManhattanDistance as written: block b is measured against row
   * (b - 1) % n and column (b - 1) / n, with Java's truncating operators;
   * the blank costs nothing.
   */
  function Term(block: int, row: int, col: int, n: nat): (d: nat)
    requires n > 0
    ensures block == 0 ==> d == 0
  {
    var targetRow := JavaRem(block - 1, n);
    var targetCol := JavaDiv(block - 1, n);
    if block == 0 then 0 else Abs(row - targetRow) + Abs(col - targetCol)
  }

  /** The manhattan sum as written over the first k cells. */
  function ManhattanSum(cells: seq<int>, n: nat, k: nat): nat
    requires k <= |cells| && (n > 0 || k == 0)
  {
    if k == 0 then 0
    else ManhattanSum(cells, n, k - 1) + Term(cells[k - 1], (k - 1) / n, (k - 1) % n, n)
  }

  /** The Manhattan sum up to the cell after (i, j) adds that cell's distance to the sum up to (i, j). */
  lemma ManhattanStep(cells: seq<int>, n: nat, i: nat, j: nat)
    requires j < n && Index(i, j, n) < |cells|
    ensures Index(i, 0, n) + j == Index(i, j, n)
    ensures ManhattanSum(cells, n, Index(i, j, n) + 1) == ManhattanSum(cells, n, Index(i, j, n)) + Term(cells[Index(i, j, n)], i, j, n)
  {
    IndexShift(i, j, n);
    CellOfIndex(i, j, n);
  }

  /**
   * The grid distance from (row, col) to the goal cell of `block`, which is
   * row (b - 1) / n and column (b - 1) % n.
   */
  function IntendedTerm(block: int, row: int, col: int, n: nat): (d: nat)
    requires n > 0
    ensures block == 0 ==> d == 0
  {
    if block == 0 then 0 else Abs(row - JavaDiv(block - 1, n)) + Abs(col - JavaRem(block - 1, n))
  }

  /** The intended manhattan sum over the first k cells. */
  function IntendedManhattan(cells: seq<int>, n: nat, k: nat): nat
    requires k <= |cells| && (n > 0 || k == 0)
  {
    if k == 0 then 0
    else IntendedManhattan(cells, n, k - 1) + IntendedTerm(cells[k - 1], (k - 1) / n, (k - 1) % n, n)
  }

  /** The term as written is the intended distance of the transposed cell. */
  lemma TermIsTransposed(block: int, row: int, col: int, n: nat)
    requires n > 0
    ensures Term(block, row, col, n) == IntendedTerm(block, col, row, n)
  {
  }

  /** A cell's intended distance is zero exactly when it holds the blank or its own goal block. */
  lemma IntendedTermZero(block: int, k: nat, n: nat)
    requires n > 0
    ensures IntendedTerm(block, k / n, k % n, n) == 0 <==> block == 0 || block == k + 1
  {
    if block != 0 && IntendedTerm(block, k / n, k % n, n) == 0 {
      assert JavaDiv(block - 1, n) == k / n && JavaRem(block - 1, n) == k % n;
      JavaDivRem(block - 1, n);
      assert k == (k / n) * n + k % n;
    }
  }

  /** The intended manhattan sum is zero exactly when the hamming count is: both say every block is in place. */
  lemma {:induction false} IntendedManhattanZeroIffInPlace(cells: seq<int>, n: nat, k: nat)
    requires k <= |cells| && (n > 0 || k == 0)
    ensures IntendedManhattan(cells, n, k) == 0 <==> InPlace(cells[..k])
    ensures IntendedManhattan(cells, n, k) == 0 <==> Misplaced(cells[..k]) == 0
  {
    if k > 0 {
      IntendedManhattanZeroIffInPlace(cells, n, k - 1);
      IntendedTermZero(cells[k - 1], k - 1, n);
      var pre := cells[..k];
      assert pre[..k - 1] == cells[..k - 1];
      assert InPlace(pre) <==> InPlace(pre[..k - 1]) && (pre[k - 1] == 0 || pre[k - 1] == k) by {
        if InPlace(pre[..k - 1]) && (pre[k - 1] == 0 || pre[k - 1] == k) {
          forall i | 0 <= i < k ensures pre[i] == 0 || pre[i] == i + 1 {
            if i < k - 1 {
              assert pre[i] == pre[..k - 1][i];
            }
          }
        }
      }
    }
  }

  /** The 3-by-3 goal board. */
  const SolvedThree: seq<int> := [1, 2, 3, 4, 5, 6, 7, 8, 0]

  /** As written, the manhattan sum of the solved 3-by-3 board is 16, not 0. */
  lemma ManhattanOfSolvedBoardAsWritten()
    ensures Misplaced(SolvedThree) == 0
    ensures ManhattanSum(SolvedThree, 3, 9) == 16
    ensures IntendedManhattan(SolvedThree, 3, 9) == 0
  {
    IntendedManhattanZeroIffInPlace(SolvedThree, 3, 9);
    assert SolvedThree[..9] == SolvedThree;
  }

  // ---------------------------------------------------------------------------
  // Exchanging two blocks

  /** The cells with the blocks at `a` and `b` exchanged. */
  function Swapped(cells: seq<int>, a: nat, b: nat): (r: seq<int>)
    requires a < |cells| && b < |cells|
    ensures |r| == |cells| && r[a] == cells[b] && r[b] == cells[a]
    ensures forall i :: 0 <= i < |cells| && i != a && i != b ==> r[i] == cells[i]
  {
    cells[a := cells[b]][b := cells[a]]
  }

  /** An exchange keeps the blocks and undoes itself. */
  lemma SwappedFacts(cells: seq<int>, a: nat, b: nat)
    requires a < |cells| && b < |cells|
    ensures multiset(Swapped(cells, a, b)) == multiset(cells)
    ensures Swapped(Swapped(cells, a, b), a, b) == cells
  {
  }

  /** How twin's scan ends: on a pair, by reading past the end, or with nothing found. */
  datatype Scan = NoPair | PastEnd | PairAt(i: nat)

  /**
   * twin's loop from index `from`: the first non-blank block whose successor
   * is non-blank; a non-blank last block with no such pair before it makes
   * the loop read one past the end.
   */
  function TwinScan(cells: seq<int>, from: nat): (s: Scan)
    requires from <= |cells|
    ensures s.PairAt? ==>
              from <= s.i && s.i + 1 < |cells| && cells[s.i] != 0 && cells[s.i + 1] != 0 &&
              forall j :: from <= j < s.i ==> cells[j] == 0 || cells[j + 1] == 0
    ensures s.PastEnd? ==>
              from < |cells| && cells[|cells| - 1] != 0 &&
              forall j :: from <= j < |cells| - 1 ==> cells[j] == 0 || cells[j + 1] == 0
    ensures s.NoPair? ==>
              (from < |cells| ==> cells[|cells| - 1] == 0) &&
              forall j :: from <= j < |cells| - 1 ==> cells[j] == 0 || cells[j + 1] == 0
    decreases |cells| - from
  {
    if from == |cells| then NoPair
    else if cells[from] != 0 && from + 1 == |cells| then PastEnd
    else if cells[from] != 0 && cells[from + 1] != 0 then PairAt(from)
    else TwinScan(cells, from + 1)
  }

  /**
   * The twin as written fails on the 2-by-2 board with rows [0, 1] and
   * [2, 3]: its first pair of non-blank neighbours in the array, 1 and 2,
   * straddles two rows, and the swap reaches column 2.
   */
  lemma TwinOfTwoByTwoFails()
    ensures TwinScan([0, 1, 2, 3], 0) == PairAt(1) && 1 % 2 == 2 - 1
  {
  }

  /** The first index from `from` holding two non-blank blocks side by side in one row. */
  function RowPair(cells: seq<int>, n: nat, from: nat): (r: Option<nat>)
    requires from <= |cells| && n > 0
    ensures r.Some? ==>
              from <= r.value && r.value + 1 < |cells| && r.value % n < n - 1 &&
              cells[r.value] != 0 && cells[r.value + 1] != 0
    ensures r.None? ==>
              forall j :: from <= j < |cells| - 1 && j % n < n - 1 ==> cells[j] == 0 || cells[j + 1] == 0
    decreases |cells| - from
  {
    if from + 1 >= |cells| then None
    else if from % n < n - 1 && cells[from] != 0 && cells[from + 1] != 0 then Some(from)
    else RowPair(cells, n, from + 1)
  }

  lemma TwoBlanks(cells: seq<int>, a: nat, b: nat)
    requires a < b < |cells| && cells[a] == 0 && cells[b] == 0
    ensures multiset(cells)[0] >= 2
  {
    assert cells == cells[..b] + [cells[b]] + cells[b + 1..];
    assert cells[..b][a] == 0;
  }

  /**
   * The evidently intended twin exchanges two non-blank blocks of one row.
   * On any board of dimension at least 2 with at most one blank such a pair
   * exists, so the corrected twin never leaves the grid.
   */
  lemma TwinPairExists(cells: seq<int>, n: nat)
    requires n >= 2 && |cells| == n * n && multiset(cells)[0] <= 1
    ensures RowPair(cells, n, 0).Some?
  {
    GridSize(n);
    IndexShift(1, 1, n);
    IndexBefore(1, n, 1, n);
    CellOfIndex(0, 0, n);
    CellOfIndex(0, 1, n);
    CellOfIndex(1, 0, n);
    if cells[0] == 0 || cells[1] == 0 {
      if cells[n] == 0 {
        TwoBlanks(cells, if cells[0] == 0 then 0 else 1, n);
      } else if cells[n + 1] == 0 {
        TwoBlanks(cells, if cells[0] == 0 then 0 else 1, n + 1);
      }
    }
  }

  // ---------------------------------------------------------------------------
  // Neighbours

  /** The index of the first blank, or |cells| if there is none. */
  function FirstBlank(cells: seq<int>, from: nat): (k: nat)
    requires from <= |cells|
    ensures from <= k <= |cells|
    ensures k < |cells| ==> cells[k] == 0
    ensures forall j :: from <= j < k ==> cells[j] != 0
    decreases |cells| - from
  {
    if from == |cells| || cells[from] == 0 then from else FirstBlank(cells, from + 1)
  }

  /** The cells next to (row, col) inside an n-by-n grid, in the order up, down, left, right. */
  function Moves(row: nat, col: nat, n: nat): seq<(nat, nat)> {
    Up(row, col) + Down(row, col, n) + Left(row, col) + Right(row, col, n)
  }

  function Up(row: nat, col: nat): seq<(nat, nat)> {
    if row > 0 then [(row - 1, col)] else []
  }

  function Down(row: nat, col: nat, n: nat): seq<(nat, nat)> {
    if row < n - 1 then [(row + 1, col)] else []
  }

  function Left(row: nat, col: nat): seq<(nat, nat)> {
    if col > 0 then [(row, col - 1)] else []
  }

  function Right(row: nat, col: nat, n: nat): seq<(nat, nat)> {
    if col < n - 1 then [(row, col + 1)] else []
  }

  /**
   * From a cell of the grid, every move lands in the grid one step away, no
   * cell is listed twice, and there are between 2 and 4 moves once n >= 2.
   */
  lemma MovesAreSlides(row: nat, col: nat, n: nat)
    requires row < n && col < n
    ensures forall m :: m in Moves(row, col, n) ==>
              m.0 < n && m.1 < n && Abs(m.0 - row) + Abs(m.1 - col) == 1
    ensures forall i, j :: 0 <= i < j < |Moves(row, col, n)| ==> Moves(row, col, n)[i] != Moves(row, col, n)[j]
    ensures n >= 2 ==> 2 <= |Moves(row, col, n)| <= 4
  {
  }

  /** Every move from a cell leads back to it. */
  lemma MovesAreReversible(row: nat, col: nat, n: nat, m: (nat, nat))
    requires row < n && col < n && m in Moves(row, col, n)
    ensures (row, col) in Moves(m.0, m.1, n)
  {
  }

  // ---------------------------------------------------------------------------
  // toString

  /** The body of toString for the first k cells: a `%2d ` field each, a newline after every n-th. */
  function Rows(cells: seq<int>, n: nat, k: nat): string
    requires k <= |cells| && (n > 0 || k == 0)
  {
    if k == 0 then ""
    else Rows(cells, n, k - 1) + FormatInt(cells[k - 1], 2) + " " + (if k % n == 0 then "\n" else "")
  }

  /** The number of multiples of n in 1..k: the full rows among the first k cells. */
  function FullRows(k: nat, n: nat): (r: nat)
    requires n > 0
    ensures r == k / n
  {
    if k == 0 then 0
    else
      NextQuotient(k, n);
      FullRows(k - 1, n) + (if k % n == 0 then 1 else 0)
  }

  /** With every block in [-9, 99], each field is 3 characters and one newline closes each full row. */
  lemma {:induction false} RowsLength(cells: seq<int>, n: nat, k: nat)
    requires k <= |cells| && n > 0
    requires forall i :: 0 <= i < |cells| ==> -9 <= cells[i] <= 99
    ensures |Rows(cells, n, k)| == 3 * k + FullRows(k, n)
  {
    if k > 0 {
      RowsLength(cells, n, k - 1);
      FormatTwoWide(cells[k - 1]);
    }
  }

  /** A board whose blocks are in [-9, 99] prints as its dimension line followed by n lines of 3n characters each. */
  lemma RenderLength(cells: seq<int>, n: nat)
    requires n > 0 && |cells| == n * n
    requires forall i :: 0 <= i < |cells| ==> -9 <= cells[i] <= 99
    ensures |IntToString(n) + "\n" + Rows(cells, n, |cells|)| == |IntToString(n)| + 1 + 3 * (n * n) + n
  {
    RowsLength(cells, n, n * n);
    GridSize(n);
    CellOfIndex(n, 0, n);
  }

  // ---------------------------------------------------------------------------
  // Copying one row between the grid and the flat array

  /** The inner loop of the constructor: row i of the grid goes to its place in the flat array. */
  method FlattenRow(board: array<int>, blocks: array2<int>, m: nat, i: nat)
    requires m <= blocks.Length0 && m <= blocks.Length1 && i < m && board.Length == GridCells(m)
    modifies board
    ensures forall r, c :: 0 <= r <= i && 0 <= c < m ==> Index(r, c, m) < board.Length
    ensures forall r, c :: 0 <= r < i && 0 <= c < m ==> board[Index(r, c, m)] == old(board[Index(r, c, m)])
    ensures forall c :: 0 <= c < m ==> board[Index(i, c, m)] == blocks[i, c]
  {
    IndexShift(i, m - 1, m);
    IndexBefore(i, m, m - 1, m);
    var index := Index(i, 0, m);
    for j := 0 to m
      invariant index == Index(i, 0, m) + j
      invariant forall k :: 0 <= k < Index(i, 0, m) ==> board[k] == old(board[k])
      invariant forall c :: 0 <= c < j ==> board[Index(i, 0, m) + c] == blocks[i, c]
    {
      board[index] := blocks[i, j];
      index := index + 1;
    }
    forall r, c | 0 <= r <= i && 0 <= c < m ensures Index(r, c, m) < board.Length {
      IndexShift(r, c, m);
      if r < i {
        IndexBefore(r, i, c, m);
      }
    }
    forall r, c | 0 <= r < i && 0 <= c < m ensures board[Index(r, c, m)] == old(board[Index(r, c, m)]) {
      IndexBefore(r, i, c, m);
    }
    forall c | 0 <= c < m ensures board[Index(i, c, m)] == blocks[i, c] {
      IndexShift(i, c, m);
    }
  }

  /** The inner loop of convertTo2dArray: row i of the flat array goes to row i of the grid. */
  method FillRow(board2d: array2<int>, board: seq<int>, n: nat, i: nat)
    requires board2d.Length0 == n && board2d.Length1 == n && i < n && |board| == GridCells(n)
    modifies board2d
    ensures forall r, c :: 0 <= r <= i && 0 <= c < n ==> Index(r, c, n) < |board|
    ensures forall r, c :: 0 <= r < n && r != i && 0 <= c < n ==> board2d[r, c] == old(board2d[r, c])
    ensures forall c :: 0 <= c < n ==> board2d[i, c] == board[Index(i, c, n)]
  {
    IndexShift(i, n - 1, n);
    IndexBefore(i, n, n - 1, n);
    var index := Index(i, 0, n);
    for j := 0 to n
      invariant index == Index(i, 0, n) + j
      invariant forall r, c :: 0 <= r < n && r != i && 0 <= c < n ==> board2d[r, c] == old(board2d[r, c])
      invariant forall c :: 0 <= c < j ==> board2d[i, c] == board[Index(i, 0, n) + c]
    {
      board2d[i, j] := board[index];
      index := index + 1;
    }
    forall r, c | 0 <= r <= i && 0 <= c < n ensures Index(r, c, n) < |board| {
      IndexShift(r, c, n);
      if r < i {
        IndexBefore(r, i, c, n);
      }
    }
    forall c | 0 <= c < n ensures board2d[i, c] == board[Index(i, c, n)] {
      IndexShift(i, c, n);
    }
  }

  // ---------------------------------------------------------------------------
  // The board

  class Board {
    const n: nat
    const board: seq<int>

    ghost predicate Valid() {
      |board| == GridCells(n)
    }

    /** Board(blocks): the n-by-n grid, n being the number of rows, flattened row by row. */
    constructor (blocks: array2<int>)
      requires blocks.Length0 <= blocks.Length1
      ensures Valid() && n == blocks.Length0
      ensures IsRowMajor(board, blocks, n)
    {
      var m := blocks.Length0;
      var cells := new int[GridCells(m)];
      for i := 0 to m
        invariant forall r, c :: 0 <= r < i && 0 <= c < m ==> Index(r, c, m) < cells.Length && cells[Index(r, c, m)] == blocks[r, c]
      {
        label before:
        FlattenRow(cells, blocks, m, i);
        forall r, c | 0 <= r < i + 1 && 0 <= c < m
          ensures Index(r, c, m) < cells.Length && cells[Index(r, c, m)] == blocks[r, c]
        {
          if r < i {
            assert cells[Index(r, c, m)] == old@before(cells[Index(r, c, m)]);
          }
        }
      }
      n := m;
      board := cells[..];
    }

    /** dimension: the board has n * n cells. */
    function Dimension(): (d: nat)
      requires Valid()
      ensures d * d == |board|
    {
      GridSize(n);
      n
    }

    /** hamming: the number of blocks out of place, counted by a scan of the cells. */
    method Hamming() returns (h: nat)
      requires Valid()
      ensures h == Misplaced(board)
      ensures h + multiset(board)[0] <= |board|
      ensures h == 0 <==> InPlace(board)
    {
      h := 0;
      for i := 0 to |board|
        invariant h == Misplaced(board[..i])
      {
        assert board[..i + 1][..i] == board[..i];
        if board[i] != 0 && board[i] != i + 1 {
          h := h + 1;
        }
      }
      assert board[..|board|] == board;
    }

    /** convertTo2dArray: a fresh n-by-n copy of the board. */
    method ConvertTo2dArray() returns (board2d: array2<int>)
      requires Valid()
      ensures fresh(board2d) && board2d.Length0 == n && board2d.Length1 == n
      ensures IsRowMajor(board, board2d, n)
    {
      board2d := new int[n, n];
      for i := 0 to n
        invariant forall r, c :: 0 <= r < i && 0 <= c < n ==> Index(r, c, n) < |board| && board2d[r, c] == board[Index(r, c, n)]
      {
        label before:
        FillRow(board2d, board, n, i);
        forall r, c | 0 <= r < i + 1 && 0 <= c < n
          ensures Index(r, c, n) < |board| && board2d[r, c] == board[Index(r, c, n)]
        {
          if r < i {
            assert board2d[r, c] == old@before(board2d[r, c]);
          }
        }
      }
    }

    /** manhattan: the sum as written over the grid, row by row. */
    method Manhattan() returns (sum: nat)
      requires Valid()
      ensures sum == ManhattanSum(board, n, |board|)
    {
      sum := 0;
      var blocks := ConvertTo2dArray();
      for i := 0 to n
        modifies {}
        invariant Index(i, 0, n) <= |board|
        invariant sum == ManhattanSum(board, n, Index(i, 0, n))
      {
        sum := AddRow(blocks, i, sum);
      }
    }

    /** The inner loop of manhattan: the distances of row i added to the sum over the rows above it. */
    method AddRow(blocks: array2<int>, i: nat, sum0: nat) returns (sum: nat)
      requires Valid() && i < n && IsRowMajor(board, blocks, n)
      requires sum0 == ManhattanSum(board, n, Index(i, 0, n))
      ensures Index(i + 1, 0, n) <= |board|
      ensures sum == ManhattanSum(board, n, Index(i + 1, 0, n))
    {
      IndexShift(i, n - 1, n);
      IndexBefore(i, n, n - 1, n);
      sum := sum0;
      for j := 0 to n
        invariant Index(i, 0, n) + n <= |board|
        invariant sum == ManhattanSum(board, n, Index(i, 0, n) + j)
      {
        ManhattanStep(board, n, i, j);
        assert blocks[i, j] == board[Index(i, j, n)];
        sum := sum + Term(blocks[i, j], i, j, n);
      }
    }

    /** isGoal: hamming is zero, that is, every block is in its goal place. */
    method IsGoal() returns (g: bool)
      requires Valid()
      ensures g <==> InPlace(board)
    {
      var h := Hamming();
      g := h == 0;
    }

    /**
     * swap: a fresh grid copy with the blocks at (row, col) and (nextRow,
     * nextCol) exchanged; a coordinate past the grid raises
     * ArrayIndexOutOfBoundsException.
     */
    method Swap(row: nat, col: nat, nextRow: nat, nextCol: nat) returns (r: Result<array2<int>>)
      requires Valid()
      ensures r.Success? <==> row < n && col < n && nextRow < n && nextCol < n
      ensures r.Failure? ==> r.error == IndexOutOfBounds
      ensures r.Success? ==>
                fresh(r.value) && r.value.Length0 == n && r.value.Length1 == n &&
                Index(row, col, n) < |board| && Index(nextRow, nextCol, n) < |board| &&
                IsRowMajor(Swapped(board, Index(row, col, n), Index(nextRow, nextCol, n)), r.value, n)
    {
      var copy := ConvertTo2dArray();
      if !(row < n && col < n && nextRow < n && nextCol < n) {
        return Failure(IndexOutOfBounds);
      }
      IndexBefore(row, n, col, n);
      IndexBefore(nextRow, n, nextCol, n);
      var a, b := Index(row, col, n), Index(nextRow, nextCol, n);
      var temp := copy[row, col];
      copy[row, col] := copy[nextRow, nextCol];
      copy[nextRow, nextCol] := temp;
      var s := Swapped(board, a, b);
      forall i, j | 0 <= i < n && 0 <= j < n ensures Index(i, j, n) < |s| && s[Index(i, j, n)] == copy[i, j] {
        IndexBefore(i, n, j, n);
        if Index(i, j, n) == a {
          IndexInjective(i, j, row, col, n);
        }
        if Index(i, j, n) == b {
          IndexInjective(i, j, nextRow, nextCol, n);
        }
      }
      r := Success(copy);
    }

    /**
     * twin: the board with the first pair of non-blank blocks that are
     * neighbours in the array exchanged, as cells (row, col) and
     * (row, col + 1). Reading past the array or past the row raises
     * ArrayIndexOutOfBoundsException; a board with no such pair gives null.
     */
    method Twin() returns (r: Result<Option<Board>>)
      requires Valid()
      ensures TwinScan(board, 0).NoPair? ==> r == Success(None)
      ensures TwinScan(board, 0).PastEnd? ==> r == Failure(IndexOutOfBounds)
      ensures TwinScan(board, 0).PairAt? && TwinScan(board, 0).i % n == n - 1 ==>
                r == Failure(IndexOutOfBounds)
      ensures TwinScan(board, 0).PairAt? && TwinScan(board, 0).i % n < n - 1 ==>
                r.Success? && r.value.Some? && fresh(r.value.value) &&
                r.value.value.Valid() && r.value.value.n == n &&
                r.value.value.board == Swapped(board, TwinScan(board, 0).i, TwinScan(board, 0).i + 1)
    {
      var i := 0;
      while i < |board|
        invariant 0 <= i <= |board|
        invariant TwinScan(board, i) == TwinScan(board, 0)
      {
        if board[i] != 0 {
          if i + 1 == |board| {
            return Failure(IndexOutOfBounds);
          }
          if board[i + 1] != 0 {
            r := TwinAt(i);
            return;
          }
        }
        i := i + 1;
      }
      return Success(None);
    }

    /**
     * The swap twin makes once it has found two tiles at i and i + 1: the
     * cell right of i, (row, col + 1), is out of bounds when i ends a row.
     */
    method TwinAt(i: nat) returns (r: Result<Option<Board>>)
      requires Valid() && i + 1 < |board|
      ensures i % n == n - 1 ==> r == Failure(IndexOutOfBounds)
      ensures i % n < n - 1 ==>
                r.Success? && r.value.Some? && fresh(r.value.value) &&
                r.value.value.Valid() && r.value.value.n == n &&
                r.value.value.board == Swapped(board, i, i + 1)
    {
      var row, col := i / n, i % n;
      IndexOfCell(i, n);
      IndexShift(row, col, n);
      IndexShift(row, col + 1, n);
      var copy := Swap(row, col, row, col + 1);
      if copy.Failure? {
        return Failure(copy.error);
      }
      var twin := new Board(copy.value);
      RowMajorUnique(twin.board, Swapped(board, i, i + 1), copy.value, n);
      return Success(Some(twin));
    }

    /** The cell holding the blank as neighbors finds it: the first blank, or (0, 0) if there is none. */
    ghost function BlankCell(): (nat, nat)
      requires Valid()
    {
      var k := FirstBlank(board, 0);
      if k < |board| then (k / n, k % n) else (0, 0)
    }

    /** `b` is this board with the blocks at cells `from` and `to` exchanged. */
    ghost predicate IsSlide(b: Board, from: (nat, nat), to: (nat, nat))
    {
      b.Valid() && b.n == n && from.0 < n && from.1 < n && to.0 < n && to.1 < n &&
      Index(from.0, from.1, n) < |board| && Index(to.0, to.1, n) < |board| &&
      b.board == Swapped(board, Index(from.0, from.1, n), Index(to.0, to.1, n))
    }

    /** Each board is the slide from `blank` along the move at the same position. */
    ghost predicate SlidesAlong(boards: seq<Board>, blank: (nat, nat), moves: seq<(nat, nat)>)
    {
      |boards| == |moves| && forall m :: 0 <= m < |boards| ==> IsSlide(boards[m], blank, moves[m])
    }

    /**
     * neighbors: the boards reached by sliding one block into the first
     * blank, in the order up, down, left, right; a board without a blank is
     * treated as if its blank were at (0, 0).
     */
    method Neighbors() returns (boards: seq<Board>)
      requires Valid()
      ensures forall m :: 0 <= m < |boards| ==> fresh(boards[m])
      ensures SlidesAlong(boards, BlankCell(), Moves(BlankCell().0, BlankCell().1, n))
    {
      var row, col := FindBlank();
      var vertical := VerticalSlides(row, col);
      var horizontal := HorizontalSlides(row, col);
      boards := vertical + horizontal;
      SlidesAlongAppend(vertical, horizontal, (row, col), Up(row, col) + Down(row, col, n), Left(row, col) + Right(row, col, n));
      assert Moves(row, col, n) == (Up(row, col) + Down(row, col, n)) + (Left(row, col) + Right(row, col, n));
    }

    /** The first two cases of neighbors: a block slides down from above, then up from below. */
    method VerticalSlides(row: nat, col: nat) returns (boards: seq<Board>)
      requires Valid() && ((row < n && col < n) || (row == 0 && col == 0))
      ensures forall m :: 0 <= m < |boards| ==> fresh(boards[m])
      ensures SlidesAlong(boards, (row, col), Up(row, col) + Down(row, col, n))
    {
      boards := [];
      if row > 0 {
        boards := AddSlide(boards, [], row, col, row - 1, col);
      }
      if row < n - 1 {
        boards := AddSlide(boards, Up(row, col), row, col, row + 1, col);
      }
    }

    /** The last two cases of neighbors: a block slides right from the left, then left from the right. */
    method HorizontalSlides(row: nat, col: nat) returns (boards: seq<Board>)
      requires Valid() && ((row < n && col < n) || (row == 0 && col == 0))
      ensures forall m :: 0 <= m < |boards| ==> fresh(boards[m])
      ensures SlidesAlong(boards, (row, col), Left(row, col) + Right(row, col, n))
    {
      boards := [];
      if col > 0 {
        boards := AddSlide(boards, [], row, col, row, col - 1);
      }
      if col < n - 1 {
        boards := AddSlide(boards, Left(row, col), row, col, row, col + 1);
      }
    }

    lemma SlidesAlongAppend(a: seq<Board>, b: seq<Board>, blank: (nat, nat), ma: seq<(nat, nat)>, mb: seq<(nat, nat)>)
      requires SlidesAlong(a, blank, ma) && SlidesAlong(b, blank, mb)
      ensures SlidesAlong(a + b, blank, ma + mb)
    {
      forall m | 0 <= m < |a + b| ensures IsSlide((a + b)[m], blank, (ma + mb)[m]) {
        if m >= |a| {
          assert (a + b)[m] == b[m - |a|] && (ma + mb)[m] == mb[m - |a|];
        }
      }
    }

    /** One step of neighbors: append the slide from (row, col) to (nextRow, nextCol). */
    method AddSlide(boards: seq<Board>, ghost moves: seq<(nat, nat)>,
                    row: nat, col: nat, nextRow: nat, nextCol: nat) returns (boards': seq<Board>)
      requires Valid() && SlidesAlong(boards, (row, col), moves)
      requires row < n && col < n && nextRow < n && nextCol < n
      ensures SlidesAlong(boards', (row, col), moves + [(nextRow, nextCol)])
      ensures boards'[..|boards|] == boards && fresh(boards'[|boards|])
    {
      var b := Slide(row, col, nextRow, nextCol);
      boards' := boards + [b];
      assert boards'[..|boards|] == boards;
    }

    /** The first loop of neighbors: the row and column of the first blank, (0, 0) if none. */
    method FindBlank() returns (row: nat, col: nat)
      requires Valid()
      ensures (row, col) == BlankCell()
      ensures (row < n && col < n) || |board| == 0
    {
      row, col := 0, 0;
      for i := 0 to |board|
        invariant forall j :: 0 <= j < i ==> board[j] != 0
      {
        if board[i] == 0 {
          row, col := i / n, i % n;
          break;
        }
      }
      ghost var k := FirstBlank(board, 0);
      if k < |board| {
        IndexOfCell(k, n);
      }
    }

    /** `new Board(swap(row, col, nextRow, nextCol))` for two cells inside the grid. */
    method Slide(row: nat, col: nat, nextRow: nat, nextCol: nat) returns (b: Board)
      requires Valid()
      requires row < n && col < n && nextRow < n && nextCol < n
      ensures fresh(b) && IsSlide(b, (row, col), (nextRow, nextCol))
    {
      var copy := Swap(row, col, nextRow, nextCol);
      b := new Board(copy.value);
      RowMajorUnique(b.board, Swapped(board, Index(row, col, n), Index(nextRow, nextCol, n)), copy.value, n);
    }

    /** equals: another board of the same dimension holding the same blocks in the same order. */
    predicate Equals(other: Board?)
      ensures Equals(other) <==> other != null && board == other.board && n == other.n
    {
      if this == other then true
      else if other == null then false
      else if board != other.board then false
      else n == other.n
    }

    /** toString: the dimension on its own line, then each block as a `%2d ` field, n to a line. */
    method ToString() returns (s: string)
      requires Valid()
      ensures s == IntToString(n) + "\n" + Rows(board, n, |board|)
    {
      var rows := "";
      for i := 0 to |board|
        invariant rows == Rows(board, n, i)
      {
        rows := rows + FormatInt(board[i], 2) + " ";
        if (i + 1) % n == 0 {
          rows := rows + "\n";
        }
      }
      s := IntToString(n) + "\n" + rows;
    }
  }

  /** equals is reflexive, symmetric and transitive. */
  lemma EqualsIsEquivalence(a: Board, b: Board, c: Board)
    ensures a.Equals(a)
    ensures a.Equals(b) ==> b.Equals(a)
    ensures a.Equals(b) && b.Equals(c) ==> a.Equals(c)
  {
  }
}
