# Princeton Algorithms, part 1: a verified model

This project models the core data types of a set of Java solutions to the
Princeton "Algorithms, Part 1" programming assignments, and proves what
they compute:

- **KdTree** and **PointSET**: two implementations of a set of points in the
  unit square. Both answer `insert`, `contains`, `size`, `range` and
  `nearest`. The first is a 2-d tree: a search tree whose split key
  alternates between x and y. The second is a brute-force oracle over an
  ordered set.
- **Board**: an n-by-n sliding-puzzle board stored as a flat array. It
  offers the hamming and manhattan heuristics, `twin`, `neighbors`,
  `equals` and `toString`.
- **Deque**: a doubly-linked deque.
- **RandomizedQueue**: a resizing-array queue that dequeues a random item.
- **Percolation**: an n-by-n grid of sites, with two union-find structures
  and a virtual top and bottom site.
- **Point** and **BruteCollinearPoints**: a point with 32-bit int
  coordinates, and the O(n^4) search for four collinear points.

Each source file becomes one module:

| source | module | file |
|---|---|---|
| KdTree.java | `TwoDTree` | kdtree.dfy |
| PointSET.java | `PointSet` | pointset.dfy |
| both of the above together | `KdEquivalence` | kd_equivalence.dfy |
| Board.java | `Puzzle` | board.dfy |
| Deque.java | `Deques` | deque.dfy |
| RandomizedQueue.java | `RandomizedQueues` | randomized_queue.dfy |
| Percolation.java | `Percolations` | percolation.dfy |
| Point.java | `Points` | point.dfy |
| BruteCollinearPoints.java | `BruteCollinear` | brute_collinear.dfy |

Supporting modules:

- `Wrappers`: Option, the Java exceptions as `Error`, and the result types `Result` and `Outcome`.
- `Text`: decimal rendering of ints and `%2d` fields.
- `Geometry`: the algs4 `Point2D` and `RectHV` operations the tree uses.
- `UnionFind`: the interface of algs4's `WeightedQuickUnionUF`, and `Merged`, which describes a run of unions that all share one element.
- `RowMajor`: row-major index arithmetic, and Java's `/` and `%`.

How the Java constructs are modelled:

- Thrown exceptions become `Failure(e)` or `Fail(e)`. A `null` item of Deque or RandomizedQueue becomes `None`. Points and rectangles are values and are never null.
- Objects whose fields the source updates in place become classes: the deque and its nodes, the randomized queue over an `array`, the percolation grid over an `array`, the two point sets, and a board built from an `array2`.
- Pure recursion becomes datatypes and functions: the kd-tree nodes, the validation of the collinear input, and the puzzle heuristics.
- Each loop of the source is a `while` or `for` loop with its invariants. Each method is proved against a specification function.

## Model

| member | source | states |
|---|---|---|
| TwoDTree.ComparePoints | kdTree/src/KdTree.java:93-98 | -1, 0 or 1. At an even level the sign is that of the x comparison, at an odd level that of the y comparison. |
| TwoDTree.Get | kdTree/src/KdTree.java:111-123 | A point found is stored and shares x or y with the query. In an ordered tree every stored point is found. |
| TwoDTree.PutTree | kdTree/src/KdTree.java:70-91 | If get already finds a point, the tree is unchanged. Otherwise exactly p is added, with one node more. Afterwards get finds p. |
| TwoDTree.PutKeepsOrdered | kdTree/src/KdTree.java:76-88 | Insertion keeps left keys strictly smaller and right keys strictly larger at every level. |
| TwoDTree.PutKeepsPartitioned | kdTree/src/KdTree.java:79-87 | Insertion keeps every node's rectangle equal to its parent's rectangle cut at the parent's split line. |
| TwoDTree.GetSurvivesPut | kdTree/src/KdTree.java:70-91 | Insertion only fills a null link, so a point found before an insert is found at the same node afterwards. |
| TwoDTree.OrderedHasNoRepeats | kdTree/src/KdTree.java:76-88 | In an ordered tree no point is stored twice. |
| TwoDTree.CountIsCardinality | kdTree/src/KdTree.java:71-73 | Without repeats, the number of nodes created equals the number of stored points. |
| TwoDTree.PartitionedIsEnclosed | kdTree/src/KdTree.java:73 | For points in the starting bounds, every point of a subtree lies in the rectangle of that subtree's root. |
| TwoDTree.NearestFrom | kdTree/src/KdTree.java:199-224 | The result is present iff the tree is non-empty or a best point was passed in. It is a stored point or the one passed in, and never farther than the one passed in. |
| TwoDTree.NearestIsClosest | kdTree/src/KdTree.java:207-219 | The pruning never loses the answer: the result is at least as close to the query as every stored point. |
| TwoDTree.KdTree.constructor | kdTree/src/KdTree.java:40-42 | An empty tree with size 0. |
| TwoDTree.KdTree.IsEmpty | kdTree/src/KdTree.java:49-51 | True exactly when no point is stored. |
| TwoDTree.KdTree.Size | kdTree/src/KdTree.java:56-58 | The counter equals the number of stored points and the number of nodes. |
| TwoDTree.KdTree.Contains | kdTree/src/KdTree.java:107-109 | True for every stored point. True only when some stored point shares an x or a y with the query. |
| TwoDTree.KdTree.Insert | kdTree/src/KdTree.java:66-68 | For a point of the unit square: the root becomes PutTree of the old root. A point already found leaves root and counter unchanged. Otherwise the point is added and the counter goes up by one. The invariant is kept. The tree's points stay in the unit square, and every node's rectangle holds its subtree's points, so no rectangle is built with reversed bounds. |
| TwoDTree.PutKeepsValid | kdTree/src/KdTree.java:70-91 | Insertion at the root keeps the tree ordered and partitioned, and a point get misses is not stored. |
| TwoDTree.PutEncloses | kdTree/src/KdTree.java:70-91 | Inserting a unit-square point into a valid tree of unit-square points keeps them all in the unit square and inside the rectangle of every node above them. |
| TwoDTree.KdTree.Put | kdTree/src/KdTree.java:70-91 | Returns PutTree's tree. The counter goes up by one exactly when the descent reaches a null link. |
| TwoDTree.KdTree.Range | kdTree/src/KdTree.java:160-166 | Every point reported is stored and inside the query, none twice, and no stored point inside the query is missed. |
| TwoDTree.KdTree.RangeAdd | kdTree/src/KdTree.java:168-177 | Only appends to the queue. Appended points are in the subtree and the query. With enclosed rectangles none is missed, and with no repeats none is appended twice. |
| TwoDTree.KdTree.Nearest | kdTree/src/KdTree.java:187-197 | null exactly on an empty tree. Otherwise a stored point at least as close as every stored point. |
| TwoDTree.TiedPointIsDropped | kdTree/src/KdTree.java:76-88 | After (0.5, 0.5), inserting (0.5, 0.25) leaves the tree as it is, yet get reports that point present. |
| TwoDTree.GetIntended | kdTree/src/KdTree.java:111-123 | The intended search succeeds only on a stored point. |
| TwoDTree.PutIntended | kdTree/src/KdTree.java:70-91 | The intended insertion stores exactly the old points plus p. It adds a node exactly when the intended search misses p. |
| TwoDTree.GetIntendedIffStored | kdTree/src/KdTree.java:107-123 | With ties going right, the intended search finds exactly the stored points. |
| TwoDTree.PutIntendedKeepsInvariant | kdTree/src/KdTree.java:76-88 | The intended insertion keeps the order with ties going right and stores nothing twice. Re-inserting a stored point changes nothing. |
| Geometry.LessIsStrictTotalOrder | kdTree/src/PointSET.java:17 | The Point2D order of the SET (y, then x) is irreflexive, transitive, total and asymmetric. |
| Geometry.DistanceSquared | kdTree/src/KdTree.java:207-208 | Squared distances are non-negative and zero from a point to itself. |
| Geometry.RectDistanceSquared | kdTree/src/KdTree.java:207 | The squared distance to a rectangle is non-negative and zero from a point inside it. |
| Geometry.CommonPointIntersects | kdTree/src/KdTree.java:169 | Two rectangles that share a point intersect, both ways round. |
| Geometry.RectDistanceIsLowerBound | kdTree/src/KdTree.java:207 | A rectangle is no farther from the query than any point inside it. |
| PointSet.SortedCardinality | kdTree/src/PointSET.java:38-40 | A strictly ascending listing has as many elements as entries. |
| PointSet.Add | kdTree/src/PointSET.java:48-50 | SET.add keeps the listing ascending, adds exactly p, and leaves the listing as it is when p is present. |
| PointSet.Within | kdTree/src/PointSET.java:86-88 | Exactly the listed points inside the rectangle, ascending when the listing is, and no more of them than the listing holds. |
| PointSet.PointSET.constructor | kdTree/src/PointSET.java:22-24 | An empty set. |
| PointSet.PointSET.IsEmpty | kdTree/src/PointSET.java:31-33 | True exactly when the set has no element. |
| PointSet.PointSET.Size | kdTree/src/PointSET.java:38-40 | The number of distinct points. |
| PointSet.PointSET.Insert | kdTree/src/PointSET.java:48-50 | The listing becomes Add of the old listing. |
| PointSet.PointSET.Contains | kdTree/src/PointSET.java:59-61 | True exactly for the elements. |
| PointSet.PointSET.Range | kdTree/src/PointSET.java:83-91 | The loop returns Within: exactly the elements in the rectangle, ascending. |
| PointSet.PointSET.Nearest | kdTree/src/PointSET.java:101-113 | null exactly on an empty set. Otherwise an element at least as close as every element. |
| KdEquivalence.BuildSet | kdTree/src/PointSET.java:48-50 | Inserting a sequence gives an ascending listing of exactly its points. |
| KdEquivalence.BuildTreeFacts | kdTree/src/KdTree.java:66-91 | After any insertion sequence the tree is ordered and partitioned and holds only inserted points, and contains holds for each of them. |
| KdEquivalence.GeneralPositionKeepsAll | kdTree/src/KdTree.java:76-88 | When no two distinct points share a coordinate, the tree stores exactly the inserted points. |
| KdEquivalence.TreeRangeWithinOracle | kdTree/src/KdTree.java:160-177 | Every point the tree stores inside a rectangle is in the oracle's range answer. |
| KdEquivalence.IntendedCountsDistinct | kdTree/src/KdTree.java:56-91 | With the intended insertion, size equals the number of distinct points inserted and contains is exact. |
| KdEquivalence.SizeUndercountsTies | kdTree/src/KdTree.java:76-88 | As written, inserting (0.5, 0.5) and then (0.5, 0.25) leaves size 1, where the intended insertion gives 2. |
| KdEquivalence.BuildKdTree | kdTree/src/KdTree.java:66-68 | Inserting a sequence of unit-square points, in order, into a new KdTree gives a valid tree whose root is BuildTree of the sequence. |
| KdEquivalence.BuildPointSet | kdTree/src/PointSET.java:48-50 | Inserting a sequence of points, in order, into a new PointSET gives a valid set equal to BuildSet of the sequence. |
| KdEquivalence.BuildBoth | kdTree/src/KdTree.java:66-68 | Inserting the same sequence of unit-square points into a new KdTree and a new PointSET gives BuildTree and BuildSet, both valid. |
| KdEquivalence.CrossValidate | kdTree/src/KdTree.java:160-197 | With points in the unit square in general position, the two range answers hold the same points and the two nearest answers are equally close. Either nearest is null exactly on no input. |
| RowMajor.IndexIsProduct | percolation/src/Percolation.java:157 | The row-major index of (r, c) is r * n + c. |
| RowMajor.IndexInjective | 8puzzle/src/Board.java:121-127 | Distinct cells have distinct indices. |
| RowMajor.IndexOfCell | 8puzzle/src/Board.java:121-127 | getRow and getCol of an index inside the grid give the cell with that index. |
| RowMajor.JavaDiv | 8puzzle/src/Board.java:92 | Java's `/` rounds toward zero: the quotient has the dividend's sign, and dividend minus quotient times divisor has that sign too and is smaller than the divisor in size. |
| RowMajor.JavaRem | 8puzzle/src/Board.java:91 | Java's `%` takes the dividend's sign. |
| RowMajor.JavaDivRem | 8puzzle/src/Board.java:91-92 | Java's quotient and remainder recompose the dividend. |
| Puzzle.RowMajorUnique | 8puzzle/src/Board.java:27-37 | A grid determines its flattening. |
| Puzzle.Misplaced | 8puzzle/src/Board.java:49-58 | The count plus the number of blanks is at most the number of cells. It is zero exactly when every block is in place. |
| Puzzle.Term | 8puzzle/src/Board.java:90-95 | The blank contributes 0. TermIsTransposed relates every other term to the intended distance. |
| Puzzle.ManhattanSum | 8puzzle/src/Board.java:63-75 | No contract of its own: the as-written terms of the first k cells, summed in row-major order. ManhattanStep and IntendedManhattanZeroIffInPlace state what it adds up. |
| Puzzle.ManhattanStep | 8puzzle/src/Board.java:68-72 | The sum up to the cell after (i, j) adds that cell's term to the sum up to (i, j). |
| Puzzle.TermIsTransposed | 8puzzle/src/Board.java:90-95 | The term as written is the intended distance of the transposed cell. |
| Puzzle.IntendedTermZero | 8puzzle/src/Board.java:90-95 | The intended term is zero exactly for the blank or the block that belongs in that cell. |
| Puzzle.IntendedManhattanZeroIffInPlace | 8puzzle/src/Board.java:60-75 | The intended sum is zero exactly when every block is in place, which is when hamming is zero. |
| Puzzle.ManhattanOfSolvedBoardAsWritten | 8puzzle/src/Board.java:63-95 | As written, the solved 3-by-3 board has hamming 0 but manhattan 16. The intended sum is 0. |
| Puzzle.Swapped | 8puzzle/src/Board.java:129-136 | The two cells are exchanged and every other cell is unchanged. |
| Puzzle.SwappedFacts | 8puzzle/src/Board.java:129-136 | An exchange keeps the multiset of blocks and undoes itself. |
| Puzzle.TwinScan | 8puzzle/src/Board.java:110-118 | Where twin's loop stops: the first non-blank pair that are neighbours in the array, or a read past the end, or no pair at all. |
| Puzzle.TwinOfTwoByTwoFails | 8puzzle/src/Board.java:110-115 | On the 2-by-2 board [0, 1, 2, 3] the loop picks blocks 1 and 2, which sit in different rows. |
| Puzzle.RowPair | 8puzzle/src/Board.java:106-108 | The first index starting two non-blank blocks side by side in one row, or none when there is no such pair. |
| Puzzle.TwinPairExists | 8puzzle/src/Board.java:106-108 | With n >= 2 and at most one blank, such a pair always exists. |
| Puzzle.FirstBlank | 8puzzle/src/Board.java:167-173 | The first blank at or after `from`, or the end when there is none. |
| Puzzle.MovesAreSlides | 8puzzle/src/Board.java:175-185 | The moves are grid neighbours one step away, distinct, and between 2 and 4 of them when n >= 2. |
| Puzzle.MovesAreReversible | 8puzzle/src/Board.java:175-185 | Each move leads to a cell from which the original cell is a move. |
| Puzzle.FullRows | 8puzzle/src/Board.java:199-200 | The number of newlines after k cells is k / n. |
| Puzzle.RowsLength | 8puzzle/src/Board.java:196-201 | With blocks in [-9, 99], each field takes 3 characters and each full row one newline. |
| Puzzle.RenderLength | 8puzzle/src/Board.java:193-204 | Such a board prints as the dimension line, then n lines of 3n characters. |
| Puzzle.FlattenRow | 8puzzle/src/Board.java:33-35 | The inner constructor loop writes row i of the grid to its row-major place and leaves earlier rows alone. |
| Puzzle.FillRow | 8puzzle/src/Board.java:82-84 | The inner convertTo2dArray loop fills row i of the grid and leaves other rows alone. |
| Puzzle.Board.constructor | 8puzzle/src/Board.java:27-37 | n is the number of rows and the cells are the grid flattened row by row. |
| Puzzle.Board.Dimension | 8puzzle/src/Board.java:42-44 | The dimension squared is the number of cells. |
| Puzzle.Board.Hamming | 8puzzle/src/Board.java:49-58 | The loop computes Misplaced. It is zero exactly when every block is in place. |
| Puzzle.Board.ConvertTo2dArray | 8puzzle/src/Board.java:77-88 | A fresh n-by-n grid whose flattening is the board. |
| Puzzle.Board.Manhattan | 8puzzle/src/Board.java:63-75 | The nested loops compute ManhattanSum over all cells. |
| Puzzle.Board.AddRow | 8puzzle/src/Board.java:69-71 | One pass of the inner loop extends the sum by row i. |
| Puzzle.Board.IsGoal | 8puzzle/src/Board.java:102-104 | True exactly when every block is in place. |
| Puzzle.Board.Swap | 8puzzle/src/Board.java:129-136 | Succeeds exactly when both cells are inside the grid. It then returns a fresh grid of the board with the two blocks exchanged. Otherwise ArrayIndexOutOfBounds. |
| Puzzle.Board.Twin | 8puzzle/src/Board.java:109-119 | Follows TwinScan: null if there is no pair. Out-of-bounds when the loop reads past the end or the pair ends a row. Otherwise a valid board with the pair exchanged. |
| Puzzle.Board.TwinAt | 8puzzle/src/Board.java:112-115 | Out-of-bounds when i ends a row. Otherwise the board with cells i and i + 1 exchanged. |
| Puzzle.Board.Neighbors | 8puzzle/src/Board.java:162-188 | The boards obtained by sliding each neighbouring block into the first blank, in the order up, down, left, right. |
| Puzzle.Board.VerticalSlides | 8puzzle/src/Board.java:175-179 | The up and down slides, each one exchange from the blank. |
| Puzzle.Board.HorizontalSlides | 8puzzle/src/Board.java:181-185 | The left and right slides, each one exchange from the blank. |
| Puzzle.Board.AddSlide | 8puzzle/src/Board.java:176 | Appends one fresh slide and keeps the boards already queued. |
| Puzzle.Board.FindBlank | 8puzzle/src/Board.java:164-173 | The row and column of the first blank, or (0, 0) when there is none. |
| Puzzle.Board.Slide | 8puzzle/src/Board.java:176 | `new Board(swap(...))` for two cells in the grid is this board with the two blocks exchanged. |
| Puzzle.Board.Equals | 8puzzle/src/Board.java:141-154 | True exactly when the other board is non-null with the same cells and dimension. |
| Puzzle.Board.ToString | 8puzzle/src/Board.java:193-204 | The dimension, a newline, then a `%2d ` field per block with a newline after every n-th. |
| Puzzle.EqualsIsEquivalence | 8puzzle/src/Board.java:141-154 | equals is reflexive, symmetric and transitive. |
| Text.IntToString | 8puzzle/src/Board.java:195 | A non-empty rendering with a leading minus exactly for negatives, otherwise digits. |
| Text.ParseIntToString | 8puzzle/src/Board.java:195 | Reading the rendering back gives the int. |
| Text.IntToStringInjective | collinearPoints/src/Point.java:128 | Different ints render differently. |
| Text.FormatInt | 8puzzle/src/Board.java:197 | `String.format("%2d")` pads the decimal rendering on the left to at least the width. |
| Text.FormatTwoDigits | 8puzzle/src/Board.java:197 | A `%2d` field of an int in [-9, 99] is two characters and ends with the digits, which read back as the int. |
| Deques.Node.constructor | dequeAndRandomizedQueue/src/Deque.java:188-192 | A node holding the item and the two links. |
| Deques.Deque.constructor | dequeAndRandomizedQueue/src/Deque.java:20-23 | No items, counter 0. |
| Deques.Deque.Size | dequeAndRandomizedQueue/src/Deque.java:37-39 | No contract beyond the body: returns the counter, which as written does not track the number of items (see Findings). |
| Deques.Deque.IsEmpty | dequeAndRandomizedQueue/src/Deque.java:30-32 | Both ends are null exactly when there are no items. |
| Deques.Deque.AddFirst | dequeAndRandomizedQueue/src/Deque.java:44-63 | A null item gives NullPointerException and changes nothing. Otherwise the item goes first, the rest keep their order, the links stay consistent, and the counter goes up by one. |
| Deques.Deque.AddLast | dequeAndRandomizedQueue/src/Deque.java:68-83 | A null item gives NullPointerException. Otherwise the item goes last. The counter goes up only when the deque was empty. |
| Deques.Deque.RemoveFirst | dequeAndRandomizedQueue/src/Deque.java:88-100 | Empty gives NoSuchElementException. Otherwise it returns and removes the first item. The counter is untouched. |
| Deques.Deque.RemoveLast | dequeAndRandomizedQueue/src/Deque.java:105-120 | Empty gives NoSuchElementException. Otherwise it returns and removes the last item and unlinks its node. The counter is untouched. |
| Deques.Deque.Iterate | dequeAndRandomizedQueue/src/Deque.java:128-159 | Following next from the first node yields the items front to back. |
| Deques.Deque.AddLastCounted | dequeAndRandomizedQueue/src/Deque.java:68-83 | addLast with the count update put back keeps counter == number of items. |
| Deques.Deque.RemoveFirstCounted | dequeAndRandomizedQueue/src/Deque.java:88-100 | removeFirst with the count update put back keeps counter == number of items. |
| Deques.Deque.RemoveLastCounted | dequeAndRandomizedQueue/src/Deque.java:105-120 | removeLast with the count update put back keeps counter == number of items. |
| Deques.SizeAfterAddFirstAddLast | dequeAndRandomizedQueue/src/Deque.java:37-83 | As written, after addFirst(a) and addLast(b) the deque holds [a, b] but size() is 1. |
| Deques.SizeAfterAddFirstAddLastCounted | dequeAndRandomizedQueue/src/Deque.java:37-83 | With the counts put back, the same calls give size() 2. |
| RandomizedQueues.Values | dequeAndRandomizedQueue/src/RandomizedQueue.java:14-15 | The items of a run of filled slots, one per slot. |
| RandomizedQueues.SwapRemoveContents | dequeAndRandomizedQueue/src/RandomizedQueue.java:61-64 | Moving the last item into slot r drops exactly the item at r from the multiset. Every other slot below the end is kept. |
| RandomizedQueues.RandomizedQueue.constructor | dequeAndRandomizedQueue/src/RandomizedQueue.java:18-20 | One empty slot, no items. |
| RandomizedQueues.RandomizedQueue.IsEmpty | dequeAndRandomizedQueue/src/RandomizedQueue.java:23-25 | True exactly when there are no items. |
| RandomizedQueues.RandomizedQueue.Size | dequeAndRandomizedQueue/src/RandomizedQueue.java:28-30 | The number of items. |
| RandomizedQueues.RandomizedQueue.Enqueue | dequeAndRandomizedQueue/src/RandomizedQueue.java:33-43 | A null item gives NullPointerException. Otherwise the item is appended, and a full array doubles first. |
| RandomizedQueues.RandomizedQueue.Resize | dequeAndRandomizedQueue/src/RandomizedQueue.java:45-53 | A fresh array of the capacity holding the same items. |
| RandomizedQueues.RandomizedQueue.Dequeue | dequeAndRandomizedQueue/src/RandomizedQueue.java:56-71 | Empty gives NoSuchElementException. Otherwise it returns the item in slot r and removes exactly it by swap-with-last. The array halves when a quarter full. |
| RandomizedQueues.RandomizedQueue.TakeSlot | dequeAndRandomizedQueue/src/RandomizedQueue.java:61-64 | Returns slot r, moves the last item into it and nulls the old last slot. |
| RandomizedQueues.RandomizedQueue.Sample | dequeAndRandomizedQueue/src/RandomizedQueue.java:74-80 | Empty gives NoSuchElementException. Otherwise the item in slot r, which is one of the items. |
| UnionFind.UF.constructor | percolation/src/Percolation.java:26-27 | Every element is in a component of its own. |
| UnionFind.UF.Union | percolation/src/Percolation.java:53-54 | The two components merge. Every other pair is connected exactly when it was before, and nothing is disconnected. |
| UnionFind.UF.Connected | percolation/src/Percolation.java:52 | No contract beyond the body: the two elements carry the same label. |
| UnionFind.MergedStart | percolation/src/Percolation.java:48-49 | Before any union, a single element counts as merged with nothing changed. |
| UnionFind.MergedUnion | percolation/src/Percolation.java:53-88 | After merging a set J, a union of an element of J with q is the same as merging J and q: pairs connected before stay connected, and two elements become connected exactly when each touched J or q. |
| UnionFind.MergedAlready | percolation/src/Percolation.java:52 | Skipping the union of q with an element of J that it was already connected to still merges J and q. |
| UnionFind.MergedIsCoarser | percolation/src/Percolation.java:41-90 | Merging never disconnects a pair. |
| UnionFind.MergedJoins | percolation/src/Percolation.java:41-90 | Any two elements of the merged set end up connected. |
| UnionFind.ConnectedIsEquivalence | percolation/src/Percolation.java:128 | connected is reflexive, symmetric and transitive. |
| Percolations.Convert | percolation/src/Percolation.java:156-160 | Every cell in bounds maps below n * n. |
| Percolations.ConvertIsProduct | percolation/src/Percolation.java:157 | The index is n * (row - 1) + col - 1. |
| Percolations.ConvertInjective | percolation/src/Percolation.java:156-160 | Different cells have different indices. |
| Percolations.ConvertOnto | percolation/src/Percolation.java:156-160 | Every index below n * n belongs to some cell. |
| Percolations.Percolation.constructor | percolation/src/Percolation.java:24-31 | All sites closed, and each site connected only to itself. |
| Percolations.Percolation.IsOpen | percolation/src/Percolation.java:101-109 | Out of bounds gives IndexOutOfBoundsException. Otherwise whether the site is 1. |
| Percolations.Percolation.IsFull | percolation/src/Percolation.java:120-133 | Out of bounds gives IndexOutOfBoundsException. Otherwise open and connected to the top in `uf`. |
| Percolations.Percolation.Open | percolation/src/Percolation.java:41-90 | Out of bounds throws and changes nothing: the sites, `uf` and `ufPerc` stay as they were. An open site changes nothing. Otherwise exactly that site becomes open. In `uf` exactly the site, its open neighbours and, on row 1, the top site merge into one component. `ufPerc` merges the same sites and, on row n, the bottom site too. Every other pair stays as it was. So the site is connected to each open neighbour in both structures, and to the bottom site in `ufPerc` on row n. A top-row site is full, and percolation is never undone. The invariant holds: no backwash into `uf`, and `ufPerc` coarser than `uf`. |
| Percolations.Percolation.JoinTop | percolation/src/Percolation.java:51-55 | On row 1 the site is merged with the top site in both structures, whether or not `uf` already connected them. On other rows nothing changes. The top row stays full. |
| Percolations.Percolation.JoinNeighbours | percolation/src/Percolation.java:57-89 | Extends the merged set of `uf` by the open neighbours. Extends that of `ufPerc` by the open neighbours and, on row n, the bottom site. The invariant is kept. |
| Percolations.Percolation.JoinBottom | percolation/src/Percolation.java:57-60 | On row n the site is merged with the bottom site in `ufPerc` only and is connected to it. Otherwise nothing changes. |
| Percolations.Percolation.JoinVertical | percolation/src/Percolation.java:62-75 | Both merged sets grow by the open cells below and above, each only where it exists. |
| Percolations.Percolation.JoinHorizontal | percolation/src/Percolation.java:76-89 | Both merged sets grow by the open cells left and right, each only where it exists. |
| Percolations.Percolation.JoinIfOpen | percolation/src/Percolation.java:63-68 | If the neighbour is open, it ends up connected to the current site in both structures, and both merged sets grow by it. Otherwise neither structure changes. |
| Percolations.Percolation.JoinBoth | percolation/src/Percolation.java:52-55 | The same union in both structures. In each, exactly the two components merge and every other pair stays as it was, as `union` promises. `ufPerc` stays coarser than `uf`, and nothing joins the bottom site in `uf`. |
| Percolations.Percolation.ConnectsOpened | percolation/src/Percolation.java:57-89 | Reads the joins off the merged sets: the site is connected to every open neighbour in both structures, and to the bottom site in `ufPerc` on row n. |
| Percolations.OpenSite | percolation/src/Percolation.java:63-65 | Empty, or the index of an in-bounds cell that is open. |
| Percolations.OpenNeighboursIgnoreSelf | percolation/src/Percolation.java:49 | Setting the opened site to 1 changes none of its neighbours' open state. |
| Percolations.OpenColumnPercolates | percolation/src/Percolation.java:41-146 | On a 2-by-2 grid, opening (1, 1) then (2, 1) makes (2, 1) full, connects the two sites in `uf`, and percolates. |
| Percolations.Percolation.Percolates | percolation/src/Percolation.java:140-146 | No contract beyond the body: `ufPerc` connects the top site to the bottom site. |
| Percolations.InBound | percolation/src/Percolation.java:148-154 | No contract beyond the body: row and column both in [1, n]. IsOpen, IsFull and Open throw IndexOutOfBoundsException exactly when it is false. |
| Points.Wrap32 | collinearPoints/src/Point.java:64-65 | Java int subtraction: the exact difference, or the difference shifted by 2^32, and exact when it fits. |
| Points.IntCompare | collinearPoints/src/Point.java:92 | Integer.compare: -1, 0 or 1 iff less, equal or greater. |
| Points.CompareCoords | collinearPoints/src/Point.java:89-93 | compareTo as written returns -1, 0 or 1. CompareAsIntended and CompareOverflows relate it to the documented order. |
| Points.CompareAsIntended | collinearPoints/src/Point.java:89-93 | Without overflow in the y difference, compareTo is the documented order. |
| Points.CompareOverflows | collinearPoints/src/Point.java:90-92 | compareTo((0, -2^31), (0, 1)) is 1 where the documented order gives -1. |
| Points.CompareIntendedIsOrder | collinearPoints/src/Point.java:77-88 | The documented order is zero exactly on equal points, antisymmetric and transitive. |
| Points.SlopeOf | collinearPoints/src/Point.java:67-74 | -infinity exactly for the zero vector, +infinity exactly for vertical, 0 for horizontal. |
| Points.SameSlopeIffParallel | collinearPoints/src/Point.java:74 | Two non-zero vectors have equal slopes exactly when they are parallel. |
| Points.SlopeLessIsStrictTotalOrder | collinearPoints/src/Point.java:109-113 | `<` on slopes is a strict total order. |
| Points.CompareSlopes | collinearPoints/src/Point.java:105-116 | -1, 1 or 0 exactly when less, greater or equal. |
| Points.Point.constructor | collinearPoints/src/Point.java:28-31 | The point holds the given coordinates. |
| Points.Point.CompareTo | collinearPoints/src/Point.java:89-93 | -1, 0 or 1. Without overflow it is the documented order and 0 exactly on equal coordinates. |
| Points.Point.SlopeTo | collinearPoints/src/Point.java:63-75 | -infinity exactly on equal points, +infinity exactly on a vertical pair, 0 on a horizontal pair. |
| Points.Point.SlopeOrderCompare | collinearPoints/src/Point.java:101-118 | Orders two points by their slopes from this point: -1, 1, 0 exactly when less, greater or equal. |
| Points.Point.ToString | collinearPoints/src/Point.java:127-129 | Starts with "(" and ends with ")". |
| Points.SlopeToExact | collinearPoints/src/Point.java:63-75 | Without overflow, slopeTo is the slope of the exact vector. |
| Points.ToStringInjective | collinearPoints/src/Point.java:127-129 | Points with the same rendering have the same coordinates. |
| BruteCollinear.ChainSorted | collinearPoints/src/BruteCollinearPoints.java:27-38 | Consecutive increases of the loop indices mean the found quadruples are in strictly ascending order. |
| BruteCollinear.SameSlopeIffCollinear | collinearPoints/src/BruteCollinearPoints.java:31-32 | Without overflow, and with q and r different from p, equal slopes from p mean p, q, r are collinear (zero cross product). The converse holds too. |
| BruteCollinear.AlignedIffCollinear | collinearPoints/src/BruteCollinearPoints.java:31-32 | The slope test accepts exactly the quadruples whose four points lie on one line, when none coincides with the first. |
| BruteCollinear.AlignedWithCoincident | collinearPoints/src/BruteCollinearPoints.java:31-32 | When the second point coincides with the first, the test accepts only if all four coincide. |
| BruteCollinear.Scan | collinearPoints/src/BruteCollinearPoints.java:45-53 | The loops pass or fail with NullPointer or IllegalArgument only. ScanPasses characterises when they pass. |
| BruteCollinear.Validate | collinearPoints/src/BruteCollinearPoints.java:41-54 | No contract of its own: Scan with the source's limit of length - 1. ValidatePasses characterises it. |
| BruteCollinear.ValidateIntended | collinearPoints/src/BruteCollinearPoints.java:41-54 | No contract of its own: Scan over every position. ValidateIntendedPasses characterises it. |
| BruteCollinear.ScanPasses | collinearPoints/src/BruteCollinearPoints.java:45-53 | Passes exactly when no position from i on is null and no two positions before the limit hold the same object. |
| BruteCollinear.ValidatePasses | collinearPoints/src/BruteCollinearPoints.java:41-54 | As written, passes exactly with no null and no repeat among the first length - 1 positions. |
| BruteCollinear.ValidateIntendedPasses | collinearPoints/src/BruteCollinearPoints.java:41-54 | As intended, passes exactly with no null and no repeat anywhere. |
| BruteCollinear.RepeatAtEndPasses | collinearPoints/src/BruteCollinearPoints.java:49 | [a, a] passes as written and fails as intended. |
| BruteCollinear.ValidateInput | collinearPoints/src/BruteCollinearPoints.java:41-54 | A null array gives NullPointerException. Otherwise the loops compute Validate. |
| BruteCollinear.BruteCollinearPoints.constructor | collinearPoints/src/BruteCollinearPoints.java:22-39 | The segments, in loop order, are exactly those of the increasing quadruples that pass the slope test, from a[p] to a[s]. |
| BruteCollinear.BruteCollinearPoints.NumberOfSegments | collinearPoints/src/BruteCollinearPoints.java:59-61 | The number of accepted quadruples. |
| BruteCollinear.BruteCollinearPoints.Segments | collinearPoints/src/BruteCollinearPoints.java:66-70 | A fresh array holding the segments in order. |
| BruteCollinear.SearchQ | collinearPoints/src/BruteCollinearPoints.java:28-37 | For a fixed p, the segments found are exactly those of the accepted quadruples starting at p, ascending. Each starts at a[p]. |
| BruteCollinear.SearchR | collinearPoints/src/BruteCollinearPoints.java:29-36 | For fixed p and q, exactly the accepted quadruples starting p, q, ascending. Each segment starts at a[p]. |
| BruteCollinear.SearchS | collinearPoints/src/BruteCollinearPoints.java:30-35 | For fixed p, q and r, exactly the accepted quadruples starting p, q, r, ascending. Each segment starts at a[p]. |
| BruteCollinear.SegmentsFound | collinearPoints/src/BruteCollinearPoints.java:22-39 | Every segment comes from an accepted quadruple, no quadruple twice, and every accepted quadruple has its segment. |
| BruteCollinear.Create | collinearPoints/src/BruteCollinearPoints.java:22-25 | A null array or failed validation throws the validation's exception. Otherwise the search runs on a copy of the points. |

## Left out

- Drawing (`draw` in KdTree, PointSET and Point), every `main`, and the test and client programs: Subset, PercolationStats, Solver, FastCollinearPoints and RangeSearchVisualizer. They are I/O or clients, not part of the data types.
- Doubles are modelled as exact reals: Point2D coordinates, RectHV bounds, squared distances and the slopes of Point. Rounding, NaN and -0.0 are not modelled; the infinities of slopeTo are explicit cases.
- The algs4 library is modelled by its interfaces only: `Point2D`, `RectHV`, `SET`, `Queue`, `WeightedQuickUnionUF` and `LineSegment`. SET is an ascending sequence, and Queue is a sequence with the items in enqueue order.
- UnionFind.UF.Union: the weighted quick-union forest is not modelled. The state is a label per element, so `connected` is equality of labels, and only the interface's promises are stated.
- Segment stands in for algs4 `LineSegment` and keeps the two points by reference.
- TwoDTree.KdTree.Insert, TwoDTree.KdTree.Put and TwoDTree.PutTree: Insert requires the point to lie in the unit square, the assignment's domain. Outside it, Java's put can reach a null link with reversed bounds. For example, insert (2, 0.5) and then (3, 0.5). The second insert runs `size++` and then `new RectHV(2, 0, 1, 1)`, which algs4 rejects with IllegalArgumentException. The point is lost and the counter stays incremented. That failure is not modelled. Put and PutTree build the rectangle without the check.
- KdEquivalence.BuildBoth and KdEquivalence.CrossValidate require unit-square points, because they insert them.
- TwoDTree.KdTree.Insert, TwoDTree.KdTree.Contains, TwoDTree.KdTree.Range, TwoDTree.KdTree.Nearest, PointSet.PointSET.Insert, PointSet.PointSET.Contains, PointSet.PointSET.Range and PointSet.PointSET.Nearest: null arguments are not modelled, because Point2D and RectHV are values here. In Java, `insert(null)` on an empty KdTree stores a null point and counts it (KdTree.java:71-73). Later calls on that tree, and PointSET's calls with null into SET and RectHV, throw.
- TwoDTree.KdTree.Contains does not state "true iff stored", because as written it is not (see Findings). It states the two directions that do hold.
- KdEquivalence.CrossValidate states equality of the range answers only for points in general position (no shared x or y), because ties lose insertions in the tree as written.
- The kd-tree nodes are values (each owned by one parent), so `put` rebuilds the path it descends instead of reassigning `node.left` and `node.right` in place.
- Puzzle.Board.constructor requires the grid to be no taller than it is wide. n is the number of rows, and columns beyond n are ignored, as Java's loops ignore them. Java's ragged `int[][]` becomes an `array2`, so a row shorter than n, which would throw ArrayIndexOutOfBoundsException, is not modelled.
- The board's cells are an immutable sequence, since the source never changes them after construction.
- Puzzle.Board.Hamming and Puzzle.Board.Manhattan do not model 32-bit overflow of the sums, which needs boards far beyond any memory.
- Puzzle.Term and Puzzle.Board.Manhattan use unbounded integers. In Java, `block - 1` and `Math.abs` wrap for a block near Integer.MIN_VALUE (Board.java:90-95). A board holding the puzzle's values 0 to n*n - 1 never reaches it.
- Puzzle.Board.Equals takes a `Board?`, not an `Object`. The class test `getClass() != obj.getClass()` has no counterpart.
- Puzzle.Board.Neighbors returns a sequence of boards, the Queue's iteration order.
- Percolations.Percolation.Percolates and UnionFind.UF.Connected have no contract of their own. Each is the one comparison it performs. Open's contract states that percolation is never undone, and OpenColumnPercolates shows a grid that percolates.
- Deques.Deque.Size has no contract beyond returning the counter, because as written the counter does not track the number of items (see Findings).
- Deque's iterator is the method Iterate, which returns the whole sequence. Iterator objects and `remove` are not modelled.
- RandomizedQueue's iterator is not modelled: it shuffles with StdRandom. The random index of `dequeue` and `sample` is the argument `r`.
- RandomizedQueues.RandomizedQueue.Enqueue does not model overflow of `2 * elements.length` or running out of memory.
- Percolations.Percolation.constructor takes a `nat`, which excludes a negative N. In Java, a negative N with |N| < 46341 has a positive n * n, so construction succeeds. After that, every call to open, isOpen or isFull throws IndexOutOfBoundsException, because no row lies in [1, n]. Only |N| >= 46341 makes n * n overflow. Then what Java does depends on the wrapped value: a negative size makes `new byte[n * n]` or the union-find constructor throw.
- Percolation's `site` is an array of ints, 0 or 1. The value 2 ("full") named in the source's comment is never written.
- Points.Point.ToString states the shape of the rendering and its injectivity, not the digits one by one (those are Text.IntToString's contract).
- BruteCollinear: duplicates are detected by reference (`==` on objects), as the source does, so two distinct Point objects with the same coordinates pass validation.
- BruteCollinear: the four nested loops are three methods (SearchQ, SearchR and SearchS) called from the constructor's outer loop.

## Findings

| source | as written | input that shows it | evidently intended | confidence | as-written member | corrected member |
|---|---|---|---|---|---|---|
| kdTree/src/KdTree.java:76-88 | `put` and `get` treat a tie on the split coordinate as the same point, so a distinct point sharing an x or y with a node on its path is dropped, and `contains` reports it present | insert (0.5, 0.5) then (0.5, 0.25): size() is 1 and contains((0.5, 0.25)) is true | only an equal point stops the descent; ties between different points go right, so size counts distinct points | not executed | KdEquivalence.SizeUndercountsTies | KdEquivalence.IntendedCountsDistinct |
| 8puzzle/src/Board.java:90-95 | `calculateManhattanDistance` takes the goal row from `%` and the goal column from `/`, so it measures the transposed cell | the solved 3-by-3 board: manhattan() is 16 | goal row `(block - 1) / n`, goal column `(block - 1) % n`; the sum is zero exactly on the goal board | not executed | Puzzle.ManhattanOfSolvedBoardAsWritten | Puzzle.IntendedManhattanZeroIffInPlace |
| 8puzzle/src/Board.java:110-115 | `twin` swaps the first two adjacent non-blank cells of the flat array, even when they lie in different rows, and reads `board[i + 1]` past the end | the 2-by-2 board [[0, 1], [2, 3]]: the pair 1, 2 straddles rows and the swap reaches column 2 | swap two non-blank blocks of one row, which always exist for n >= 2 | not executed | Puzzle.TwinOfTwoByTwoFails | Puzzle.TwinPairExists |
| dequeAndRandomizedQueue/src/Deque.java:68-120 | `addLast` on a non-empty deque and both removals leave `count` unchanged | addFirst(a), addLast(b): the deque holds two items but size() is 1 | the counter tracks the number of items | not executed | Deques.SizeAfterAddFirstAddLast | Deques.SizeAfterAddFirstAddLastCounted |
| collinearPoints/src/Point.java:90-92 | compareTo takes the sign of the wrapped difference `this.y - that.y` | (0, -2^31) compared with (0, 1) gives 1 | order by y then x as documented | not executed | Points.CompareOverflows | Points.CompareIntendedIsOrder |
| collinearPoints/src/BruteCollinearPoints.java:49 | the duplicate check's inner loop stops at `points.length - 1`, so a repeat at the last position is missed | [a, a] passes validation | compare every later position | not executed | BruteCollinear.RepeatAtEndPasses | BruteCollinear.ValidateIntendedPasses |
