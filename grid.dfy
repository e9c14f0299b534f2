/** Boards as values: the cost the annealing minimises, what a permutation of
    1..n is, the O x O sub-squares, and the exchange of two cells. */
module Grids {
  import Arith

  /** `g[r][c]` is the value of the cell in row `r`, column `c`. */
  type Grid = seq<seq<int>>

  /** Every row is as long as the board is high: an n x n board. */
  ghost predicate IsBoard(g: Grid) {
    forall i :: 0 <= i < |g| ==> |g[i]| == |g|
  }

  ghost predicate Within(g: Grid, r: int, c: int) {
    0 <= r < |g| && 0 <= c < |g[r]|
  }

  ghost function Column(g: Grid, j: int): (col: seq<int>)
    requires IsBoard(g) && 0 <= j < |g|
    ensures |col| == |g|
    ensures forall i :: 0 <= i < |g| ==> col[i] == g[i][j]
  {
    seq(|g|, i requires 0 <= i < |g| => g[i][j])
  }

  // ---------------------------------------------------------------------------
  // Lines and permutations

  ghost function Elems(s: seq<int>): set<int> {
    set x | x in s
  }

  /** The values 1..n. */
  ghost function Values(n: int): (vs: set<int>)
    ensures forall v :: v in vs <==> 1 <= v <= n
  {
    if n <= 0 then {} else Values(n - 1) + {n}
  }

  ghost predicate Distinct(s: seq<int>) {
    forall a, b :: 0 <= a < b < |s| ==> s[a] != s[b]
  }

  /** `s` holds each of 1..n exactly once. */
  ghost predicate IsPermutation(s: seq<int>, n: int) {
    && |s| == n
    && (forall k :: 0 <= k < |s| ==> 1 <= s[k] <= n)
    && Distinct(s)
  }

  /** Occurrences of a value already seen earlier in the line: the length minus
      the number of distinct values. */
  ghost function Repeats(s: seq<int>): int {
    |s| - |Elems(s)|
  }

  lemma {:induction false} ValuesCard(n: nat)
    ensures |Values(n)| == n
  {
    if n > 0 {
      var prev := Values(n - 1);
      ValuesCard(n - 1);
      assert n !in prev;
      DisjointUnionCard(prev, {n});
      assert |{n}| == 1;
      assert |Values(n)| == |prev + {n}|;
    } else {
      assert Values(n) == {};
    }
  }

  lemma SubsetSameCard(a: set<int>, b: set<int>)
    requires a <= b && |a| == |b|
    ensures a == b
  {
    assert b == a + (b - a);
    assert a * (b - a) == {};
    assert |b - a| == 0;
  }

  lemma ElemsSnoc(s: seq<int>, x: int)
    ensures Elems(s + [x]) == Elems(s) + {x}
  {
    assert forall y :: y in s + [x] <==> y in s || y == x;
  }

  /** Scanning a line left to right, each value met again adds one repeat. */
  lemma RepeatsSnoc(s: seq<int>, x: int)
    ensures Repeats(s + [x]) == Repeats(s) + (if x in s then 1 else 0)
  {
    ElemsSnoc(s, x);
    if x in s {
      assert x in Elems(s);
      assert Elems(s) + {x} == Elems(s);
    } else {
      assert x !in Elems(s);
      assert |Elems(s) + {x}| == |Elems(s)| + 1;
    }
  }

  /** A line has no repeats exactly when its values are pairwise distinct. */
  lemma {:induction false} RepeatsZeroIffDistinct(s: seq<int>)
    ensures Repeats(s) >= 0
    ensures Repeats(s) == 0 <==> Distinct(s)
    decreases |s|
  {
    if s == [] {
      assert Elems(s) == {};
    } else {
      var s', x := s[..|s| - 1], s[|s| - 1];
      assert s == s' + [x];
      RepeatsZeroIffDistinct(s');
      RepeatsSnoc(s', x);
      if Distinct(s) {
        assert Distinct(s');
        assert x !in s';
      } else if Distinct(s') {
        var a, b :| 0 <= a < b < |s| && s[a] == s[b];
        assert b == |s| - 1;
        assert s'[a] == x;
      }
    }
  }

  /** A permutation of 1..n is a line of n entries whose values are exactly 1..n. */
  lemma PermutationIffCovers(s: seq<int>, n: nat)
    ensures IsPermutation(s, n) <==> |s| == n && Elems(s) == Values(n)
  {
    ValuesCard(n);
    RepeatsZeroIffDistinct(s);
    if IsPermutation(s, n) {
      assert Elems(s) <= Values(n);
      SubsetSameCard(Elems(s), Values(n));
    }
    if |s| == n && Elems(s) == Values(n) {
      forall k | 0 <= k < |s| ensures 1 <= s[k] <= n {
        assert s[k] in Elems(s);
      }
    }
  }

  // ---------------------------------------------------------------------------
  // The cost of a board

  /** Every cell holds a value in 1..n. */
  ghost predicate AllInRange(g: Grid)
    requires IsBoard(g)
  {
    forall i, j :: 0 <= i < |g| && 0 <= j < |g| ==> 1 <= g[i][j] <= |g|
  }

  /** Repeats summed over the first `k` rows. */
  ghost function RowRepeats(g: Grid, k: int): int
    requires IsBoard(g) && 0 <= k <= |g|
  {
    if k == 0 then 0 else RowRepeats(g, k - 1) + Repeats(g[k - 1])
  }

  /** Repeats summed over the first `k` columns. */
  ghost function ColumnRepeats(g: Grid, k: int): int
    requires IsBoard(g) && 0 <= k <= |g|
  {
    if k == 0 then 0 else ColumnRepeats(g, k - 1) + Repeats(Column(g, k - 1))
  }

  /** The conflict count: -1 when some cell is outside 1..n, otherwise the
      repeats of every row plus the repeats of every column. */
  ghost function Cost(g: Grid): int
    requires IsBoard(g)
  {
    if AllInRange(g) then RowRepeats(g, |g|) + ColumnRepeats(g, |g|) else -1
  }

  /** Every row and every column is a permutation of 1..n. */
  ghost predicate LinesArePermutations(g: Grid) {
    && IsBoard(g)
    && (forall i :: 0 <= i < |g| ==> IsPermutation(g[i], |g|))
    && (forall j :: 0 <= j < |g| ==> IsPermutation(Column(g, j), |g|))
  }

  lemma {:induction false} RowRepeatsZero(g: Grid, k: int)
    requires IsBoard(g) && 0 <= k <= |g|
    ensures RowRepeats(g, k) >= 0
    ensures RowRepeats(g, k) == 0 <==> forall i :: 0 <= i < k ==> Distinct(g[i])
    decreases k
  {
    if k > 0 {
      RowRepeatsZero(g, k - 1);
      RepeatsZeroIffDistinct(g[k - 1]);
    }
  }

  lemma {:induction false} ColumnRepeatsZero(g: Grid, k: int)
    requires IsBoard(g) && 0 <= k <= |g|
    ensures ColumnRepeats(g, k) >= 0
    ensures ColumnRepeats(g, k) == 0 <==> forall j :: 0 <= j < k ==> Distinct(Column(g, j))
    decreases k
  {
    if k > 0 {
      ColumnRepeatsZero(g, k - 1);
      RepeatsZeroIffDistinct(Column(g, k - 1));
    }
  }

  /** The cost is -1 exactly when a cell is outside 1..n, never below 0
      otherwise, and 0 exactly when every row and column is a permutation. */
  lemma CostMeaning(g: Grid)
    requires IsBoard(g)
    ensures Cost(g) == -1 <==> !AllInRange(g)
    ensures AllInRange(g) ==> Cost(g) >= 0
    ensures Cost(g) == 0 <==> LinesArePermutations(g)
  {
    RowRepeatsZero(g, |g|);
    ColumnRepeatsZero(g, |g|);
    if !AllInRange(g) {
      var i, j :| 0 <= i < |g| && 0 <= j < |g| && !(1 <= g[i][j] <= |g|);
      assert !IsPermutation(g[i], |g|);
    }
  }

  /** A line that is a permutation of 1..n repeats nothing and misses nothing. */
  lemma PermutationHoldsEveryValue(s: seq<int>, n: nat, v: int)
    requires IsPermutation(s, n) && 1 <= v <= n
    ensures v in s
    ensures forall a, b :: 0 <= a < b < |s| && s[a] == v ==> s[b] != v
  {
    PermutationIffCovers(s, n);
    assert v in Values(n);
  }

  // ---------------------------------------------------------------------------
  // Sub-squares

  /** Cell (r, c) lies in the o x o block whose top-left cell is (r0, c0). */
  ghost predicate InBlock(r0: int, c0: int, o: int, r: int, c: int) {
    r0 <= r < r0 + o && c0 <= c < c0 + o
  }

  /** Cell (r, c) lies in sub-square (bi, bj) of an order-`o` board: the block
      whose top-left cell is (o * bi, o * bj). */
  ghost predicate InSquare(o: int, bi: int, bj: int, r: int, c: int) {
    InBlock(o * bi, o * bj, o, r, c)
  }

  /** The block at (r0, c0) holds each of 1..o*o exactly once: its cells hold
      values in 1..o*o and no two of them hold the same value
      (BlockHoldsEveryValue shows that then every value occurs). */
  ghost predicate BlockIsPermutation(g: Grid, r0: int, c0: int, o: int) {
    && IsBoard(g)
    && (forall r, c :: 0 <= r < |g| && 0 <= c < |g| && InBlock(r0, c0, o, r, c) ==> 1 <= g[r][c] <= o * o)
    && (forall r1, c1, r2, c2 ::
          && 0 <= r1 < |g| && 0 <= c1 < |g| && InBlock(r0, c0, o, r1, c1)
          && 0 <= r2 < |g| && 0 <= c2 < |g| && InBlock(r0, c0, o, r2, c2)
          && (r1 != r2 || c1 != c2)
          ==> g[r1][c1] != g[r2][c2])
  }

  ghost predicate SquareIsPermutation(g: Grid, o: int, bi: int, bj: int) {
    BlockIsPermutation(g, o * bi, o * bj, o)
  }

  ghost predicate AllSquaresArePermutations(g: Grid, o: int) {
    forall bi, bj :: 0 <= bi < o && 0 <= bj < o ==> SquareIsPermutation(g, o, bi, bj)
  }

  /** A completed Sudoku: rows, columns and sub-squares are all permutations of 1..n. */
  ghost predicate IsSolution(g: Grid, o: int) {
    LinesArePermutations(g) && AllSquaresArePermutations(g, o)
  }

  /** Every cell of an order-`o` board lies in a sub-square: the one at (r / o, c / o). */
  lemma CellInSquare(o: int, r: int, c: int)
    requires o > 0 && 0 <= r < o * o && 0 <= c < o * o
    ensures 0 <= r / o < o && 0 <= c / o < o && InSquare(o, r / o, c / o, r, c)
  {
    Arith.BlockOf(o, r);
    Arith.BlockOf(o, c);
  }

  /** No cell lies in two sub-squares. */
  lemma SquaresDisjoint(o: int, bi: int, bj: int, i: int, j: int, r: int, c: int)
    requires InSquare(o, bi, bj, r, c) && InSquare(o, i, j, r, c)
    ensures bi == i && bj == j
  {
    Arith.SameBlock(o, bi, i, r);
    Arith.SameBlock(o, bj, j, c);
  }

  /** The values in rows r0..r0+k-1, columns c0..c0+w-1, built row by row. */
  ghost function BlockValues(g: Grid, r0: int, c0: int, w: nat, k: nat): set<int>
    requires IsBoard(g) && 0 <= r0 && r0 + k <= |g| && 0 <= c0 && c0 + w <= |g|
  {
    if k == 0 then {} else BlockValues(g, r0, c0, w, k - 1) + RowValues(g, r0 + k - 1, c0, w)
  }

  /** The values in row r, columns c0..c0+k-1. */
  ghost function RowValues(g: Grid, r: int, c0: int, k: nat): set<int>
    requires 0 <= r < |g| && 0 <= c0 && c0 + k <= |g[r]|
  {
    if k == 0 then {} else RowValues(g, r, c0, k - 1) + {g[r][c0 + k - 1]}
  }

  lemma {:induction false} RowValuesWitness(g: Grid, r: int, c0: int, k: nat)
    requires 0 <= r < |g| && 0 <= c0 && c0 + k <= |g[r]|
    ensures forall v :: v in RowValues(g, r, c0, k) ==> exists c :: c0 <= c < c0 + k && g[r][c] == v
    decreases k
  {
    if k > 0 {
      RowValuesWitness(g, r, c0, k - 1);
    }
  }

  lemma {:induction false} BlockValuesWitness(g: Grid, r0: int, c0: int, w: nat, k: nat)
    requires IsBoard(g) && 0 <= r0 && r0 + k <= |g| && 0 <= c0 && c0 + w <= |g|
    ensures forall v :: v in BlockValues(g, r0, c0, w, k) ==>
      exists r, c :: r0 <= r < r0 + k && c0 <= c < c0 + w && g[r][c] == v
    decreases k
  {
    if k > 0 {
      BlockValuesWitness(g, r0, c0, w, k - 1);
      RowValuesWitness(g, r0 + k - 1, c0, w);
    }
  }

  lemma {:induction false} RowValuesCard(g: Grid, r: int, c0: int, k: nat)
    requires 0 <= r < |g| && 0 <= c0 && c0 + k <= |g[r]|
    requires forall c1, c2 :: c0 <= c1 < c2 < c0 + k ==> g[r][c1] != g[r][c2]
    ensures |RowValues(g, r, c0, k)| == k
    decreases k
  {
    if k > 0 {
      RowValuesCard(g, r, c0, k - 1);
      RowValuesWitness(g, r, c0, k - 1);
      assert g[r][c0 + k - 1] !in RowValues(g, r, c0, k - 1);
    }
  }

  /** The cells of the rectangle rows r0..r0+k-1, columns c0..c0+w-1 hold pairwise distinct values. */
  ghost predicate RectDistinct(g: Grid, r0: int, c0: int, w: int, k: int) {
    forall r1, c1, r2, c2 ::
      r0 <= r1 < r0 + k && c0 <= c1 < c0 + w && r0 <= r2 < r0 + k && c0 <= c2 < c0 + w && (r1 != r2 || c1 != c2)
      && 0 <= r1 < |g| && 0 <= c1 < |g[r1]| && 0 <= r2 < |g| && 0 <= c2 < |g[r2]|
      ==> g[r1][c1] != g[r2][c2]
  }

  /** The last row of a distinct rectangle shares no value with the rows above it. */
  lemma LastRowFresh(g: Grid, r0: int, c0: int, w: nat, k: nat)
    requires IsBoard(g) && 0 <= r0 && r0 + k <= |g| && 0 <= c0 && c0 + w <= |g| && k > 0
    requires RectDistinct(g, r0, c0, w, k)
    ensures BlockValues(g, r0, c0, w, k - 1) * RowValues(g, r0 + k - 1, c0, w) == {}
  {
    var prev, row := BlockValues(g, r0, c0, w, k - 1), RowValues(g, r0 + k - 1, c0, w);
    BlockValuesWitness(g, r0, c0, w, k - 1);
    RowValuesWitness(g, r0 + k - 1, c0, w);
    forall v | v in prev ensures v !in row {
      var r1, c1 :| r0 <= r1 < r0 + k - 1 && c0 <= c1 < c0 + w && g[r1][c1] == v;
    }
  }

  /** Row i of the rectangle holds w distinct values, none of them in the rows above it. */
  ghost predicate RowFresh(g: Grid, r0: int, c0: int, w: nat, i: nat)
    requires IsBoard(g) && 0 <= r0 && r0 + i < |g| && 0 <= c0 && c0 + w <= |g|
  {
    |RowValues(g, r0 + i, c0, w)| == w && BlockValues(g, r0, c0, w, i) * RowValues(g, r0 + i, c0, w) == {}
  }

  /** Each of the first k rows of the rectangle has w distinct values, none of them in the rows above. */
  ghost predicate RowsFresh(g: Grid, r0: int, c0: int, w: nat, k: nat)
    requires IsBoard(g) && 0 <= r0 && r0 + k <= |g| && 0 <= c0 && c0 + w <= |g|
    decreases k
  {
    k == 0 || (RowsFresh(g, r0, c0, w, k - 1) && RowFresh(g, r0, c0, w, k - 1))
  }

  /** Every row of a distinct rectangle is fresh. */
  lemma {:induction false} RectRowsFresh(g: Grid, r0: int, c0: int, w: nat, k: nat)
    requires IsBoard(g) && 0 <= r0 && r0 + k <= |g| && 0 <= c0 && c0 + w <= |g|
    requires RectDistinct(g, r0, c0, w, k)
    ensures RowsFresh(g, r0, c0, w, k)
    decreases k
  {
    if k > 0 {
      RectDistinctShrink(g, r0, c0, w, k);
      RectRowsFresh(g, r0, c0, w, k - 1);
      LastRowIsFresh(g, r0, c0, w, k);
    }
  }

  lemma RectDistinctShrink(g: Grid, r0: int, c0: int, w: nat, k: nat)
    requires RectDistinct(g, r0, c0, w, k) && k > 0
    ensures RectDistinct(g, r0, c0, w, k - 1)
  {
  }

  lemma LastRowIsFresh(g: Grid, r0: int, c0: int, w: nat, k: nat)
    requires IsBoard(g) && 0 <= r0 && r0 + k <= |g| && 0 <= c0 && c0 + w <= |g| && k > 0
    requires RectDistinct(g, r0, c0, w, k)
    ensures RowFresh(g, r0, c0, w, k - 1)
  {
    var r := r0 + k - 1;
    forall c1, c2 | c0 <= c1 < c2 < c0 + w ensures g[r][c1] != g[r][c2] {
      assert r0 <= r < r0 + k;
    }
    RowValuesCard(g, r, c0, w);
    LastRowFresh(g, r0, c0, w, k);
  }

  /** The size of the union of two disjoint sets is the sum of their sizes. */
  lemma DisjointUnionCard(a: set<int>, b: set<int>)
    requires a * b == {}
    ensures |a + b| == |a| + |b|
  {
    assert |a + b| == |a| + |b| - |a * b|;
  }

  /** A rectangle of k fresh rows of width w holds k * w values. */
  lemma {:induction false} BlockValuesCard(g: Grid, r0: int, c0: int, w: nat, k: nat)
    requires IsBoard(g) && 0 <= r0 && r0 + k <= |g| && 0 <= c0 && c0 + w <= |g|
    requires RowsFresh(g, r0, c0, w, k)
    ensures |BlockValues(g, r0, c0, w, k)| == k * w
    decreases k
  {
    if k > 0 {
      var prev, row := BlockValues(g, r0, c0, w, k - 1), RowValues(g, r0 + k - 1, c0, w);
      BlockValuesCard(g, r0, c0, w, k - 1);
      DisjointUnionCard(prev, row);
      Arith.MulPred(k, w);
    }
  }

  lemma BlockIsRectDistinct(g: Grid, r0: int, c0: int, o: int)
    requires BlockIsPermutation(g, r0, c0, o)
    ensures RectDistinct(g, r0, c0, o, o)
  {
    forall r1, c1, r2, c2 |
      r0 <= r1 < r0 + o && c0 <= c1 < c0 + o && r0 <= r2 < r0 + o && c0 <= c2 < c0 + o && (r1 != r2 || c1 != c2)
      && 0 <= r1 < |g| && 0 <= c1 < |g[r1]| && 0 <= r2 < |g| && 0 <= c2 < |g[r2]|
      ensures g[r1][c1] != g[r2][c2]
    {
      assert InBlock(r0, c0, o, r1, c1) && InBlock(r0, c0, o, r2, c2);
    }
  }

  lemma BlockValuesInRange(g: Grid, r0: int, c0: int, o: nat)
    requires IsBoard(g) && 0 <= r0 && r0 + o <= |g| && 0 <= c0 && c0 + o <= |g|
    requires BlockIsPermutation(g, r0, c0, o)
    ensures BlockValues(g, r0, c0, o, o) <= Values(o * o)
  {
    BlockValuesWitness(g, r0, c0, o, o);
    forall x | x in BlockValues(g, r0, c0, o, o) ensures x in Values(o * o) {
      var r, c :| r0 <= r < r0 + o && c0 <= c < c0 + o && g[r][c] == x;
      assert InBlock(r0, c0, o, r, c);
    }
  }

  lemma BlockCoversValues(g: Grid, r0: int, c0: int, o: nat)
    requires IsBoard(g) && 0 <= r0 && r0 + o <= |g| && 0 <= c0 && c0 + o <= |g|
    requires BlockIsPermutation(g, r0, c0, o)
    ensures BlockValues(g, r0, c0, o, o) == Values(o * o)
  {
    var vals := BlockValues(g, r0, c0, o, o);
    BlockIsRectDistinct(g, r0, c0, o);
    RectRowsFresh(g, r0, c0, o, o);
    BlockValuesCard(g, r0, c0, o, o);
    BlockValuesInRange(g, r0, c0, o);
    ValuesCard(o * o);
    SubsetSameCard(vals, Values(o * o));
  }

  /** Pigeonhole: a block whose o*o cells hold distinct values of 1..o*o holds
      every value of 1..o*o, so each exactly once. */
  lemma BlockHoldsEveryValue(g: Grid, r0: int, c0: int, o: nat, v: int)
    requires IsBoard(g) && 0 <= r0 && r0 + o <= |g| && 0 <= c0 && c0 + o <= |g|
    requires BlockIsPermutation(g, r0, c0, o)
    requires 1 <= v <= o * o
    ensures exists r, c :: 0 <= r < |g| && 0 <= c < |g| && InBlock(r0, c0, o, r, c) && g[r][c] == v
  {
    BlockCoversValues(g, r0, c0, o);
    assert v in BlockValues(g, r0, c0, o, o);
    BlockValuesWitness(g, r0, c0, o, o);
    var r, c :| r0 <= r < r0 + o && c0 <= c < c0 + o && g[r][c] == v;
    assert InBlock(r0, c0, o, r, c);
  }

  /** Every value of 1..n occurs in a sub-square that is a permutation. */
  lemma SquareHoldsEveryValue(g: Grid, o: nat, bi: int, bj: int, v: int)
    requires IsBoard(g) && |g| == o * o && 0 <= bi < o && 0 <= bj < o
    requires SquareIsPermutation(g, o, bi, bj)
    requires 1 <= v <= o * o
    ensures exists r, c :: 0 <= r < |g| && 0 <= c < |g| && InSquare(o, bi, bj, r, c) && g[r][c] == v
  {
    Arith.BlockBound(o, bi);
    Arith.BlockBound(o, bj);
    Arith.MulNonneg(o, bi);
    Arith.MulNonneg(o, bj);
    BlockHoldsEveryValue(g, o * bi, o * bj, o, v);
  }

  // ---------------------------------------------------------------------------
  // Exchanging two cells

  /** The board with cells (r1, c1) and (r2, c2) exchanged; unchanged if either
      is off the board. */
  ghost function Swap(g: Grid, r1: int, c1: int, r2: int, c2: int): (h: Grid)
    ensures |h| == |g| && forall r :: 0 <= r < |g| ==> |h[r]| == |g[r]|
    ensures Within(g, r1, c1) && Within(g, r2, c2) ==>
      h[r1][c1] == g[r2][c2] && h[r2][c2] == g[r1][c1] &&
      forall r, c :: Within(g, r, c) && (r != r1 || c != c1) && (r != r2 || c != c2) ==> h[r][c] == g[r][c]
    ensures !(Within(g, r1, c1) && Within(g, r2, c2)) ==> h == g
  {
    if Within(g, r1, c1) && Within(g, r2, c2) then
      var a, b := g[r1][c1], g[r2][c2];
      var g1 := g[r1 := g[r1][c1 := b]];
      g1[r2 := g1[r2][c2 := a]]
    else
      g
  }

  /** Exchanging the same two cells twice gives the board back. */
  lemma SwapTwice(g: Grid, r1: int, c1: int, r2: int, c2: int)
    ensures Swap(Swap(g, r1, c1, r2, c2), r1, c1, r2, c2) == g
  {
    var h := Swap(Swap(g, r1, c1, r2, c2), r1, c1, r2, c2);
    if Within(g, r1, c1) && Within(g, r2, c2) {
      assert |h| == |g|;
      forall r | 0 <= r < |g| ensures h[r] == g[r] {
        assert |h[r]| == |g[r]|;
        forall c | 0 <= c < |g[r]| ensures h[r][c] == g[r][c] {
          assert Within(g, r, c);
        }
      }
    }
  }

  /** After the exchange, cell (r, c) holds what cell Src(r, c) held before. */
  lemma SwapSource(g: Grid, r1: int, c1: int, r2: int, c2: int, r: int, c: int)
    requires IsBoard(g) && Within(g, r1, c1) && Within(g, r2, c2) && Within(g, r, c)
    ensures var (r', c') := Src(r, c, r1, c1, r2, c2);
      Within(g, r', c') && Swap(g, r1, c1, r2, c2)[r][c] == g[r'][c']
  {
  }

  /** Exchanging two cells of a block that is a permutation keeps it one. */
  lemma SwapInsideBlock(g: Grid, r0: int, c0: int, o: int, r1: int, c1: int, r2: int, c2: int)
    requires BlockIsPermutation(g, r0, c0, o)
    requires Within(g, r1, c1) && InBlock(r0, c0, o, r1, c1)
    requires Within(g, r2, c2) && InBlock(r0, c0, o, r2, c2)
    ensures BlockIsPermutation(Swap(g, r1, c1, r2, c2), r0, c0, o)
  {
    var h := Swap(g, r1, c1, r2, c2);
    forall r, c | 0 <= r < |h| && 0 <= c < |h| && InBlock(r0, c0, o, r, c) ensures 1 <= h[r][c] <= o * o {
      SwapSource(g, r1, c1, r2, c2, r, c);
    }
    forall ra, ca, rb, cb |
      && 0 <= ra < |h| && 0 <= ca < |h| && InBlock(r0, c0, o, ra, ca)
      && 0 <= rb < |h| && 0 <= cb < |h| && InBlock(r0, c0, o, rb, cb)
      && (ra != rb || ca != cb)
      ensures h[ra][ca] != h[rb][cb]
    {
      SwapPairDistinct(g, r0, c0, o, r1, c1, r2, c2, ra, ca, rb, cb);
    }
  }

  /** Two different cells of a block hold different values after a swap inside it. */
  lemma SwapPairDistinct(g: Grid, r0: int, c0: int, o: int, r1: int, c1: int, r2: int, c2: int,
                         ra: int, ca: int, rb: int, cb: int)
    requires BlockIsPermutation(g, r0, c0, o)
    requires Within(g, r1, c1) && InBlock(r0, c0, o, r1, c1)
    requires Within(g, r2, c2) && InBlock(r0, c0, o, r2, c2)
    requires Within(g, ra, ca) && InBlock(r0, c0, o, ra, ca)
    requires Within(g, rb, cb) && InBlock(r0, c0, o, rb, cb)
    requires ra != rb || ca != cb
    ensures Swap(g, r1, c1, r2, c2)[ra][ca] != Swap(g, r1, c1, r2, c2)[rb][cb]
  {
    SwapSource(g, r1, c1, r2, c2, ra, ca);
    SwapSource(g, r1, c1, r2, c2, rb, cb);
  }

  /** Exchanging two cells outside a block leaves the block as it was. */
  lemma SwapOutsideBlock(g: Grid, r0: int, c0: int, o: int, r1: int, c1: int, r2: int, c2: int)
    requires BlockIsPermutation(g, r0, c0, o)
    requires !InBlock(r0, c0, o, r1, c1) && !InBlock(r0, c0, o, r2, c2)
    ensures BlockIsPermutation(Swap(g, r1, c1, r2, c2), r0, c0, o)
  {
    var h := Swap(g, r1, c1, r2, c2);
    assert IsBoard(h);
    forall r, c | 0 <= r < |h| && 0 <= c < |h| && InBlock(r0, c0, o, r, c) ensures h[r][c] == g[r][c] {
      assert Within(g, r, c);
    }
  }

  /** Exchanging two cells of one sub-square keeps every sub-square a permutation. */
  lemma SwapKeepsSquares(g: Grid, o: int, bi: int, bj: int, r1: int, c1: int, r2: int, c2: int)
    requires IsBoard(g) && AllSquaresArePermutations(g, o)
    requires Within(g, r1, c1) && InSquare(o, bi, bj, r1, c1)
    requires Within(g, r2, c2) && InSquare(o, bi, bj, r2, c2)
    ensures AllSquaresArePermutations(Swap(g, r1, c1, r2, c2), o)
  {
    forall i, j | 0 <= i < o && 0 <= j < o ensures SquareIsPermutation(Swap(g, r1, c1, r2, c2), o, i, j) {
      assert SquareIsPermutation(g, o, i, j);
      if i == bi && j == bj {
        SwapInsideBlock(g, o * i, o * j, o, r1, c1, r2, c2);
      } else {
        if InSquare(o, i, j, r1, c1) { SquaresDisjoint(o, bi, bj, i, j, r1, c1); }
        if InSquare(o, i, j, r2, c2) { SquaresDisjoint(o, bi, bj, i, j, r2, c2); }
        SwapOutsideBlock(g, o * i, o * j, o, r1, c1, r2, c2);
      }
    }
  }

  /** Where the value of cell (r, c) comes from after exchanging (r1, c1) and (r2, c2). */
  ghost function Src(r: int, c: int, r1: int, c1: int, r2: int, c2: int): (int, int) {
    if r == r2 && c == c2 then (r1, c1) else if r == r1 && c == c1 then (r2, c2) else (r, c)
  }

  // ---------------------------------------------------------------------------
  // Clues: the cells fixed at load time

  /** A loaded value marks its cell fixed when it is greater than -1. */
  predicate IsClue(v: int) {
    v > -1
  }

  /** Every clue is at most n, so it can index a table of n + 1 flags. */
  ghost predicate CluesBounded(clues: Grid) {
    forall r, c :: 0 <= r < |clues| && 0 <= c < |clues[r]| && IsClue(clues[r][c]) ==> clues[r][c] <= |clues|
  }

  /** Two fixed cells of the line hold the same value. */
  ghost predicate HasClueClash(s: seq<int>) {
    exists a, b :: 0 <= a < b < |s| && IsClue(s[a]) && s[a] == s[b]
  }

  /** No row and no column holds the same clue twice. */
  ghost predicate CluesFeasible(clues: Grid) {
    && IsBoard(clues)
    && (forall i :: 0 <= i < |clues| ==> !HasClueClash(clues[i]))
    && (forall j :: 0 <= j < |clues| ==> !HasClueClash(Column(clues, j)))
  }

  /** The clues of the block at (r0, c0) are values of 1..o*o and pairwise distinct. */
  ghost predicate BlockCluesConsistent(clues: Grid, r0: int, c0: int, o: int) {
    && IsBoard(clues)
    && (forall r, c :: 0 <= r < |clues| && 0 <= c < |clues| && InBlock(r0, c0, o, r, c) && IsClue(clues[r][c])
          ==> 1 <= clues[r][c] <= o * o)
    && (forall r1, c1, r2, c2 ::
          && 0 <= r1 < |clues| && 0 <= c1 < |clues| && InBlock(r0, c0, o, r1, c1)
          && 0 <= r2 < |clues| && 0 <= c2 < |clues| && InBlock(r0, c0, o, r2, c2)
          && (r1 != r2 || c1 != c2) && IsClue(clues[r1][c1])
          ==> clues[r1][c1] != clues[r2][c2])
  }

  /** The clues of every sub-square are consistent: a solution may exist as far
      as the sub-squares are concerned. */
  ghost predicate CluesConsistent(clues: Grid, o: int) {
    forall bi, bj :: 0 <= bi < o && 0 <= bj < o ==> BlockCluesConsistent(clues, o * bi, o * bj, o)
  }

  /** Every fixed cell of g holds its clue. */
  ghost predicate KeepsClues(g: Grid, clues: Grid) {
    && IsBoard(g) && IsBoard(clues) && |g| == |clues|
    && forall r, c :: 0 <= r < |g| && 0 <= c < |g| && IsClue(clues[r][c]) ==> g[r][c] == clues[r][c]
  }

  /** What the initial-solution generator leaves in the block at (r0, c0): every
      cell without a clue holds a value of 1..o*o that no other cell of the block holds. */
  ghost predicate BlockFilled(g: Grid, clues: Grid, r0: int, c0: int, o: int) {
    && IsBoard(g) && IsBoard(clues) && |clues| == |g|
    && (forall r, c :: 0 <= r < |g| && 0 <= c < |g| && InBlock(r0, c0, o, r, c) && !IsClue(clues[r][c])
          ==> 1 <= g[r][c] <= o * o)
    && (forall r1, c1, r2, c2 ::
          && 0 <= r1 < |g| && 0 <= c1 < |g| && InBlock(r0, c0, o, r1, c1)
          && 0 <= r2 < |g| && 0 <= c2 < |g| && InBlock(r0, c0, o, r2, c2)
          && (r1 != r2 || c1 != c2) && !IsClue(clues[r1][c1])
          ==> g[r1][c1] != g[r2][c2])
  }

  ghost predicate AllSquaresFilled(g: Grid, clues: Grid, o: int) {
    forall bi, bj :: 0 <= bi < o && 0 <= bj < o ==> BlockFilled(g, clues, o * bi, o * bj, o)
  }

  /** Filled around consistent clues, a block is a permutation of 1..o*o. */
  lemma FilledBlockIsPermutation(g: Grid, clues: Grid, r0: int, c0: int, o: int)
    requires BlockFilled(g, clues, r0, c0, o) && KeepsClues(g, clues)
    requires BlockCluesConsistent(clues, r0, c0, o)
    ensures BlockIsPermutation(g, r0, c0, o)
  {
    forall r1, c1, r2, c2 |
      && 0 <= r1 < |g| && 0 <= c1 < |g| && InBlock(r0, c0, o, r1, c1)
      && 0 <= r2 < |g| && 0 <= c2 < |g| && InBlock(r0, c0, o, r2, c2)
      && (r1 != r2 || c1 != c2)
      ensures g[r1][c1] != g[r2][c2]
    {
      if !IsClue(clues[r2][c2]) {
        assert g[r2][c2] != g[r1][c1];
      }
    }
  }
}
