/** The `Sudoku` object: an order-O board (side n = O*O) held as a grid of
    integers with a parallel grid of fixed flags, loaded once, filled square by
    square, and improved by simulated annealing. */
module SudokuSolver {
  import opened Grids
  import opened Annealing
  import Arith

  /** Bounding the values of the flat input bounds the clues of the board read from it. */
  lemma FlattenBounded(rows: seq<seq<int>>, bound: int)
    requires IsBoard(rows) && forall v :: v in Flatten(rows) && IsClue(v) ==> v <= bound
    ensures forall r, c :: 0 <= r < |rows| && 0 <= c < |rows[r]| && IsClue(rows[r][c]) ==> rows[r][c] <= bound
  {
    forall r, c | 0 <= r < |rows| && 0 <= c < |rows[r]| && IsClue(rows[r][c]) ensures rows[r][c] <= bound {
      FlattenHolds(rows, r, c);
    }
  }

  /** The rows of a board read one after another, as an instance lists them. */
  ghost function Flatten(rows: seq<seq<int>>): seq<int>
    decreases |rows|
  {
    if rows == [] then [] else Flatten(rows[..|rows| - 1]) + rows[|rows| - 1]
  }

  lemma FlattenSnoc(rows: seq<seq<int>>, row: seq<int>)
    ensures Flatten(rows + [row]) == Flatten(rows) + row
  {
    assert (rows + [row])[..|rows|] == rows;
  }

  /** Every cell of the rows occurs in the flattened sequence. */
  lemma {:induction false} FlattenHolds(rows: seq<seq<int>>, i: int, j: int)
    requires 0 <= i < |rows| && 0 <= j < |rows[i]|
    ensures rows[i][j] in Flatten(rows)
    decreases |rows|
  {
    if i < |rows| - 1 {
      FlattenHolds(rows[..|rows| - 1], i, j);
    } else {
      assert Flatten(rows) == Flatten(rows[..|rows| - 1]) + rows[i];
      assert rows[i][j] == (Flatten(rows[..|rows| - 1]) + rows[i])[|Flatten(rows[..|rows| - 1])| + j];
    }
  }

  /** The clue values among the entries of a line. */
  ghost function ClueValues(s: seq<int>): set<int> {
    set x | x in s && IsClue(x)
  }

  /** Scanning a line one more entry: the clue values seen so far grow by that
      entry when it is a clue, and a clash appears exactly when that clue was seen before. */
  lemma ClueScanStep(s: seq<int>, j: int)
    requires 0 <= j < |s|
    ensures ClueValues(s[..j + 1]) == ClueValues(s[..j]) + (if IsClue(s[j]) then {s[j]} else {})
    ensures HasClueClash(s[..j + 1]) <==> HasClueClash(s[..j]) || (IsClue(s[j]) && s[j] in ClueValues(s[..j]))
  {
    var pre, ext := s[..j], s[..j + 1];
    assert ext == pre + [s[j]];
    assert forall y :: y in ext <==> y in pre || y == s[j];
    if IsClue(s[j]) && s[j] in ClueValues(pre) {
      var a :| 0 <= a < |pre| && pre[a] == s[j];
      assert ext[a] == ext[j];
    }
    if HasClueClash(ext) && !HasClueClash(pre) {
      var a, b :| 0 <= a < b < |ext| && IsClue(ext[a]) && ext[a] == ext[b];
      assert b == j;
      assert pre[a] in ClueValues(pre);
    }
  }

  /** A clash in a prefix is a clash in the line. */
  lemma ClashInPrefix(s: seq<int>, k: int)
    requires 0 <= k <= |s| && HasClueClash(s[..k])
    ensures HasClueClash(s)
  {
    var a, b :| 0 <= a < b < k && IsClue(s[..k][a]) && s[..k][a] == s[..k][b];
    assert s[a] == s[..k][a] && s[b] == s[..k][b];
  }

  /** The values 1..|used|-1 whose flag is set. */
  ghost function UsedValues(used: seq<bool>): set<int> {
    set v | 1 <= v < |used| && used[v]
  }

  lemma UsedValuesMark(used: seq<bool>, a: int)
    requires 0 <= a < |used|
    ensures UsedValues(used[a := true]) == UsedValues(used) + (if 1 <= a then {a} else {})
    ensures |UsedValues(used[a := true])| <= |UsedValues(used)| + 1
    ensures 1 <= a && !used[a] ==> |UsedValues(used[a := true])| == |UsedValues(used)| + 1
  {
    assert UsedValues(used[a := true]) == UsedValues(used) + (if 1 <= a then {a} else {});
  }

  /** Fewer than n of the values 1..n are used: one of them is still free. */
  lemma UnusedValueExists(used: seq<bool>) returns (v: int)
    requires |UsedValues(used)| < |used| - 1
    ensures 1 <= v < |used| && !used[v]
  {
    var n := |used| - 1;
    ValuesCard(n);
    var rest := Values(n) - UsedValues(used);
    assert Values(n) == UsedValues(used) + rest;
    assert |rest| > 0;
    v :| v in rest;
  }

  /** The candidate value the generator's cursor `x` stands for. */
  function Candidate(x: int, n: int): int
    requires n > 0
  {
    x % n + 1
  }

  /** The cursor position the generator's search stops at: the first position from x
      whose candidate is not used yet, looking at most `fuel` positions ahead. */
  function NextFree(used: seq<bool>, n: int, x: int, fuel: nat): (y: int)
    requires n > 0 && |used| == n + 1
    ensures x <= y <= x + fuel
    decreases fuel
  {
    if fuel == 0 || !used[Candidate(x, n)] then x else NextFree(used, n, x + 1, fuel - 1)
  }

  /** The first free candidate from x, within `fuel` positions, is where `NextFree` stops. */
  lemma {:induction false} NextFreeIsFirst(used: seq<bool>, n: int, x: int, y: int, fuel: nat)
    requires n > 0 && |used| == n + 1 && x <= y <= x + fuel
    requires !used[Candidate(y, n)] && forall z :: x <= z < y ==> used[Candidate(z, n)]
    ensures NextFree(used, n, x, fuel) == y
    decreases fuel
  {
    if x < y {
      assert used[Candidate(x, n)];
      NextFreeIsFirst(used, n, x + 1, y, fuel - 1);
    }
  }

  /** Candidates repeat every n positions, so the first free one lies within n of the cursor. */
  lemma FirstFreeWithinRound(used: seq<bool>, n: int, x: int, y: int)
    requires n > 0 && |used| == n + 1 && x <= y
    requires !used[Candidate(y, n)] && forall z :: x <= z < y ==> used[Candidate(z, n)]
    ensures y < x + n
  {
    if y >= x + n {
      assert used[Candidate(y - n, n)];
      assert y == (y / n) * n + y % n;
      assert y - n == (y / n - 1) * n + y % n;
      Arith.ModUnique(y - n, n, y / n - 1, y % n);
      assert false;
    }
  }

  /** The number of cells without a clue in sub-square rows r0..r0+o-1, columns
      c0..c0+o-1, counted from offset (p, q) onwards in row-major order. */
  ghost function FreeCellsFrom(clues: Grid, r0: int, c0: int, o: int, p: int, q: int): (k: int)
    requires IsBoard(clues) && 0 <= r0 && r0 + o <= |clues| && 0 <= c0 && c0 + o <= |clues|
    requires 0 <= p && 0 <= q
    ensures k >= 0
    decreases o - p, o - q
  {
    if p >= o then 0
    else if q >= o then FreeCellsFrom(clues, r0, c0, o, p + 1, 0)
    else (if IsClue(clues[r0 + p][c0 + q]) then 0 else 1) + FreeCellsFrom(clues, r0, c0, o, p, q + 1)
  }

  /** Cell (r, c) comes before offset (p, q) in the row-major visit of the
      sub-square whose top-left cell is (r0, c0). */
  ghost predicate Before(r0: int, c0: int, p: int, q: int, r: int, c: int) {
    r < r0 + p || (r == r0 + p && c < c0 + q)
  }

  /** The generator's search for a value: starting from cursor x, advance the
      cursor until `Candidate` names a value not used yet in the square. The
      result is the first such candidate, and some value is always free. */
  method FirstAvailable(used: seq<bool>, n: int, x: int) returns (aux: int, y: int)
    requires n > 0 && |used| == n + 1 && x >= 0 && |UsedValues(used)| < n
    ensures x <= y && aux == Candidate(y, n) && 1 <= aux <= n && !used[aux]
    ensures forall z :: x <= z < y ==> used[Candidate(z, n)]
    ensures y == NextFree(used, n, x, n)
  {
    ghost var target := UnusedValueExists(used);
    y := x;
    aux := Candidate(y, n);
    while used[aux]
      invariant x <= y && aux == Candidate(y, n) && 1 <= aux <= n
      invariant forall z :: x <= z < y ==> used[Candidate(z, n)]
      decreases (target - 1 - y) % n
    {
      Arith.CursorStep(y, target - 1, n);
      y := y + 1;
      aux := Candidate(y, n);
    }
    FirstFreeWithinRound(used, n, x, y);
    NextFreeIsFirst(used, n, x, y, n);
  }

  /** The board with cell (r, c) set to v. */
  ghost function Put(g: Grid, r: int, c: int, v: int): (h: Grid)
    requires IsBoard(g) && 0 <= r < |g| && 0 <= c < |g|
    ensures IsBoard(h) && |h| == |g| && h[r][c] == v
    ensures forall i, j :: 0 <= i < |g| && 0 <= j < |g| && (i != r || j != c) ==> h[i][j] == g[i][j]
  {
    g[r := g[r][c := v]]
  }

  /** The clue-marking pass has reached offset (p, q) of the block at (r0, c0):
      the value of every clue visited so far is marked used. */
  ghost predicate CluesMarked(clues: Grid, r0: int, c0: int, o: int, p: int, q: int, used: seq<bool>) {
    && IsBoard(clues) && |used| == |clues| + 1
    && forall r, c ::
         (0 <= r < |clues| && 0 <= c < |clues| && InBlock(r0, c0, o, r, c) && IsClue(clues[r][c])
          && Before(r0, c0, p, q, r, c))
         ==> clues[r][c] < |used| && used[clues[r][c]]
  }

  lemma CluesMarkedStart(clues: Grid, r0: int, c0: int, o: int, used: seq<bool>)
    requires IsBoard(clues) && |used| == |clues| + 1 && forall v :: 0 <= v < |used| ==> !used[v]
    ensures CluesMarked(clues, r0, c0, o, 0, 0, used) && OnlyCluesMarked(clues, r0, c0, o, 0, 0, used)
    ensures UsedValues(used) == {}
  {
  }

  /** Visiting one more cell of the block: its value is marked when it is a
      clue, and no more values are marked than clues were visited. */
  lemma CluesMarkedStep(clues: Grid, r0: int, c0: int, o: int, p: int, q: int, used: seq<bool>, used': seq<bool>, total: int)
    requires CluesMarked(clues, r0, c0, o, p, q, used)
    requires 0 <= r0 && r0 + o <= |clues| && 0 <= c0 && c0 + o <= |clues|
    requires 0 <= p < o && 0 <= q < o
    requires |UsedValues(used)| + ClueCellsFrom(clues, r0, c0, o, p, q) <= total
    requires IsClue(clues[r0 + p][c0 + q]) ==> clues[r0 + p][c0 + q] < |used|
    requires used' == if IsClue(clues[r0 + p][c0 + q]) then used[clues[r0 + p][c0 + q] := true] else used
    ensures CluesMarked(clues, r0, c0, o, p, q + 1, used')
    ensures |UsedValues(used')| + ClueCellsFrom(clues, r0, c0, o, p, q + 1) <= total
  {
    if IsClue(clues[r0 + p][c0 + q]) {
      UsedValuesMark(used, clues[r0 + p][c0 + q]);
    }
  }

  /** Finishing a row of the block is starting the next one. */
  lemma CluesMarkedRow(clues: Grid, r0: int, c0: int, o: int, p: int, used: seq<bool>)
    requires CluesMarked(clues, r0, c0, o, p, o, used)
    ensures CluesMarked(clues, r0, c0, o, p + 1, 0, used)
  {
  }

  /** Some clue of the block at (r0, c0) visited before offset (p, q) has value v. */
  ghost predicate ClueSeen(clues: Grid, r0: int, c0: int, o: int, p: int, q: int, v: int) {
    && IsBoard(clues)
    && (exists r, c :: 0 <= r < |clues| && 0 <= c < |clues| && InBlock(r0, c0, o, r, c) && IsClue(clues[r][c])
          && Before(r0, c0, p, q, r, c) && clues[r][c] == v)
  }

  /** Every value marked used so far is the value of a clue of the block visited before (p, q). */
  ghost predicate OnlyCluesMarked(clues: Grid, r0: int, c0: int, o: int, p: int, q: int, used: seq<bool>) {
    forall v :: 0 <= v < |used| && used[v] ==> ClueSeen(clues, r0, c0, o, p, q, v)
  }

  /** Visiting one more cell marks at most its own clue. */
  lemma OnlyCluesMarkedStep(clues: Grid, r0: int, c0: int, o: int, p: int, q: int, used: seq<bool>, used': seq<bool>)
    requires IsBoard(clues) && OnlyCluesMarked(clues, r0, c0, o, p, q, used)
    requires 0 <= r0 && r0 + o <= |clues| && 0 <= c0 && c0 + o <= |clues|
    requires 0 <= p < o && 0 <= q < o && |used'| == |used|
    requires IsClue(clues[r0 + p][c0 + q]) ==> clues[r0 + p][c0 + q] < |used|
    requires used' == if IsClue(clues[r0 + p][c0 + q]) then used[clues[r0 + p][c0 + q] := true] else used
    ensures OnlyCluesMarked(clues, r0, c0, o, p, q + 1, used')
  {
    forall v | 0 <= v < |used'| && used'[v] ensures ClueSeen(clues, r0, c0, o, p, q + 1, v) {
      if IsClue(clues[r0 + p][c0 + q]) && v == clues[r0 + p][c0 + q] {
        assert Before(r0, c0, p, q + 1, r0 + p, c0 + q);
      } else {
        assert ClueSeen(clues, r0, c0, o, p, q, v);
        var r, c :| 0 <= r < |clues| && 0 <= c < |clues| && InBlock(r0, c0, o, r, c) && IsClue(clues[r][c])
          && Before(r0, c0, p, q, r, c) && clues[r][c] == v;
        assert Before(r0, c0, p, q + 1, r, c);
      }
    }
  }

  lemma OnlyCluesMarkedRow(clues: Grid, r0: int, c0: int, o: int, p: int, used: seq<bool>)
    requires IsBoard(clues) && OnlyCluesMarked(clues, r0, c0, o, p, o, used)
    ensures OnlyCluesMarked(clues, r0, c0, o, p + 1, 0, used)
  {
    forall v | 0 <= v < |used| && used[v] ensures ClueSeen(clues, r0, c0, o, p + 1, 0, v) {
      var r, c :| 0 <= r < |clues| && 0 <= c < |clues| && InBlock(r0, c0, o, r, c) && IsClue(clues[r][c])
        && Before(r0, c0, p, o, r, c) && clues[r][c] == v;
      assert Before(r0, c0, p + 1, 0, r, c);
    }
  }

  /** The table the clue-marking pass builds for the block at (r0, c0): entry v
      is set exactly when some clue of the block has value v. */
  ghost function ClueMarks(clues: Grid, r0: int, c0: int, o: int): (m: seq<bool>)
    requires IsBoard(clues)
    ensures |m| == |clues| + 1
  {
    seq(|clues| + 1, v =>
      exists r, c :: 0 <= r < |clues| && 0 <= c < |clues| && InBlock(r0, c0, o, r, c) && IsClue(clues[r][c])
        && clues[r][c] == v)
  }

  /** A table that marks every clue of the block and nothing else is `ClueMarks`. */
  lemma MarksAreClueMarks(clues: Grid, r0: int, c0: int, o: int, used: seq<bool>)
    requires CluesMarked(clues, r0, c0, o, o, 0, used) && OnlyCluesMarked(clues, r0, c0, o, o, 0, used)
    ensures used == ClueMarks(clues, r0, c0, o)
  {
    var m := ClueMarks(clues, r0, c0, o);
    forall v | 0 <= v < |used| ensures used[v] == m[v] {
      if used[v] {
        assert ClueSeen(clues, r0, c0, o, o, 0, v);
      }
      if m[v] {
        var r, c :| 0 <= r < |clues| && 0 <= c < |clues| && InBlock(r0, c0, o, r, c) && IsClue(clues[r][c])
          && clues[r][c] == v;
        assert Before(r0, c0, o, 0, r, c);
      }
    }
  }

  /** The board the second pass over the block at (r0, c0) produces from offset (p, q)
      on, with `used` the values taken and the cursor at x: in row-major order, each
      cell without a clue gets the first free candidate from the cursor, that value is
      marked used and the cursor moves one past it; clue cells are skipped. */
  ghost function FillBlock(g: Grid, clues: Grid, r0: int, c0: int, o: int, p: int, q: int, used: seq<bool>, x: int): (h: Grid)
    requires IsBoard(g) && IsBoard(clues) && |clues| == |g| && |g| > 0 && |used| == |g| + 1
    requires 0 <= r0 && r0 + o <= |g| && 0 <= c0 && c0 + o <= |g| && 0 <= p && 0 <= q
    ensures IsBoard(h) && |h| == |g|
    decreases o - p, o - q
  {
    if p >= o then g
    else if q >= o then FillBlock(g, clues, r0, c0, o, p + 1, 0, used, x)
    else if IsClue(clues[r0 + p][c0 + q]) then FillBlock(g, clues, r0, c0, o, p, q + 1, used, x)
    else
      var y := NextFree(used, |g|, x, |g|);
      var v := Candidate(y, |g|);
      FillBlock(Put(g, r0 + p, c0 + q, v), clues, r0, c0, o, p, q + 1, used[v := true], y + 1)
  }

  /** The second pass at a cell without a clue: it gets the candidate the cursor stops at. */
  lemma FillBlockFree(g: Grid, clues: Grid, r0: int, c0: int, o: int, p: int, q: int, used: seq<bool>, x: int, y: int)
    requires IsBoard(g) && IsBoard(clues) && |clues| == |g| && |g| > 0 && |used| == |g| + 1
    requires 0 <= r0 && r0 + o <= |g| && 0 <= c0 && c0 + o <= |g| && 0 <= p < o && 0 <= q < o
    requires !IsClue(clues[r0 + p][c0 + q]) && y == NextFree(used, |g|, x, |g|)
    ensures FillBlock(g, clues, r0, c0, o, p, q, used, x)
         == FillBlock(Put(g, r0 + p, c0 + q, Candidate(y, |g|)), clues, r0, c0, o, p, q + 1, used[Candidate(y, |g|) := true], y + 1)
  {
  }

  /** The second pass at a clue cell: nothing changes. */
  lemma FillBlockClue(g: Grid, clues: Grid, r0: int, c0: int, o: int, p: int, q: int, used: seq<bool>, x: int)
    requires IsBoard(g) && IsBoard(clues) && |clues| == |g| && |g| > 0 && |used| == |g| + 1
    requires 0 <= r0 && r0 + o <= |g| && 0 <= c0 && c0 + o <= |g| && 0 <= p < o && 0 <= q < o
    requires IsClue(clues[r0 + p][c0 + q])
    ensures FillBlock(g, clues, r0, c0, o, p, q, used, x) == FillBlock(g, clues, r0, c0, o, p, q + 1, used, x)
  {
  }

  /** The board after sub-square (i, j) is filled: its clues are marked, then the
      second pass runs with the cursor restarted at 0. */
  ghost function FilledSquare(g: Grid, clues: Grid, o: int, i: int, j: int): (h: Grid)
    requires IsBoard(g) && IsBoard(clues) && |clues| == |g| && o > 0 && |g| == o * o
    requires 0 <= i < o && 0 <= j < o
    ensures IsBoard(h) && |h| == |g|
  {
    Arith.BlockBound(o, i);
    Arith.BlockBound(o, j);
    Arith.MulNonneg(o, i);
    Arith.MulNonneg(o, j);
    FillBlock(g, clues, o * i, o * j, o, 0, 0, ClueMarks(clues, o * i, o * j, o), 0)
  }

  /** The board the initial-solution generator produces from g, filling the
      sub-squares from (i, j) on in row-major order. */
  ghost function FillFrom(g: Grid, clues: Grid, o: int, i: int, j: int): (h: Grid)
    requires IsBoard(g) && IsBoard(clues) && |clues| == |g| && o > 0 && |g| == o * o
    requires 0 <= i && 0 <= j
    ensures IsBoard(h) && |h| == |g|
    decreases o - i, o - j
  {
    if i >= o then g
    else if j >= o then FillFrom(g, clues, o, i + 1, 0)
    else FillFrom(FilledSquare(g, clues, o, i, j), clues, o, i, j + 1)
  }

  /** What the clue-marking pass has established once it has visited the whole block. */
  lemma MarkingDone(clues: Grid, r0: int, c0: int, o: int, used: seq<bool>, clueCells: int)
    requires IsBoard(clues) && o > 0 && 0 <= r0 && r0 + o <= |clues| && 0 <= c0 && c0 + o <= |clues| && |clues| == o * o
    requires CluesMarked(clues, r0, c0, o, o, 0, used) && OnlyCluesMarked(clues, r0, c0, o, o, 0, used)
    requires clueCells == ClueCellsFrom(clues, r0, c0, o, 0, 0)
    requires |UsedValues(used)| + ClueCellsFrom(clues, r0, c0, o, o, 0) <= clueCells
    ensures used == ClueMarks(clues, r0, c0, o)
    ensures |UsedValues(used)| + FreeCellsFrom(clues, r0, c0, o, 0, 0) <= |clues|
  {
    CellsFrom(clues, r0, c0, o, 0, 0);
    MarksAreClueMarks(clues, r0, c0, o, used);
  }

  /** The fill pass has reached offset (p, q) of the block at (r0, c0): fixed
      cells hold their clues, whose values are all marked used, and every cell
      without a clue visited so far holds a used value of 1..n that no other
      visited or fixed cell of the block holds. */
  ghost predicate FillProgress(g: Grid, clues: Grid, r0: int, c0: int, o: int, p: int, q: int, used: seq<bool>) {
    && KeepsClues(g, clues)
    && CluesMarked(clues, r0, c0, o, o, 0, used)
    && FilledMarked(g, clues, r0, c0, o, p, q, used)
    && FilledDistinct(g, clues, r0, c0, o, p, q)
  }

  /** Every cell filled so far holds a value in 1..n marked used. */
  ghost predicate FilledMarked(g: Grid, clues: Grid, r0: int, c0: int, o: int, p: int, q: int, used: seq<bool>)
    requires IsBoard(g) && IsBoard(clues) && |clues| == |g|
  {
    forall r, c ::
      (0 <= r < |g| && 0 <= c < |g| && InBlock(r0, c0, o, r, c) && !IsClue(clues[r][c])
       && Before(r0, c0, p, q, r, c))
      ==> 1 <= g[r][c] < |used| && used[g[r][c]]
  }

  /** Every cell filled so far differs from every clue and every other filled cell of the block. */
  ghost predicate FilledDistinct(g: Grid, clues: Grid, r0: int, c0: int, o: int, p: int, q: int)
    requires IsBoard(g) && IsBoard(clues) && |clues| == |g|
  {
    forall r1, c1, r2, c2 ::
      && 0 <= r1 < |g| && 0 <= c1 < |g| && InBlock(r0, c0, o, r1, c1)
      && !IsClue(clues[r1][c1]) && Before(r0, c0, p, q, r1, c1)
      && 0 <= r2 < |g| && 0 <= c2 < |g| && InBlock(r0, c0, o, r2, c2)
      && (IsClue(clues[r2][c2]) || Before(r0, c0, p, q, r2, c2))
      && (r1 != r2 || c1 != c2)
      ==> g[r1][c1] != g[r2][c2]
  }

  /** Nothing of the block is visited before its first cell. */
  lemma FillProgressStart(g: Grid, clues: Grid, r0: int, c0: int, o: int, used: seq<bool>)
    requires KeepsClues(g, clues) && CluesMarked(clues, r0, c0, o, o, 0, used)
    ensures FillProgress(g, clues, r0, c0, o, 0, 0, used)
  {
  }

  /** Visiting a fixed cell changes nothing. */
  lemma FillProgressSkip(g: Grid, clues: Grid, r0: int, c0: int, o: int, p: int, q: int, used: seq<bool>)
    requires FillProgress(g, clues, r0, c0, o, p, q, used)
    requires 0 <= r0 + p < |g| && 0 <= c0 + q < |g| && IsClue(clues[r0 + p][c0 + q])
    ensures FillProgress(g, clues, r0, c0, o, p, q + 1, used)
  {
  }

  /** Giving a cell without a clue a value not used yet, and marking it used,
      keeps the block's values apart. */
  lemma FillProgressPut(g: Grid, clues: Grid, r0: int, c0: int, o: int, p: int, q: int, used: seq<bool>, v: int)
    requires FillProgress(g, clues, r0, c0, o, p, q, used)
    requires 0 <= p < o && 0 <= q < o
    requires 0 <= r0 + p < |g| && 0 <= c0 + q < |g| && !IsClue(clues[r0 + p][c0 + q])
    requires 1 <= v < |used| && !used[v]
    ensures FillProgress(Put(g, r0 + p, c0 + q, v), clues, r0, c0, o, p, q + 1, used[v := true])
  {
    var h, used' := Put(g, r0 + p, c0 + q, v), used[v := true];
    assert KeepsClues(h, clues);
    assert CluesMarked(clues, r0, c0, o, o, 0, used') by {
      forall r, c | 0 <= r < |h| && 0 <= c < |h| && InBlock(r0, c0, o, r, c) && IsClue(clues[r][c])
        ensures clues[r][c] < |used'| && used'[clues[r][c]]
      {
        assert Before(r0, c0, o, 0, r, c);
      }
    }
    PutKeepsMarked(g, clues, r0, c0, o, p, q, used, v);
    PutKeepsDistinct(g, clues, r0, c0, o, p, q, used, v);
  }

  lemma PutKeepsMarked(g: Grid, clues: Grid, r0: int, c0: int, o: int, p: int, q: int, used: seq<bool>, v: int)
    requires |clues| == |g| && IsBoard(clues) && IsBoard(g) && FilledMarked(g, clues, r0, c0, o, p, q, used)
    requires 0 <= p < o && 0 <= q < o
    requires 0 <= r0 + p < |g| && 0 <= c0 + q < |g| && !IsClue(clues[r0 + p][c0 + q])
    requires 1 <= v < |used|
    ensures FilledMarked(Put(g, r0 + p, c0 + q, v), clues, r0, c0, o, p, q + 1, used[v := true])
  {
  }

  lemma PutKeepsDistinct(g: Grid, clues: Grid, r0: int, c0: int, o: int, p: int, q: int, used: seq<bool>, v: int)
    requires KeepsClues(g, clues)
    requires CluesMarked(clues, r0, c0, o, o, 0, used) && FilledMarked(g, clues, r0, c0, o, p, q, used)
    requires FilledDistinct(g, clues, r0, c0, o, p, q)
    requires 0 <= p < o && 0 <= q < o
    requires 0 <= r0 + p < |g| && 0 <= c0 + q < |g| && !IsClue(clues[r0 + p][c0 + q])
    requires 1 <= v < |used| && !used[v]
    ensures FilledDistinct(Put(g, r0 + p, c0 + q, v), clues, r0, c0, o, p, q + 1)
  {
    var h := Put(g, r0 + p, c0 + q, v);
    forall r1, c1, r2, c2 |
      && 0 <= r1 < |h| && 0 <= c1 < |h| && InBlock(r0, c0, o, r1, c1)
      && !IsClue(clues[r1][c1]) && Before(r0, c0, p, q + 1, r1, c1)
      && 0 <= r2 < |h| && 0 <= c2 < |h| && InBlock(r0, c0, o, r2, c2)
      && (IsClue(clues[r2][c2]) || Before(r0, c0, p, q + 1, r2, c2))
      && (r1 != r2 || c1 != c2)
      ensures h[r1][c1] != h[r2][c2]
    {
      PutPairDistinct(g, clues, r0, c0, o, p, q, used, v, r1, c1, r2, c2);
    }
  }

  /** After the put, a filled cell and a clue or another filled cell of the block differ. */
  lemma PutPairDistinct(g: Grid, clues: Grid, r0: int, c0: int, o: int, p: int, q: int, used: seq<bool>, v: int,
                        r1: int, c1: int, r2: int, c2: int)
    requires KeepsClues(g, clues)
    requires CluesMarked(clues, r0, c0, o, o, 0, used) && FilledMarked(g, clues, r0, c0, o, p, q, used)
    requires FilledDistinct(g, clues, r0, c0, o, p, q)
    requires 0 <= p < o && 0 <= q < o
    requires 0 <= r0 + p < |g| && 0 <= c0 + q < |g| && !IsClue(clues[r0 + p][c0 + q])
    requires 1 <= v < |used| && !used[v]
    requires 0 <= r1 < |g| && 0 <= c1 < |g| && InBlock(r0, c0, o, r1, c1)
    requires !IsClue(clues[r1][c1]) && Before(r0, c0, p, q + 1, r1, c1)
    requires 0 <= r2 < |g| && 0 <= c2 < |g| && InBlock(r0, c0, o, r2, c2)
    requires IsClue(clues[r2][c2]) || Before(r0, c0, p, q + 1, r2, c2)
    requires r1 != r2 || c1 != c2
    ensures Put(g, r0 + p, c0 + q, v)[r1][c1] != Put(g, r0 + p, c0 + q, v)[r2][c2]
  {
    if r1 == r0 + p && c1 == c0 + q {
      if IsClue(clues[r2][c2]) {
        assert Before(r0, c0, o, 0, r2, c2);
      }
      assert used[g[r2][c2]];
    } else if r2 == r0 + p && c2 == c0 + q {
      assert used[g[r1][c1]];
    }
  }

  /** Finishing a row of the block is starting the next one. */
  lemma FillProgressRow(g: Grid, clues: Grid, r0: int, c0: int, o: int, p: int, used: seq<bool>)
    requires FillProgress(g, clues, r0, c0, o, p, o, used)
    ensures FillProgress(g, clues, r0, c0, o, p + 1, 0, used)
  {
  }

  /** Once every row of the block is visited, the block is filled. */
  lemma FillProgressDone(g: Grid, clues: Grid, r0: int, c0: int, o: int, used: seq<bool>)
    requires FillProgress(g, clues, r0, c0, o, o, 0, used) && |used| == o * o + 1
    ensures BlockFilled(g, clues, r0, c0, o)
  {
  }

  /** g differs from g0 at most inside the block at (r0, c0). */
  ghost predicate SameOutside(g: Grid, g0: Grid, r0: int, c0: int, o: int) {
    && IsBoard(g) && IsBoard(g0) && |g| == |g0|
    && forall r, c :: 0 <= r < |g| && 0 <= c < |g| && !InBlock(r0, c0, o, r, c) ==> g[r][c] == g0[r][c]
  }

  lemma PutInside(g: Grid, g0: Grid, r0: int, c0: int, o: int, r: int, c: int, v: int)
    requires SameOutside(g, g0, r0, c0, o) && 0 <= r < |g| && 0 <= c < |g| && InBlock(r0, c0, o, r, c)
    ensures SameOutside(Put(g, r, c, v), g0, r0, c0, o)
  {
  }

  /** Filling sub-square (i, j) leaves every other filled sub-square filled. */
  lemma FilledSquareKept(g: Grid, g0: Grid, clues: Grid, o: int, i: int, j: int, bi: int, bj: int)
    requires BlockFilled(g0, clues, o * bi, o * bj, o) && SameOutside(g, g0, o * i, o * j, o)
    requires bi != i || bj != j
    ensures BlockFilled(g, clues, o * bi, o * bj, o)
  {
    forall r, c | 0 <= r < |g| && 0 <= c < |g| && InSquare(o, bi, bj, r, c) ensures g[r][c] == g0[r][c] {
      if InSquare(o, i, j, r, c) {
        SquaresDisjoint(o, bi, bj, i, j, r, c);
      }
    }
  }

  /** The sub-squares before (i, j), in row-major order, are filled. */
  ghost predicate FilledBefore(g: Grid, clues: Grid, o: int, i: int, j: int) {
    forall bi, bj :: 0 <= bi < o && 0 <= bj < o && (bi < i || (bi == i && bj < j)) ==>
      BlockFilled(g, clues, o * bi, o * bj, o)
  }

  /** Filling sub-square (i, j) and nothing outside it extends the filled prefix by one square. */
  lemma FilledBeforeStep(g: Grid, g0: Grid, clues: Grid, o: int, i: int, j: int)
    requires FilledBefore(g0, clues, o, i, j) && 0 <= i < o && 0 <= j < o
    requires BlockFilled(g, clues, o * i, o * j, o) && SameOutside(g, g0, o * i, o * j, o)
    ensures FilledBefore(g, clues, o, i, j + 1)
  {
    forall bi, bj | 0 <= bi < o && 0 <= bj < o && (bi < i || (bi == i && bj < j + 1))
      ensures BlockFilled(g, clues, o * bi, o * bj, o)
    {
      if bi != i || bj != j {
        FilledSquareKept(g, g0, clues, o, i, j, bi, bj);
      }
    }
  }

  lemma FilledBeforeRow(g: Grid, clues: Grid, o: int, i: int)
    requires FilledBefore(g, clues, o, i, o)
    ensures FilledBefore(g, clues, o, i + 1, 0)
  {
  }

  /** Filled around consistent clues, every sub-square is a permutation of 1..n. */
  lemma FilledSquaresArePermutations(g: Grid, clues: Grid, o: int)
    requires AllSquaresFilled(g, clues, o) && KeepsClues(g, clues) && CluesConsistent(clues, o)
    ensures AllSquaresArePermutations(g, o)
  {
    forall bi, bj | 0 <= bi < o && 0 <= bj < o ensures SquareIsPermutation(g, o, bi, bj) {
      FilledBlockIsPermutation(g, clues, o * bi, o * bj, o);
    }
  }

  lemma SameOutsideTrans(g: Grid, g1: Grid, g0: Grid, r0: int, c0: int, o: int)
    requires SameOutside(g, g1, r0, c0, o) && SameOutside(g1, g0, r0, c0, o)
    ensures SameOutside(g, g0, r0, c0, o)
  {
  }

  /** The number of cells with a clue in the same sub-square, from offset (p, q) onwards. */
  ghost function ClueCellsFrom(clues: Grid, r0: int, c0: int, o: int, p: int, q: int): (k: int)
    requires IsBoard(clues) && 0 <= r0 && r0 + o <= |clues| && 0 <= c0 && c0 + o <= |clues|
    requires 0 <= p && 0 <= q
    ensures k >= 0
    decreases o - p, o - q
  {
    if p >= o then 0
    else if q >= o then ClueCellsFrom(clues, r0, c0, o, p + 1, 0)
    else (if IsClue(clues[r0 + p][c0 + q]) then 1 else 0) + ClueCellsFrom(clues, r0, c0, o, p, q + 1)
  }

  /** From offset (p, q), the cells with and without a clue make up the rest of the square. */
  lemma {:induction false} CellsFrom(clues: Grid, r0: int, c0: int, o: int, p: int, q: int)
    requires IsBoard(clues) && 0 <= r0 && r0 + o <= |clues| && 0 <= c0 && c0 + o <= |clues|
    requires 0 <= p <= o && 0 <= q <= o
    ensures FreeCellsFrom(clues, r0, c0, o, p, q) + ClueCellsFrom(clues, r0, c0, o, p, q) == (o - p) * o - (if p < o then q else 0)
    decreases o - p, o - q
  {
    if p < o {
      if q == o {
        CellsFrom(clues, r0, c0, o, p + 1, 0);
        assert (o - p) * o - o == (o - p - 1) * o;
      } else {
        CellsFrom(clues, r0, c0, o, p, q + 1);
      }
    }
  }

  class Sudoku {
    var board: array2<int>     // the cell values, row by row
    var fixeds: array2<bool>   // true where the loaded value made the cell a clue
    var order: int             // the side of a sub-square; the board is n x n, n = order * order
    var n: int
    /** The board as loaded: the clues never change. */
    ghost var clues: Grid

    /** The object invariant: before loading, order and n are -1 and the board is
        empty; once loaded, 0 < order < 50, n = order * order, both grids are n x n,
        a cell is fixed exactly when its loaded value is greater than -1, and every
        fixed cell still holds that value. */
    ghost predicate Valid()
      reads this, board, fixeds
    {
      && ((order == -1 && n == -1 && |clues| == 0) || (0 < order < 50 && n == order * order && |clues| == n))
      && board.Length0 == |clues| && board.Length1 == |clues|
      && fixeds.Length0 == |clues| && fixeds.Length1 == |clues|
      && IsBoard(clues)
      && (forall i, j :: 0 <= i < |clues| && 0 <= j < |clues| ==> (fixeds[i, j] <==> IsClue(clues[i][j])))
      && (forall i, j :: 0 <= i < |clues| && 0 <= j < |clues| && fixeds[i, j] ==> board[i, j] == clues[i][j])
    }

    predicate Loaded()
      reads this
    {
      order != -1
    }

    constructor ()
      ensures Valid() && !Loaded()
      ensures order == -1 && n == -1 && clues == []
    {
      board := new int[0, 0];
      fixeds := new bool[0, 0];
      order := -1;
      n := -1;
      clues := [];
    }

    /** A copy of the board. */
    function Board(): (g: Grid)
      reads this, board
      ensures |g| == board.Length0
      ensures forall i :: 0 <= i < |g| ==> |g[i]| == board.Length1
      ensures forall i, j :: 0 <= i < board.Length0 && 0 <= j < board.Length1 ==> g[i][j] == board[i, j]
    {
      seq(board.Length0, i requires 0 <= i < board.Length0 reads this, board =>
        seq(board.Length1, j requires 0 <= i < board.Length0 && 0 <= j < board.Length1 reads this, board => board[i, j]))
    }

    /** The order: -1 before an instance is loaded. */
    function Order(): (o: int)
      reads this, board, fixeds
      requires Valid()
      ensures o == -1 <==> !Loaded()
      ensures Loaded() ==> 0 < o < 50 && o * o == n && board.Length0 == n && board.Length1 == n
    {
      order
    }

    function IsCellFixed(i: int, j: int): (fixed: bool)
      reads this, board, fixeds
      requires Valid() && Loaded() && 0 <= i < n && 0 <= j < n
      ensures fixed <==> IsClue(clues[i][j])
      ensures fixed ==> board[i, j] == clues[i][j]
    {
      fixeds[i, j]
    }

    /** Loads an instance of order `ord` from the n*n values that follow the
        order in the input, row after row; with `checkValidity`, also runs the
        feasibility check. Returns 1, or -1 when the check finds a clash. */
    method LoadInstance(ord: int, values: seq<int>, checkValidity: bool := true) returns (status: int)
      requires Valid() && !Loaded()
      requires 0 < ord < 50 && |values| == (ord * ord) * (ord * ord)
      requires checkValidity ==> forall v :: v in values && IsClue(v) ==> v <= ord * ord
      modifies this
      ensures Valid() && Loaded() && order == ord && n == ord * ord
      ensures fresh(board) && fresh(fixeds)
      ensures Flatten(clues) == values && Board() == clues
      ensures status == (if !checkValidity || CluesFeasible(clues) then 1 else -1)
    {
      Allocate(ord);
      ReadCells(values);
      if !checkValidity {
        return 1;
      }
      FlattenBounded(clues, n);
      status := CheckValidity();
    }

    /** Sizes the board for order `ord`. */
    method Allocate(ord: int)
      requires 0 < ord < 50
      modifies this
      ensures order == ord && n == ord * ord && clues == old(clues)
      ensures fresh(board) && fresh(fixeds)
      ensures board.Length0 == n && board.Length1 == n && fixeds.Length0 == n && fixeds.Length1 == n
    {
      order := ord;
      n := ord * ord;
      board := new int[n, n];
      fixeds := new bool[n, n];
    }

    /** Copies the values, row after row, into the freshly sized board, marking
        as fixed every cell whose value is greater than -1. */
    method ReadCells(values: seq<int>)
      requires 0 < n && board.Length0 == n && board.Length1 == n
      requires fixeds.Length0 == n && fixeds.Length1 == n && |values| == n * n
      modifies this`clues, board, fixeds
      ensures |clues| == n && IsBoard(clues) && Flatten(clues) == values && Board() == clues
      ensures forall r, c :: 0 <= r < n && 0 <= c < n ==>
        board[r, c] == clues[r][c] && (fixeds[r, c] <==> IsClue(clues[r][c]))
    {
      ghost var rows := ReadRows(values);
      clues := rows;
      ghost var g := Board();
      forall i | 0 <= i < n ensures g[i] == rows[i] {
        assert forall j :: 0 <= j < n ==> g[i][j] == rows[i][j];
      }
    }

    /** Copies the values into the board row after row, flagging the clues. */
    method ReadRows(values: seq<int>) returns (ghost rows: Grid)
      requires 0 < n && board.Length0 == n && board.Length1 == n
      requires fixeds.Length0 == n && fixeds.Length1 == n && |values| == n * n
      modifies board, fixeds
      ensures |rows| == n && IsBoard(rows) && Flatten(rows) == values
      ensures forall r, c :: 0 <= r < n && 0 <= c < n ==>
        board[r, c] == rows[r][c] && (fixeds[r, c] <==> IsClue(rows[r][c]))
    {
      rows := [];
      var k := 0;
      for i := 0 to n
        invariant |rows| == i && 0 <= k <= |values|
        invariant values[..k] == Flatten(rows)
        invariant k + (n - i) * n == |values|
        invariant forall r :: 0 <= r < i ==> |rows[r]| == n
        invariant forall r, c :: 0 <= r < i && 0 <= c < n ==>
          board[r, c] == rows[r][c] && (fixeds[r, c] <==> IsClue(rows[r][c]))
      {
        Arith.MulPred(n - i, n);
        Arith.MulNonneg(n - i - 1, n);
        var row := ReadRow(values, i, k);
        assert values[..k + n] == values[..k] + row;
        FlattenSnoc(rows, row);
        forall r, c | 0 <= r <= i && 0 <= c < n
          ensures board[r, c] == (rows + [row])[r][c] && (fixeds[r, c] <==> IsClue((rows + [row])[r][c]))
        {
          if r < i {
            assert (rows + [row])[r] == rows[r];
          }
        }
        rows := rows + [row];
        k := k + n;
      }
      assert values[..k] == values;
    }

    /** Row i of `ReadCells`: the n values from offset k on. */
    method ReadRow(values: seq<int>, i: int, k0: int) returns (ghost row: seq<int>)
      requires 0 <= i < n && board.Length0 == n && board.Length1 == n
      requires fixeds.Length0 == n && fixeds.Length1 == n && 0 <= k0 && k0 + n <= |values|
      modifies board, fixeds
      ensures row == values[k0..k0 + n]
      ensures forall c :: 0 <= c < n ==> board[i, c] == row[c] && (fixeds[i, c] <==> IsClue(row[c]))
      ensures forall r, c :: 0 <= r < n && 0 <= c < n && r != i ==>
        board[r, c] == old(board[r, c]) && fixeds[r, c] == old(fixeds[r, c])
    {
      row := values[k0..k0 + n];
      var k := k0;
      for j := 0 to n
        invariant k == k0 + j
        invariant forall c :: 0 <= c < j ==> board[i, c] == row[c] && (fixeds[i, c] <==> IsClue(row[c]))
        invariant forall r, c :: 0 <= r < n && 0 <= c < n && r != i ==>
          board[r, c] == old(board[r, c]) && fixeds[r, c] == old(fixeds[r, c])
      {
        board[i, j] := values[k];
        fixeds[i, j] := values[k] > -1;
        k := k + 1;
      }
    }

    /** The feasibility check of loading: -1 when some row, or some column, holds
        the same value in two fixed cells; 1 otherwise. */
    method CheckValidity() returns (status: int)
      requires Valid() && Loaded() && CluesBounded(clues)
      ensures status == 1 || status == -1
      ensures status == -1 <==> !CluesFeasible(clues)
    {
      // first every row, then every column
      for i := 0 to n
        invariant forall r :: 0 <= r < i ==> !HasClueClash(clues[r])
      {
        var clash := ScanRow(i);
        if clash {
          return -1;
        }
      }
      // the columns, scanned the same way
      for j := 0 to n
        invariant forall c :: 0 <= c < j ==> !HasClueClash(Column(clues, c))
      {
        var clash := ScanColumn(j);
        if clash {
          return -1;
        }
      }
      return 1;
    }

    /** One row of `CheckValidity`: whether two fixed cells of row i hold the same value. */
    method ScanRow(i: int) returns (clash: bool)
      requires Valid() && Loaded() && CluesBounded(clues) && 0 <= i < n
      ensures clash <==> HasClueClash(clues[i])
    {
      ghost var row := clues[i];
      var usedNumbers := seq(n + 1, _ => false);
      for j := 0 to n
        invariant |usedNumbers| == n + 1
        invariant forall v :: 0 <= v <= n ==> (usedNumbers[v] <==> v in ClueValues(row[..j]))
        invariant !HasClueClash(row[..j])
      {
        ClueScanStep(row, j);
        if IsCellFixed(i, j) {
          // a second clue of this value in the row
          if usedNumbers[board[i, j]] {
            ClashInPrefix(row, j + 1);
            return true;
          } else {
            usedNumbers := usedNumbers[board[i, j] := true];
          }
        }
      }
      assert row[..n] == row;
      clash := false;
    }

    /** One column of `CheckValidity`: whether two fixed cells of column j hold the same value. */
    method ScanColumn(j: int) returns (clash: bool)
      requires Valid() && Loaded() && CluesBounded(clues) && 0 <= j < n
      ensures clash <==> HasClueClash(Column(clues, j))
    {
      ghost var col := Column(clues, j);
      var usedNumbers := seq(n + 1, _ => false);
      for i := 0 to n
        invariant |usedNumbers| == n + 1
        invariant forall v :: 0 <= v <= n ==> (usedNumbers[v] <==> v in ClueValues(col[..i]))
        invariant !HasClueClash(col[..i])
      {
        ClueScanStep(col, i);
        if IsCellFixed(i, j) {
          // a second clue of this value in the column
          if usedNumbers[board[i, j]] {
            ClashInPrefix(col, i + 1);
            return true;
          } else {
            usedNumbers := usedNumbers[board[i, j] := true];
          }
        }
      }
      assert col[..n] == col;
      clash := false;
    }
    /** Exchanges the values of two cells, unless one of them is fixed. */
    method SwapCells(i1: int, j1: int, i2: int, j2: int)
      requires Valid() && Loaded()
      requires 0 <= i1 < n && 0 <= j1 < n && 0 <= i2 < n && 0 <= j2 < n
      modifies board
      ensures Valid()
      ensures Board() == if !IsClue(clues[i1][j1]) && !IsClue(clues[i2][j2])
        then Swap(old(Board()), i1, j1, i2, j2) else old(Board())
    {
      ghost var g := Board();
      // a fixed cell never moves
      if !IsCellFixed(i1, j1) && !IsCellFixed(i2, j2) {
        board[i1, j1], board[i2, j2] := board[i2, j2], board[i1, j1];
        ghost var h := Board();
        ghost var s := Swap(g, i1, j1, i2, j2);
        forall r | 0 <= r < n ensures h[r] == s[r] {
          assert forall c :: 0 <= c < n ==> h[r][c] == s[r][c];
        }
        assert h == s;
      } else {
        ghost var h := Board();
        forall r | 0 <= r < n ensures h[r] == g[r] {
          assert forall c :: 0 <= c < n ==> h[r][c] == g[r][c];
        }
        assert h == g;
      }
    }

    /** The cost of the board: -1 when some cell lies outside 1..n; otherwise, for
        every row and every column, the number of its cells that repeat a value
        seen earlier in it, summed (`Cost`, whose meaning `CostMeaning` states). */
    method EvaluateCurrentSolution() returns (cost: int)
      requires Valid() && Loaded()
      ensures cost == Cost(Board())
    {
      ghost var g := Board();
      var inRange, rowRepeats := AnalyzeRows(g);
      if !inRange {
        // the board is not properly filled
        return -1;
      }
      var columnRepeats := AnalyzeColumns(g);
      cost := rowRepeats + columnRepeats;
    }

    /** The row pass of `EvaluateCurrentSolution`: stops at the first value
        outside 1..n, otherwise sums the repeats of every row. */
    method AnalyzeRows(ghost g: Grid) returns (inRange: bool, cost: int)
      requires board.Length0 == n && board.Length1 == n && g == Board()
      ensures inRange <==> AllInRange(g)
      ensures inRange ==> cost == RowRepeats(g, n)
    {
      cost := 0;
      for i := 0 to n
        invariant cost == RowRepeats(g, i)
        invariant forall r, c :: 0 <= r < i && 0 <= c < n ==> 1 <= g[r][c] <= n
      {
        var rowInRange, repeats := AnalyzeRow(i, g);
        if !rowInRange {
          return false, cost;
        }
        cost := cost + repeats;
      }
      inRange := true;
    }

    /** The column pass of `EvaluateCurrentSolution`: sums the repeats of every column. */
    method AnalyzeColumns(ghost g: Grid) returns (cost: int)
      requires board.Length0 == n && board.Length1 == n && g == Board() && AllInRange(g)
      ensures cost == ColumnRepeats(g, n)
    {
      cost := 0;
      for j := 0 to n
        invariant cost == ColumnRepeats(g, j)
      {
        var repeats := AnalyzeColumn(j, g);
        cost := cost + repeats;
      }
    }

    /** One row of the evaluation: whether every cell of row i lies in 1..n (the
        scan stops at the first that does not) and, if so, how many of its cells
        repeat a value seen earlier in the row. */
    method AnalyzeRow(i: int, ghost g: Grid) returns (inRange: bool, repeats: int)
      requires board.Length0 == n && board.Length1 == n && 0 <= i < n && g == Board()
      ensures inRange <==> forall c :: 0 <= c < n ==> 1 <= g[i][c] <= n
      ensures inRange ==> repeats == Repeats(g[i])
    {
      ghost var line := g[i];
      repeats := 0;
      var usedNumbers := seq(n + 1, _ => false);
      for j := 0 to n
        invariant |usedNumbers| == n + 1
        invariant repeats == Repeats(line[..j])
        invariant forall c :: 0 <= c < j ==> 1 <= board[i, c] <= n
        invariant forall v :: 0 <= v <= n ==> (usedNumbers[v] <==> v in line[..j])
      {
        if board[i, j] < 1 || board[i, j] > n {
          return false, repeats;
        }
        assert line[..j + 1] == line[..j] + [line[j]];
        RepeatsSnoc(line[..j], line[j]);
        if usedNumbers[board[i, j]] {
          repeats := repeats + 1;
        } else {
          usedNumbers := usedNumbers[board[i, j] := true];
        }
      }
      assert line[..n] == line;
      inRange := true;
    }

    /** One column of the evaluation: how many cells of column j repeat a value
        seen earlier in the column. The column scan does not check the range;
        it is run once every cell is known to lie in 1..n. */
    method AnalyzeColumn(j: int, ghost g: Grid) returns (repeats: int)
      requires board.Length0 == n && board.Length1 == n && 0 <= j < n && g == Board()
      requires forall r :: 0 <= r < n ==> 1 <= g[r][j] <= n
      ensures repeats == Repeats(Column(g, j))
    {
      ghost var line := Column(g, j);
      repeats := 0;
      var usedNumbers := seq(n + 1, _ => false);
      for i := 0 to n
        invariant |usedNumbers| == n + 1
        invariant repeats == Repeats(line[..i])
        invariant forall v :: 0 <= v <= n ==> (usedNumbers[v] <==> v in line[..i])
      {
        assert line[..i + 1] == line[..i] + [line[i]];
        RepeatsSnoc(line[..i], line[i]);
        if usedNumbers[board[i, j]] {
          repeats := repeats + 1;
        } else {
          usedNumbers := usedNumbers[board[i, j] := true];
        }
      }
      assert line[..n] == line;
    }
    /** The initial solution: every sub-square, in turn, gets its cells without
        a clue filled with values of 1..n that the square does not hold yet.
        When the clues of every square are distinct values of 1..n, every
        sub-square ends up a permutation of 1..n. */
    method GenInitSolution()
      requires Valid() && Loaded() && CluesBounded(clues)
      modifies board
      ensures Valid()
      ensures AllSquaresFilled(Board(), clues, order)
      ensures CluesConsistent(clues, order) ==> AllSquaresArePermutations(Board(), order)
      ensures Board() == FillFrom(old(Board()), clues, order, 0, 0)
    {
      ghost var g0 := Board();
      for i := 0 to order
        invariant Valid() && FilledBefore(Board(), clues, order, i, 0)
        invariant FillFrom(g0, clues, order, 0, 0) == FillFrom(Board(), clues, order, i, 0)
      {
        for j := 0 to order
          invariant Valid() && FilledBefore(Board(), clues, order, i, j)
          invariant FillFrom(g0, clues, order, 0, 0) == FillFrom(Board(), clues, order, i, j)
        {
          ghost var before := Board();
          FillSquare(i, j);
          FilledBeforeStep(Board(), before, clues, order, i, j);
        }
        FilledBeforeRow(Board(), clues, order, i);
      }
      ghost var g := Board();
      assert KeepsClues(g, clues);
      if CluesConsistent(clues, order) {
        FilledSquaresArePermutations(g, clues, order);
      }
    }

    /** Fills sub-square (bi, bj): the values of its clues are marked used, then
        each cell without a clue, row by row, gets the first value not used yet
        that the cursor x (restarted at 0 for the square) reaches. */
    method FillSquare(bi: int, bj: int)
      requires Valid() && Loaded() && CluesBounded(clues)
      requires 0 <= bi < order && 0 <= bj < order
      modifies board
      ensures Valid()
      ensures BlockFilled(Board(), clues, order * bi, order * bj, order)
      ensures SameOutside(Board(), old(Board()), order * bi, order * bj, order)
      ensures Board() == FilledSquare(old(Board()), clues, order, bi, bj)
    {
      Arith.BlockBound(order, bi);
      Arith.BlockBound(order, bj);
      Arith.MulNonneg(order, bi);
      Arith.MulNonneg(order, bj);
      var r0, c0 := order * bi, order * bj;
      ghost var g0 := Board();
      ghost var g := g0;
      var used := MarkSquareClues(r0, c0);
      assert KeepsClues(g0, clues);
      FillProgressStart(g0, clues, r0, c0, order, used);
      var x := 0;
      // fill the cells without a clue
      for p := 0 to order
        invariant Valid() && x >= 0 && g == Board()
        invariant FillProgress(g, clues, r0, c0, order, p, 0, used)
        invariant SameOutside(g, g0, r0, c0, order)
        invariant |UsedValues(used)| + FreeCellsFrom(clues, r0, c0, order, p, 0) <= n
        invariant FilledSquare(g0, clues, order, bi, bj) == FillBlock(g, clues, r0, c0, order, p, 0, used, x)
      {
        ghost var g1 := g;
        used, x, g := FillSquareRow(r0, c0, p, used, x, g);
        SameOutsideTrans(g, g1, g0, r0, c0, order);
      }
      FillProgressDone(g, clues, r0, c0, order, used);
    }

    /** Row p of the second pass of `FillSquare`, over the sub-square whose
        top-left cell is (r0, c0). */
    method FillSquareRow(r0: int, c0: int, p: int, used0: seq<bool>, x0: int, ghost g0: Grid)
      returns (used: seq<bool>, x: int, ghost g: Grid)
      requires Valid() && Loaded() && 0 <= p < order
      requires 0 <= r0 && r0 + order <= n && 0 <= c0 && c0 + order <= n
      requires g0 == Board() && x0 >= 0
      requires FillProgress(g0, clues, r0, c0, order, p, 0, used0)
      requires |UsedValues(used0)| + FreeCellsFrom(clues, r0, c0, order, p, 0) <= n
      modifies board
      ensures Valid() && g == Board() && x >= 0
      ensures FillProgress(g, clues, r0, c0, order, p + 1, 0, used)
      ensures |UsedValues(used)| + FreeCellsFrom(clues, r0, c0, order, p + 1, 0) <= n
      ensures SameOutside(g, g0, r0, c0, order)
      ensures FillBlock(g0, clues, r0, c0, order, p, 0, used0, x0) == FillBlock(g, clues, r0, c0, order, p + 1, 0, used, x)
    {
      used, x, g := used0, x0, g0;
      for q := 0 to order
        invariant Valid() && x >= 0 && g == Board()
        invariant FillProgress(g, clues, r0, c0, order, p, q, used)
        invariant SameOutside(g, g0, r0, c0, order)
        invariant |UsedValues(used)| + FreeCellsFrom(clues, r0, c0, order, p, q) <= n
        invariant FillBlock(g0, clues, r0, c0, order, p, 0, used0, x0) == FillBlock(g, clues, r0, c0, order, p, q, used, x)
      {
        used, x, g := FillCell(r0, c0, p, q, used, x, g, g0);
      }
      FillProgressRow(g, clues, r0, c0, order, p, used);
    }

    /** Cell (r0 + p, c0 + q) of the second pass of `FillSquare`: a cell without
        a clue gets the first value not used yet from the cursor on. */
    method FillCell(r0: int, c0: int, p: int, q: int, used0: seq<bool>, x0: int, ghost g1: Grid, ghost g0: Grid)
      returns (used: seq<bool>, x: int, ghost g: Grid)
      requires Valid() && Loaded() && 0 <= p < order && 0 <= q < order
      requires 0 <= r0 && r0 + order <= n && 0 <= c0 && c0 + order <= n
      requires g1 == Board() && x0 >= 0
      requires FillProgress(g1, clues, r0, c0, order, p, q, used0)
      requires SameOutside(g1, g0, r0, c0, order)
      requires |UsedValues(used0)| + FreeCellsFrom(clues, r0, c0, order, p, q) <= n
      modifies board
      ensures Valid() && g == Board() && x >= 0
      ensures FillProgress(g, clues, r0, c0, order, p, q + 1, used)
      ensures SameOutside(g, g0, r0, c0, order)
      ensures |UsedValues(used)| + FreeCellsFrom(clues, r0, c0, order, p, q + 1) <= n
      ensures !IsClue(clues[r0 + p][c0 + q]) ==>
        && x0 < x && !used0[Candidate(x - 1, n)] && (forall z :: x0 <= z < x - 1 ==> used0[Candidate(z, n)])
        && g == Put(g1, r0 + p, c0 + q, Candidate(x - 1, n)) && used == used0[Candidate(x - 1, n) := true]
      ensures IsClue(clues[r0 + p][c0 + q]) ==> g == g1 && x == x0 && used == used0
      ensures FillBlock(g1, clues, r0, c0, order, p, q, used0, x0) == FillBlock(g, clues, r0, c0, order, p, q + 1, used, x)
    {
      used, x, g := used0, x0, g1;
      if !IsCellFixed(r0 + p, c0 + q) {
        var aux;
        aux, x := FirstAvailable(used, n, x);
        assert Board() == g;
        SetCell(r0 + p, c0 + q, aux);
        FillProgressPut(g, clues, r0, c0, order, p, q, used, aux);
        PutInside(g, g0, r0, c0, order, r0 + p, c0 + q, aux);
        UsedValuesMark(used, aux);
        FillBlockFree(g, clues, r0, c0, order, p, q, used, x0, x);
        g := Put(g, r0 + p, c0 + q, aux);
        used := used[aux := true];
        x := x + 1;
      } else {
        FillProgressSkip(g, clues, r0, c0, order, p, q, used);
        FillBlockClue(g, clues, r0, c0, order, p, q, used, x);
      }
    }

    /** Writes v into cell (r, c), which holds no clue. */
    method SetCell(r: int, c: int, v: int)
      requires Valid() && Loaded() && 0 <= r < n && 0 <= c < n && !IsClue(clues[r][c])
      modifies board
      ensures Valid()
      ensures Board() == Put(old(Board()), r, c, v)
    {
      ghost var g := Board();
      board[r, c] := v;
      ghost var h := Board();
      ghost var e := Put(g, r, c, v);
      forall i | 0 <= i < n ensures h[i] == e[i] {
        assert forall j :: 0 <= j < n ==> h[i][j] == e[i][j];
      }
      assert h == e;
    }

    /** The first pass of `FillSquare`: marks as used the value of every fixed
        cell of the sub-square whose top-left cell is (r0, c0). No more values are marked than there are
        fixed cells, so at least as many values stay free as there are cells
        without a clue. */
    method MarkSquareClues(r0: int, c0: int) returns (used: seq<bool>)
      requires Valid() && Loaded() && CluesBounded(clues)
      requires 0 <= r0 && r0 + order <= n && 0 <= c0 && c0 + order <= n
      ensures used == ClueMarks(clues, r0, c0, order)
      ensures CluesMarked(clues, r0, c0, order, order, 0, used)
      ensures |UsedValues(used)| + FreeCellsFrom(clues, r0, c0, order, 0, 0) <= n
    {
      used := seq(n + 1, _ => false);
      CluesMarkedStart(clues, r0, c0, order, used);
      ghost var clueCells := ClueCellsFrom(clues, r0, c0, order, 0, 0);
      // the clues of the square are marked first
      for p := 0 to order
        invariant CluesMarked(clues, r0, c0, order, p, 0, used) && OnlyCluesMarked(clues, r0, c0, order, p, 0, used)
        invariant |UsedValues(used)| + ClueCellsFrom(clues, r0, c0, order, p, 0) <= clueCells
      {
        used := MarkRowClues(r0, c0, p, used, clueCells);
      }
      MarkingDone(clues, r0, c0, order, used, clueCells);
    }

    /** Row p of the first pass of `MarkSquareClues`. */
    method MarkRowClues(r0: int, c0: int, p: int, used0: seq<bool>, ghost clueCells: int) returns (used: seq<bool>)
      requires Valid() && Loaded() && CluesBounded(clues) && 0 <= p < order
      requires 0 <= r0 && r0 + order <= n && 0 <= c0 && c0 + order <= n
      requires CluesMarked(clues, r0, c0, order, p, 0, used0) && OnlyCluesMarked(clues, r0, c0, order, p, 0, used0)
      requires |UsedValues(used0)| + ClueCellsFrom(clues, r0, c0, order, p, 0) <= clueCells
      ensures CluesMarked(clues, r0, c0, order, p + 1, 0, used) && OnlyCluesMarked(clues, r0, c0, order, p + 1, 0, used)
      ensures |UsedValues(used)| + ClueCellsFrom(clues, r0, c0, order, p + 1, 0) <= clueCells
    {
      used := used0;
      for q := 0 to order
        invariant CluesMarked(clues, r0, c0, order, p, q, used) && OnlyCluesMarked(clues, r0, c0, order, p, q, used)
        invariant |UsedValues(used)| + ClueCellsFrom(clues, r0, c0, order, p, q) <= clueCells
      {
        ghost var before, cell := used, clues[r0 + p][c0 + q];
        assert IsClue(cell) ==> cell <= n;
        if IsCellFixed(r0 + p, c0 + q) {
          var aux := board[r0 + p, c0 + q];
          used := used[aux := true];
        }
        assert used == if IsClue(cell) then before[cell := true] else before;
        CluesMarkedStep(clues, r0, c0, order, p, q, before, used, clueCells);
        OnlyCluesMarkedStep(clues, r0, c0, order, p, q, before, used);
      }
      CluesMarkedRow(clues, r0, c0, order, p, used);
      OnlyCluesMarkedRow(clues, r0, c0, order, p, used);
    }

    /** Runs the solver: generates the initial solution, then anneals until the cost
        reaches zero. rand() is read from `draws`; `accept` decides whether a worse
        candidate is kept in a given stage, for a given increase and draw. Returns
        whether the board is solved, the cost of the initial and of the final board. */
    method Solve(stagesLength: int, draws: seq<nat>, accept: (nat, int, nat) -> bool)
      returns (solved: bool, initialSolution: int, finalSolution: int, ghost start: Grid, ghost trace: seq<Step>)
      requires Valid() && Loaded() && CluesBounded(clues) && stagesLength > 0
      modifies board
      ensures Valid() && IsBoard(start) && |start| == n
      ensures AllSquaresFilled(start, clues, order) && start == FillFrom(old(Board()), clues, order, 0, 0)
      ensures CluesConsistent(clues, order) ==> AllSquaresArePermutations(start, order)
      ensures initialSolution == Cost(start)
      ensures Follows(start, clues, order, draws, accept, stagesLength, trace)
      ensures Board() == Replay(start, trace)
      ensures NextStep(clues, order, draws, EndOf(trace), Board(), Stage(|trace|, stagesLength), accept) == None
      ensures finalSolution == Cost(Board())
      ensures solved <==> finalSolution == 0
      ensures KeepsClues(Board(), clues)
      ensures CluesConsistent(clues, order) ==> AllSquaresArePermutations(Board(), order)
      ensures solved && CluesConsistent(clues, order) ==> IsSolution(Board(), order)
    {
      var cur;
      cur, start := Start();
      initialSolution := cur;
      trace := [];
      var pos := 0;
      var stage := 0;
      while cur > 0
        invariant Valid() && Loaded() && Board() == Replay(start, trace)
        invariant Follows(start, clues, order, draws, accept, stagesLength, trace)
        invariant pos == EndOf(trace) && pos <= |draws| && cur == Cost(Board())
        invariant cur > 0 ==> |trace| == stage * stagesLength
        decreases |draws| - pos
      {
        var halted;
        halted, pos, cur, trace := RunStage(draws, accept, stagesLength, stage, pos, cur, start, trace);
        if halted {
          break;
        }
        Arith.MulPred(stage + 1, stagesLength);
        stage := stage + 1;   // lowers the temperature
      }
      finalSolution := cur;
      solved := cur == 0;
      RunOutcome(start, clues, order, draws, accept, stagesLength, trace);
    }

    /** The start of `Solve`: the initial solution and its cost. */
    method Start() returns (cost: int, ghost start: Grid)
      requires Valid() && Loaded() && CluesBounded(clues)
      modifies board
      ensures Valid() && Board() == start && IsBoard(start) && |start| == n
      ensures AllSquaresFilled(start, clues, order) && start == FillFrom(old(Board()), clues, order, 0, 0)
      ensures CluesConsistent(clues, order) ==> AllSquaresArePermutations(start, order)
      ensures KeepsClues(start, clues) && cost == Cost(start)
    {
      GenInitSolution();
      start := Board();
      cost := EvaluateCurrentSolution();
    }

    /** One temperature stage: up to `stagesLength` iterations of the inner loop, fewer
        when the cost reaches zero. Returns true when the draws ran out first. */
    method RunStage(draws: seq<nat>, accept: (nat, int, nat) -> bool, stagesLength: int, stage: nat,
                    pos0: nat, cur0: int, ghost start: Grid, ghost trace0: seq<Step>)
      returns (halted: bool, pos: nat, cur: int, ghost trace: seq<Step>)
      requires Valid() && Loaded() && stagesLength > 0 && IsBoard(start) && |start| == n
      requires Board() == Replay(start, trace0) && Follows(start, clues, order, draws, accept, stagesLength, trace0)
      requires pos0 == EndOf(trace0) && pos0 <= |draws| && cur0 == Cost(Board()) && cur0 > 0
      requires |trace0| == stage * stagesLength
      modifies board
      ensures Valid() && Board() == Replay(start, trace) && Follows(start, clues, order, draws, accept, stagesLength, trace)
      ensures pos == EndOf(trace) && pos <= |draws| && cur == Cost(Board())
      ensures halted ==> NextStep(clues, order, draws, pos, Board(), Stage(|trace|, stagesLength), accept) == None
      ensures !halted ==> pos > pos0 && (cur > 0 ==> |trace| == |trace0| + stagesLength)
    {
      pos, cur, trace := pos0, cur0, trace0;
      for stageI := 0 to stagesLength
        invariant Valid() && Board() == Replay(start, trace)
        invariant Follows(start, clues, order, draws, accept, stagesLength, trace)
        invariant pos == EndOf(trace) && pos <= |draws| && cur == Cost(Board())
        invariant |trace| == |trace0| + stageI
        invariant stageI == 0 ==> pos == pos0 && cur > 0
        invariant stageI > 0 ==> pos > pos0
        invariant cur <= 0 ==> stageI > 0
      {
        if cur <= 0 {
          break;
        }
        Arith.ModUnique(|trace|, stagesLength, stage, stageI);
        var stepped, next, newCur, s := AnnealStep(draws, accept, stage, pos, cur, Board());
        if !stepped {
          return true, pos, cur, trace;
        }
        FollowsSnoc(start, clues, order, draws, accept, stagesLength, trace, s);
        TraceSnoc(start, clues, order, trace, s);
        trace := trace + [s];
        pos, cur := next, newCur;
      }
      halted := false;
    }

    /** One iteration of the inner annealing loop from draw position `pos`: selects a
        move, swaps, evaluates, and keeps the candidate or swaps it back. Returns false,
        with the board unchanged, when the draws run out. */
    method AnnealStep(draws: seq<nat>, accept: (nat, int, nat) -> bool, stage: nat, pos: nat, cur: int, ghost g: Grid)
      returns (stepped: bool, next: nat, newCur: int, ghost s: Step)
      requires Valid() && Loaded() && Board() == g && cur == Cost(g) && cur > 0
      modifies board
      ensures Valid()
      ensures stepped ==> NextStep(clues, order, draws, pos, g, stage, accept) == Some(s)
      ensures stepped ==> next == s.next && newCur == (if s.kept then s.after else s.before)
      ensures stepped ==> Board() == if s.kept then Apply(g, s.move) else g
      ensures !stepped ==> NextStep(clues, order, draws, pos, g, stage, accept) == None
      ensures !stepped ==> Board() == g
    {
      var found, m, p := SelectMove(draws, pos);
      s := Step(m, cur, cur, false, p);
      if !found {
        return false, pos, cur, s;
      }
      assert Board() == g;
      var candidate := TryMove(m);
      NextStepPicked(clues, order, draws, pos, g, stage, accept, m, p, cur, candidate);
      if candidate <= cur {
        s := Step(m, cur, candidate, true, p);
        return true, p, candidate, s;
      }
      if p >= |draws| {
        // no draw left for the acceptance test
        UndoMove(m, g);
        return false, pos, cur, s;
      }
      var r := draws[p];
      if accept(stage, candidate - cur, r) {
        s := Step(m, cur, candidate, true, p + 1);
        newCur := candidate;
      } else {
        // rejected: restore the board
        UndoMove(m, g);
        s := Step(m, cur, candidate, false, p + 1);
        newCur := cur;
      }
      stepped, next := true, p + 1;
    }

    /** Swaps the two cells of a legal move and evaluates the candidate board. */
    method TryMove(m: Move) returns (candidate: int)
      requires Valid() && Loaded() && LegalMove(clues, order, m)
      modifies board
      ensures Valid() && Board() == Apply(old(Board()), m) && candidate == Cost(Board())
    {
      SwapCells(m.r1, m.c1, m.r2, m.c2);
      candidate := EvaluateCurrentSolution();
    }

    /** Swaps the two cells of a legal move back, restoring board g. */
    method UndoMove(m: Move, ghost g: Grid)
      requires Valid() && Loaded() && LegalMove(clues, order, m) && Board() == Apply(g, m)
      modifies board
      ensures Valid() && Board() == g
    {
      SwapCells(m.r1, m.c1, m.r2, m.c2);
      UndoRestores(g, m);
    }

    /** The selection loop: draws a square and two cells in it, six draws at a time,
        until neither cell is fixed. Returns false when the draws run out first. */
    method SelectMove(draws: seq<nat>, pos: nat) returns (found: bool, m: Move, next: nat)
      requires Valid() && Loaded()
      ensures found ==> Pick(clues, order, draws, pos) == Some((m, next))
      ensures !found ==> Pick(clues, order, draws, pos) == None
    {
      var k := pos;
      while k + 6 <= |draws|
        invariant Pick(clues, order, draws, pos) == Pick(clues, order, draws, k)
        decreases |draws| - k
      {
        // the square: block row and block column
        var i := draws[k] % order;
        var j := draws[k + 1] % order;
        // the two cells, offsets inside that square
        var p1, q1, p2, q2 := order * i, order * j, order * i, order * j;
        p1 := p1 + draws[k + 2] % order;
        q1 := q1 + draws[k + 3] % order;
        p2 := p2 + draws[k + 4] % order;
        q2 := q2 + draws[k + 5] % order;
        m := Move(i, j, p1, q1, p2, q2);
        assert m == DrawnMove(order, draws, k);
        if !IsCellFixed(p1, q1) && !IsCellFixed(p2, q2) {
          return true, m, k + 6;
        }
        k := k + 6;
      }
      found, m, next := false, Move(0, 0, 0, 0, 0, 0), k;
    }
  }
}
