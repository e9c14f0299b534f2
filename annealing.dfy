/** The annealing loop as a state machine over boards: each inner iteration
    proposes a move, measures the cost before and after it, and keeps or undoes it. */
module Annealing {
  import opened Grids
  import Arith

  datatype Option<T> = None | Some(value: T)

  /** Two cells of sub-square (bi, bj) picked to be exchanged. */
  datatype Move = Move(bi: int, bj: int, r1: int, c1: int, r2: int, c2: int)

  /** One inner iteration: the move, the cost before and after applying it,
      whether the move was kept (otherwise it was swapped back), and the
      position in the draws of rand() where the next iteration starts. */
  datatype Step = Step(move: Move, before: int, after: int, kept: bool, next: nat)

  /** The move selects two cells without a clue in one sub-square. */
  ghost predicate LegalMove(clues: Grid, o: int, m: Move) {
    && IsBoard(clues) && 0 <= m.bi < o && 0 <= m.bj < o
    && Within(clues, m.r1, m.c1) && InSquare(o, m.bi, m.bj, m.r1, m.c1) && !IsClue(clues[m.r1][m.c1])
    && Within(clues, m.r2, m.c2) && InSquare(o, m.bi, m.bj, m.r2, m.c2) && !IsClue(clues[m.r2][m.c2])
  }

  ghost function Apply(g: Grid, m: Move): Grid {
    Swap(g, m.r1, m.c1, m.r2, m.c2)
  }

  /** The board after the steps of `t`, starting from `g0`: kept moves are applied,
      undone ones leave the board as it was. */
  ghost function Replay(g0: Grid, t: seq<Step>): (g: Grid)
    ensures |g| == |g0| && (IsBoard(g0) ==> IsBoard(g))
    decreases |t|
  {
    if t == [] then g0
    else
      var g := Replay(g0, t[..|t| - 1]);
      if t[|t| - 1].kept then Apply(g, t[|t| - 1].move) else g
  }

  /** A step the loop can take from board g: a legal move, taken while the cost is
      positive, with the costs measured, and kept whenever it does not make things worse. */
  ghost predicate StepOK(g: Grid, clues: Grid, o: int, s: Step) {
    && IsBoard(g)
    && LegalMove(clues, o, s.move)
    && s.before == Cost(g) && s.before > 0
    && s.after == Cost(Apply(g, s.move))
    && (s.after <= s.before ==> s.kept)
  }

  ghost predicate ValidTrace(g0: Grid, clues: Grid, o: int, t: seq<Step>)
    decreases |t|
  {
    if t == [] then true
    else ValidTrace(g0, clues, o, t[..|t| - 1]) && StepOK(Replay(g0, t[..|t| - 1]), clues, o, t[|t| - 1])
  }

  /** Appending one step to a trace. */
  lemma TraceSnoc(g0: Grid, clues: Grid, o: int, t: seq<Step>, s: Step)
    ensures Replay(g0, t + [s]) == if s.kept then Apply(Replay(g0, t), s.move) else Replay(g0, t)
    ensures ValidTrace(g0, clues, o, t + [s]) <==> ValidTrace(g0, clues, o, t) && StepOK(Replay(g0, t), clues, o, s)
  {
    assert (t + [s])[..|t|] == t;
  }

  /** A legal move leaves every fixed cell alone. */
  lemma LegalMoveKeepsClues(g: Grid, clues: Grid, o: int, m: Move)
    requires KeepsClues(g, clues) && LegalMove(clues, o, m)
    ensures KeepsClues(Apply(g, m), clues)
  {
    var h := Apply(g, m);
    forall r, c | 0 <= r < |h| && 0 <= c < |h| && IsClue(clues[r][c]) ensures h[r][c] == clues[r][c] {
      assert Within(g, r, c);
    }
  }

  /** However the moves were chosen and decided, fixed cells never change. */
  lemma {:induction false} TraceKeepsClues(g0: Grid, clues: Grid, o: int, t: seq<Step>)
    requires KeepsClues(g0, clues) && ValidTrace(g0, clues, o, t)
    ensures KeepsClues(Replay(g0, t), clues)
    decreases |t|
  {
    if t != [] {
      var t' := t[..|t| - 1];
      TraceKeepsClues(g0, clues, o, t');
      if t[|t| - 1].kept {
        LegalMoveKeepsClues(Replay(g0, t'), clues, o, t[|t| - 1].move);
      }
    }
  }

  /** However the moves were chosen and decided, every sub-square that was a
      permutation of 1..n stays one. */
  lemma {:induction false} TraceKeepsSquares(g0: Grid, clues: Grid, o: int, t: seq<Step>)
    requires IsBoard(g0) && |g0| == |clues| && AllSquaresArePermutations(g0, o) && ValidTrace(g0, clues, o, t)
    ensures AllSquaresArePermutations(Replay(g0, t), o)
    decreases |t|
  {
    if t != [] {
      var t' := t[..|t| - 1];
      var m := t[|t| - 1].move;
      TraceKeepsSquares(g0, clues, o, t');
      if t[|t| - 1].kept {
        var g := Replay(g0, t');
        assert LegalMove(clues, o, m);
        assert Within(g, m.r1, m.c1) && Within(g, m.r2, m.c2);
        SwapKeepsSquares(g, o, m.bi, m.bj, m.r1, m.c1, m.r2, m.c2);
      }
    }
  }

  /** A rejected move, applied and then applied again, leaves the board as it was. */
  lemma UndoRestores(g: Grid, m: Move)
    ensures Apply(Apply(g, m), m) == g
  {
    SwapTwice(g, m.r1, m.c1, m.r2, m.c2);
  }

  // ---------------------------------------------------------------------------
  // The run the solver takes for a given sequence of draws of rand()

  /** The candidate of one selection attempt, from the six draws starting at d[k]:
      the square (i, j), then the row and column offsets of both cells in it. */
  function DrawnMove(o: int, d: seq<nat>, k: nat): (m: Move)
    requires o > 0 && k + 6 <= |d|
    ensures 0 <= m.bi < o && 0 <= m.bj < o
    ensures InSquare(o, m.bi, m.bj, m.r1, m.c1) && InSquare(o, m.bi, m.bj, m.r2, m.c2)
    ensures 0 <= m.r1 < o * o && 0 <= m.c1 < o * o && 0 <= m.r2 < o * o && 0 <= m.c2 < o * o
  {
    var i, j := d[k] % o, d[k + 1] % o;
    Arith.BlockBound(o, i);
    Arith.BlockBound(o, j);
    Arith.MulNonneg(o, i);
    Arith.MulNonneg(o, j);
    Move(i, j, o * i + d[k + 2] % o, o * j + d[k + 3] % o, o * i + d[k + 4] % o, o * j + d[k + 5] % o)
  }

  /** The selection loop from draw position k: the first candidate whose two cells
      are both free, with the position after its draws; None when the draws run out first. */
  ghost function Pick(clues: Grid, o: int, d: seq<nat>, k: nat): (r: Option<(Move, nat)>)
    requires IsBoard(clues) && o > 0 && |clues| == o * o
    ensures r.Some? ==> LegalMove(clues, o, r.value.0) && k + 6 <= r.value.1 <= |d|
    decreases |d| - k
  {
    if k + 6 > |d| then None
    else
      var m := DrawnMove(o, d, k);
      if !IsClue(clues[m.r1][m.c1]) && !IsClue(clues[m.r2][m.c2]) then Some((m, k + 6))
      else Pick(clues, o, d, k + 6)
  }

  /** One iteration of the inner loop on board g, from draw position k, in stage `stage`
      (the number of times the temperature has been lowered); None when the loop stops
      there because the cost is not positive or the draws run out. A candidate that is no
      worse is kept; a worse one is kept when `accept` says so for the stage, the increase
      and the next draw. */
  ghost function NextStep(clues: Grid, o: int, d: seq<nat>, k: nat, g: Grid, stage: nat,
                          accept: (nat, int, nat) -> bool): (r: Option<Step>)
    requires IsBoard(clues) && o > 0 && |clues| == o * o && IsBoard(g) && |g| == |clues|
    ensures r.Some? ==> k + 6 <= r.value.next <= |d| && StepOK(g, clues, o, r.value)
  {
    if Cost(g) <= 0 then None
    else
      match Pick(clues, o, d, k)
      case None => None
      case Some((m, p)) =>
        var before, after := Cost(g), Cost(Apply(g, m));
        if after <= before then Some(Step(m, before, after, true, p))
        else if p < |d| then Some(Step(m, before, after, accept(stage, after - before, d[p]), p + 1))
        else None
  }

  /** The stage an iteration belongs to, when every stage runs L iterations. */
  function Stage(k: nat, L: int): nat
    requires L > 0
  {
    k / L
  }

  /** NextStep, once the selection loop has found move m and the position p after its draws. */
  lemma NextStepPicked(clues: Grid, o: int, d: seq<nat>, k: nat, g: Grid, stage: nat,
                       accept: (nat, int, nat) -> bool, m: Move, p: nat, before: int, after: int)
    requires IsBoard(clues) && o > 0 && |clues| == o * o && IsBoard(g) && |g| == |clues|
    requires Pick(clues, o, d, k) == Some((m, p)) && before == Cost(g) && after == Cost(Apply(g, m)) && before > 0
    ensures after <= before ==> NextStep(clues, o, d, k, g, stage, accept) == Some(Step(m, before, after, true, p))
    ensures after > before && p < |d| ==>
      NextStep(clues, o, d, k, g, stage, accept) == Some(Step(m, before, after, accept(stage, after - before, d[p]), p + 1))
    ensures after > before && p >= |d| ==> NextStep(clues, o, d, k, g, stage, accept) == None
  {
    if after > before && p < |d| {
      var kept := accept(stage, after - before, d[p]);
      assert NextStep(clues, o, d, k, g, stage, accept) == Some(Step(m, before, after, kept, p + 1));
    }
  }

  /** Where the draws stand after the steps of t. */
  ghost function EndOf(t: seq<Step>): nat {
    if t == [] then 0 else t[|t| - 1].next
  }

  /** t is the sequence of steps the solver takes from board g0 with draws d,
      in stages of L iterations each. */
  ghost predicate Follows(g0: Grid, clues: Grid, o: int, d: seq<nat>, accept: (nat, int, nat) -> bool, L: int, t: seq<Step>)
    requires IsBoard(clues) && o > 0 && |clues| == o * o && IsBoard(g0) && |g0| == |clues| && L > 0
    decreases |t|
  {
    if t == [] then true
    else
      var t' := t[..|t| - 1];
      && Follows(g0, clues, o, d, accept, L, t')
      && NextStep(clues, o, d, EndOf(t'), Replay(g0, t'), Stage(|t| - 1, L), accept) == Some(t[|t| - 1])
  }

  /** Extending the run by one step. */
  lemma FollowsSnoc(g0: Grid, clues: Grid, o: int, d: seq<nat>, accept: (nat, int, nat) -> bool, L: int, t: seq<Step>, s: Step)
    requires IsBoard(clues) && o > 0 && |clues| == o * o && IsBoard(g0) && |g0| == |clues| && L > 0
    requires Follows(g0, clues, o, d, accept, L, t)
    requires NextStep(clues, o, d, EndOf(t), Replay(g0, t), Stage(|t|, L), accept) == Some(s)
    ensures Follows(g0, clues, o, d, accept, L, t + [s]) && EndOf(t + [s]) == s.next
  {
    assert (t + [s])[..|t|] == t;
  }

  /** The solver's run is one of the runs the annealing state machine allows. */
  lemma {:induction false} FollowsIsValid(g0: Grid, clues: Grid, o: int, d: seq<nat>, accept: (nat, int, nat) -> bool, L: int, t: seq<Step>)
    requires IsBoard(clues) && o > 0 && |clues| == o * o && IsBoard(g0) && |g0| == |clues| && L > 0
    requires Follows(g0, clues, o, d, accept, L, t)
    ensures ValidTrace(g0, clues, o, t)
    decreases |t|
  {
    if t != [] {
      FollowsIsValid(g0, clues, o, d, accept, L, t[..|t| - 1]);
    }
  }

  /** What a finished run establishes: its steps form a valid trace, so the fixed cells
      still hold their clues and, when the clues of every sub-square were consistent,
      every sub-square is still a permutation; a zero cost then means the board is a
      solution. */
  lemma RunOutcome(g0: Grid, clues: Grid, o: int, d: seq<nat>, accept: (nat, int, nat) -> bool, L: int, t: seq<Step>)
    requires IsBoard(clues) && o > 0 && |clues| == o * o && IsBoard(g0) && |g0| == |clues| && L > 0
    requires KeepsClues(g0, clues) && Follows(g0, clues, o, d, accept, L, t)
    requires CluesConsistent(clues, o) ==> AllSquaresArePermutations(g0, o)
    ensures KeepsClues(Replay(g0, t), clues)
    ensures CluesConsistent(clues, o) ==> AllSquaresArePermutations(Replay(g0, t), o)
    ensures Cost(Replay(g0, t)) == 0 && CluesConsistent(clues, o) ==> IsSolution(Replay(g0, t), o)
  {
    FollowsIsValid(g0, clues, o, d, accept, L, t);
    TraceKeepsClues(g0, clues, o, t);
    if CluesConsistent(clues, o) {
      TraceKeepsSquares(g0, clues, o, t);
      CostMeaning(Replay(g0, t));
    }
  }
}
