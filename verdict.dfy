/**
 What `checkSolution` reports about a player's board against the solution,
 stated as a row-major scan over board values.
 */
module Verdict {
  import opened Wrappers
  import opened Grid
  import opened Rules

  /** The report: no mismatch found, no empty cell seen, and the first mismatch if any. */
  datatype CheckResult = CheckResult(isCorrect: bool, isComplete: bool, firstError: Option<(int, int)>)

  /**
   The scan from cell (r, c) on, in row-major order, with `complete` telling
   whether every cell before (r, c) was filled. It stops at the first filled
   cell that differs from the solution.
   */
  function CheckFrom(p: Board, s: Board, r: int, c: int, complete: bool): CheckResult
    requires IsBoard(p) && IsBoard(s)
    requires 0 <= r <= GridSize && 0 <= c <= GridSize
    decreases GridSize - r, GridSize - c
  {
    if r == GridSize then CheckResult(true, complete, None)
    else if c == GridSize then CheckFrom(p, s, r + 1, 0, complete)
    else
      var complete' := complete && p[r][c].Num?;
      if p[r][c].Num? && p[r][c] != s[r][c] then CheckResult(false, complete', Some((r, c)))
      else CheckFrom(p, s, r, c + 1, complete')
  }

  /** The report on board `p` against solution `s`. */
  function Check(p: Board, s: Board): CheckResult
    requires IsBoard(p) && IsBoard(s)
  {
    CheckFrom(p, s, 0, 0, true)
  }

  /** (x, y) lies in the stretch of the row-major order that starts at (r, c). */
  predicate FromOn(r: int, c: int, x: int, y: int) {
    InRange(x, y) && !Before(x, y, r, c)
  }

  /** Every cell from (r, c) on and before (er, ec) is empty or matches. */
  ghost predicate MatchesBetween(p: Board, s: Board, r: int, c: int, er: int, ec: int)
    requires IsBoard(p) && IsBoard(s)
  {
    forall x, y :: FromOn(r, c, x, y) && Before(x, y, er, ec) ==> Matches(p, s, x, y)
  }

  /** Every cell from (r, c) on and before (er, ec) is filled. */
  ghost predicate FilledBetween(p: Board, r: int, c: int, er: int, ec: int)
    requires IsBoard(p)
  {
    forall x, y :: FromOn(r, c, x, y) && Before(x, y, er, ec) ==> p[x][y].Num?
  }

  /**
   What the scan from (r, c) reports: either the first mismatching cell from
   (r, c) on, with every cell between matching, or no error and every cell
   from (r, c) on matching; completeness is `complete` together with every
   scanned cell being filled.
   */
  lemma {:induction false} CheckFromSound(p: Board, s: Board, r: int, c: int, complete: bool)
    requires IsBoard(p) && IsBoard(s)
    requires 0 <= r <= GridSize && 0 <= c <= GridSize
    ensures var res := CheckFrom(p, s, r, c, complete);
      && (res.isCorrect <==> res.firstError.None?)
      && (res.firstError.Some? ==>
            var (er, ec) := res.firstError.value;
            && FromOn(r, c, er, ec)
            && p[er][ec].Num? && p[er][ec] != s[er][ec]
            && MatchesBetween(p, s, r, c, er, ec)
            && (res.isComplete <==> complete && FilledBetween(p, r, c, er, ec)))
      && (res.firstError.None? ==>
            && MatchesBetween(p, s, r, c, GridSize, 0)
            && (res.isComplete <==> complete && FilledBetween(p, r, c, GridSize, 0)))
    decreases GridSize - r, GridSize - c
  {
    if r == GridSize {
    } else if c == GridSize {
      CheckFromSound(p, s, r + 1, 0, complete);
    } else {
      var complete' := complete && p[r][c].Num?;
      if !(p[r][c].Num? && p[r][c] != s[r][c]) {
        CheckFromSound(p, s, r, c + 1, complete');
      }
    }
  }

  /**
   When the check reports an error at (r, c), that cell is filled and differs
   from the solution, every earlier cell in row-major order is empty or
   matches, the board is reported incorrect, and it is reported complete
   exactly when no earlier cell is empty.
   */
  lemma CheckFirstError(p: Board, s: Board)
    requires IsBoard(p) && IsBoard(s)
    requires Check(p, s).firstError.Some?
    ensures var res := Check(p, s);
      var (r, c) := res.firstError.value;
      && InRange(r, c)
      && p[r][c].Num? && p[r][c] != s[r][c]
      && (forall x, y :: InRange(x, y) && Before(x, y, r, c) ==> Matches(p, s, x, y))
      && !res.isCorrect
      && (res.isComplete <==> forall x, y :: InRange(x, y) && Before(x, y, r, c) ==> p[x][y].Num?)
  {
    CheckFromSound(p, s, 0, 0, true);
  }

  /**
   When the check reports no error, the board is correct, every filled cell
   matches the solution, and it is complete exactly when no cell is empty.
   */
  lemma CheckNoError(p: Board, s: Board)
    requires IsBoard(p) && IsBoard(s)
    requires Check(p, s).firstError.None?
    ensures Check(p, s).isCorrect && Agrees(p, s)
    ensures Check(p, s).isComplete <==> Full(p)
  {
    CheckFromSound(p, s, 0, 0, true);
  }

  /** A board is reported correct exactly when all its filled cells match the solution. */
  lemma CheckCorrectIffAgrees(p: Board, s: Board)
    requires IsBoard(p) && IsBoard(s)
    ensures Check(p, s).isCorrect <==> Agrees(p, s)
    ensures Check(p, s).isCorrect <==> Check(p, s).firstError.None?
  {
    CheckFromSound(p, s, 0, 0, true);
    if Check(p, s).firstError.Some? {
      var (r, c) := Check(p, s).firstError.value;
      assert !Matches(p, s, r, c);
    }
  }

  /**
   The reported error is the first mismatch in row-major order: a filled
   cell that differs from the solution, with every earlier cell empty or
   matching, is exactly the one reported.
   */
  lemma CheckReportsFirstMismatch(p: Board, s: Board, r: int, c: int)
    requires IsBoard(p) && IsBoard(s) && InRange(r, c)
    requires p[r][c].Num? && p[r][c] != s[r][c]
    requires forall x, y :: InRange(x, y) && Before(x, y, r, c) ==> Matches(p, s, x, y)
    ensures Check(p, s).firstError == Some((r, c))
    ensures !Check(p, s).isCorrect
  {
    CheckFromFinds(p, s, 0, 0, true, r, c);
  }

  lemma {:induction false} CheckFromFinds(p: Board, s: Board, r0: int, c0: int, complete: bool, r: int, c: int)
    requires IsBoard(p) && IsBoard(s) && InRange(r, c)
    requires 0 <= r0 <= GridSize && 0 <= c0 <= GridSize && FromOn(r0, c0, r, c)
    requires p[r][c].Num? && p[r][c] != s[r][c]
    requires MatchesBetween(p, s, r0, c0, r, c)
    ensures CheckFrom(p, s, r0, c0, complete).firstError == Some((r, c))
    ensures !CheckFrom(p, s, r0, c0, complete).isCorrect
    decreases GridSize - r0, GridSize - c0
  {
    if c0 == GridSize {
      CheckFromFinds(p, s, r0 + 1, 0, complete, r, c);
    } else if (r0, c0) != (r, c) {
      assert Matches(p, s, r0, c0);
      CheckFromFinds(p, s, r0, c0 + 1, complete && p[r0][c0].Num?, r, c);
    }
  }

  /** A full board checked against itself is correct and complete. */
  lemma CheckSelf(s: Board)
    requires IsBoard(s) && Full(s)
    ensures Check(s, s) == CheckResult(true, true, None)
  {
    CheckFromSound(s, s, 0, 0, true);
  }
}
