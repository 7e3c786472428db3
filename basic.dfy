/** The basic rules engine (OrbitalCaptureGame): pieces step along their
    ring or one ring inward, are captured by the surround rule, and the game
    ends on an inner-circle majority, on a player falling below three pieces,
    or when a player cannot move. */
module Basic {
  import opened Board

  datatype Reason =
    | InnerCircle                // the winner reached the inner-circle threshold
    | FewerThanThree(loser: int) // the loser's counter fell below 3
    | StalemateMorePieces        // neither side can move; the larger counter wins
    | StalematePositions         // neither side can move, equal counters; positional score decides
    | NoLegalMoves(loser: int)   // the player to move cannot move

  datatype Verdict = InProgress | Over(winner: int, reason: Reason)

  /** What `move` reports: the captured cells and the game state after the turn. */
  datatype MoveOutcome = MoveOutcome(captured: seq<Pos>, verdict: Verdict)

  // ---------------------------------------------------------------------
  // Move generation

  /** The destinations offered to the piece at (r, s) when `player` is to move:
      nothing unless the piece is theirs. */
  function ValidMoves(g: Grid, r: int, s: int, player: int): (ms: seq<Pos>)
    requires WellFormed(g) && InBounds(Pos(r, s))
    ensures forall d | d in ms :: InBounds(d) && At(g, d) == Empty
    ensures ms != [] ==> g[r][s] == player
  {
    if g[r][s] != player then [] else StandardMoves(g, r, s)
  }

  /** The move list holds exactly the empty cells among the two ring
      neighbours and the inner cell, each once. */
  lemma ValidMovesExactly(g: Grid, r: int, s: int, player: int, d: Pos)
    requires WellFormed(g) && InBounds(Pos(r, s))
    ensures d in ValidMoves(g, r, s, player) <==>
      && g[r][s] == player && InBounds(d) && At(g, d) == Empty
      && (d == Pos(r, Wrap(s - 1)) || d == Pos(r, Wrap(s + 1)) || (r > 0 && d == Pos(r - 1, s)))
    ensures Distinct(ValidMoves(g, r, s, player))
  {
    StandardMovesExactly(g, r, s, d);
  }

  // ---------------------------------------------------------------------
  // Captures: every opponent piece is examined, spoke by spoke and, within
  // a spoke, ring by ring.

  /** A surround capture of an opponent piece at (r, s), as a list of at most one cell. */
  function CaptureAt(g: Grid, mover: int, r: int, s: int): (cs: seq<Pos>)
    requires WellFormed(g) && InBounds(Pos(r, s))
  {
    if g[r][s] == Opponent(mover) && Surrounded(g, r, s, mover) then [Pos(r, s)] else []
  }

  /** The captures on spoke `s` among rings 0..k-1, inner ring first. */
  function CapturesOnSpoke(g: Grid, mover: int, s: int, k: nat): (cs: seq<Pos>)
    requires WellFormed(g) && 0 <= s < Spokes && k <= Rings
    ensures AllInBounds(cs)
  {
    if k == 0 then [] else CapturesOnSpoke(g, mover, s, k - 1) + CaptureAt(g, mover, k - 1, s)
  }

  /** The captures on spokes 0..n-1, spoke by spoke: the order of the scan. */
  function CapturesUpTo(g: Grid, mover: int, n: nat): (cs: seq<Pos>)
    requires WellFormed(g) && n <= Spokes
    ensures AllInBounds(cs)
  {
    if n == 0 then [] else CapturesUpTo(g, mover, n - 1) + CapturesOnSpoke(g, mover, n - 1, Rings)
  }

  /** The pieces `mover` captures on board `g`; CapturesExactly says which. */
  function Captures(g: Grid, mover: int): (cs: seq<Pos>)
    requires WellFormed(g)
    ensures AllInBounds(cs)
  {
    CapturesUpTo(g, mover, Spokes)
  }

  /** What a capture list holds, by where the scan has got to. */
  predicate CapturedCell(g: Grid, mover: int, c: Pos)
    requires WellFormed(g)
  {
    InBounds(c) && At(g, c) == Opponent(mover) && Surrounded(g, c.ring, c.spoke, mover)
  }

  lemma {:induction false} CapturesOnSpokeExactly(g: Grid, mover: int, s: int, k: nat)
    requires WellFormed(g) && 0 <= s < Spokes && k <= Rings
    ensures Distinct(CapturesOnSpoke(g, mover, s, k))
    ensures forall c :: c in CapturesOnSpoke(g, mover, s, k) <==>
      CapturedCell(g, mover, c) && c.spoke == s && c.ring < k
  {
    if k > 0 {
      CapturesOnSpokeExactly(g, mover, s, k - 1);
    }
  }

  lemma {:induction false} CapturesUpToExactly(g: Grid, mover: int, n: nat)
    requires WellFormed(g) && n <= Spokes
    ensures Distinct(CapturesUpTo(g, mover, n))
    ensures forall c :: c in CapturesUpTo(g, mover, n) <==> CapturedCell(g, mover, c) && c.spoke < n
  {
    if n > 0 {
      CapturesUpToExactly(g, mover, n - 1);
      CapturesOnSpokeExactly(g, mover, n - 1, Rings);
      DistinctAppend(CapturesUpTo(g, mover, n - 1), CapturesOnSpoke(g, mover, n - 1, Rings));
    }
  }

  /** A piece is captured exactly when it belongs to the opponent and is
      surrounded on the board as it stands after the move; each capture is
      listed once, and no ring-0 piece is ever captured, so the capture list
      never lowers an inner count. */
  lemma CapturesExactly(g: Grid, mover: int)
    requires WellFormed(g)
    ensures AllInBounds(Captures(g, mover)) && Distinct(Captures(g, mover))
    ensures forall c :: c in Captures(g, mover) <==>
      InBounds(c) && At(g, c) == Opponent(mover) && Surrounded(g, c.ring, c.spoke, mover)
    ensures forall c | c in Captures(g, mover) :: c.ring > 0
    ensures RingZeroCount(Captures(g, mover)) == 0
  {
    CapturesUpToExactly(g, mover, Spokes);
    RingZeroFree(Captures(g, mover));
  }

  lemma {:induction false} RingZeroFree(cs: seq<Pos>)
    requires forall c | c in cs :: c.ring > 0
    ensures RingZeroCount(cs) == 0
  {
    if cs != [] {
      assert forall c | c in cs[..|cs| - 1] :: c in cs;
      RingZeroFree(cs[..|cs| - 1]);
    }
  }

  /** The board of the capture scenario: player 1 on (1,0) and (1,2) and,
      after its move, on (0,1); player 2 on (1,1). */
  function CaptureScenario(): (g: Grid)
    ensures WellFormed(g)
  {
    [[0, 1, 0, 0, 0, 0, 0, 0],
     [1, 2, 1, 0, 0, 0, 0, 0],
     [0, 0, 0, 0, 0, 0, 0, 0],
     [0, 0, 0, 0, 0, 0, 0, 0]]
  }

  /** Landing on (0,1) captures the player-2 piece at (1,1), and only it. */
  lemma CaptureExample()
    ensures Captures(CaptureScenario(), 1) == [Pos(1, 1)]
  {
    var g := CaptureScenario();
    forall r, s | 0 <= r < Rings && 0 <= s < Spokes && g[r][s] == 2
      ensures r == 1 && s == 1
    {
    }
    LoneCapture(g, Pos(1, 1));
  }

  /** On a board whose only player-2 piece sits at `a`, surrounded by
      player 1, player 1 captures exactly that piece. */
  lemma LoneCapture(g: Grid, a: Pos)
    requires WellFormed(g) && InBounds(a) && At(g, a) == 2 && Surrounded(g, a.ring, a.spoke, 1)
    requires forall r, s | 0 <= r < Rings && 0 <= s < Spokes && g[r][s] == 2 :: r == a.ring && s == a.spoke
    ensures Captures(g, 1) == [a]
  {
    var cs := Captures(g, 1);
    CapturesExactly(g, 1);
    assert a in cs;
    OnlyElement(cs, a);
  }

  /** A list without repeats, holding `a` and nothing else, is `[a]`. */
  lemma OnlyElement(cs: seq<Pos>, a: Pos)
    requires Distinct(cs) && a in cs && forall c | c in cs :: c == a
    ensures cs == [a]
  {
    assert cs[0] in cs && cs[|cs| - 1] in cs;
  }

  // ---------------------------------------------------------------------
  // Scores and the game-over rules

  /** Sum of `ringValue` over the first `k` cells of `row` held by `p`. */
  function RowScore(row: seq<int>, ringValue: int, p: int, k: nat): int
    requires k <= |row|
  {
    if k == 0 then 0 else RowScore(row, ringValue, p, k - 1) + (if row[k - 1] == p then ringValue else 0)
  }

  /** Sum of `4 - ring` over the pieces of `p` on rings 0..n-1. */
  function ScoreUpTo(g: Grid, p: int, n: nat): int
    requires WellFormed(g) && n <= Rings
  {
    if n == 0 then 0 else ScoreUpTo(g, p, n - 1) + RowScore(g[n - 1], 4 - (n - 1), p, Spokes)
  }

  /** The positional score: every piece is worth 4 minus its ring. */
  function PositionScore(g: Grid, p: int): int
    requires WellFormed(g)
  {
    ScoreUpTo(g, p, Rings)
  }

  lemma {:induction false} RowScoreIsWeightedCount(row: seq<int>, ringValue: int, p: int, k: nat)
    requires k <= |row|
    ensures RowScore(row, ringValue, p, k) == ringValue * RowCount(row, p, k)
  {
    if k > 0 {
      RowScoreIsWeightedCount(row, ringValue, p, k - 1);
    }
  }

  lemma {:induction false} ScoreUpToBounds(g: Grid, p: int, n: nat)
    requires WellFormed(g) && n <= Rings
    ensures CountUpTo(g, p, n) <= ScoreUpTo(g, p, n) <= 4 * CountUpTo(g, p, n)
  {
    if n > 0 {
      ScoreUpToBounds(g, p, n - 1);
      RowScoreIsWeightedCount(g[n - 1], 4 - (n - 1), p, Spokes);
    }
  }

  /** The positional score weighs the pieces on ring r by 4 - r, so it lies
      between the piece count and four times the piece count. */
  lemma PositionScoreWeights(g: Grid, p: int)
    requires WellFormed(g)
    ensures PositionScore(g, p) ==
      4 * RowCount(g[0], p, Spokes) + 3 * RowCount(g[1], p, Spokes) +
      2 * RowCount(g[2], p, Spokes) + RowCount(g[3], p, Spokes)
    ensures Pieces(g, p) <= PositionScore(g, p) <= 4 * Pieces(g, p)
  {
    assert ScoreUpTo(g, p, 1) == RowScore(g[0], 4, p, Spokes);
    assert ScoreUpTo(g, p, 2) == ScoreUpTo(g, p, 1) + RowScore(g[1], 3, p, Spokes);
    assert ScoreUpTo(g, p, 3) == ScoreUpTo(g, p, 2) + RowScore(g[2], 2, p, Spokes);
    assert PositionScore(g, p) ==
      RowScore(g[0], 4, p, Spokes) + RowScore(g[1], 3, p, Spokes) +
      RowScore(g[2], 2, p, Spokes) + RowScore(g[3], 1, p, Spokes);
    RowScoreIsWeightedCount(g[0], 4, p, Spokes);
    RowScoreIsWeightedCount(g[1], 3, p, Spokes);
    RowScoreIsWeightedCount(g[2], 2, p, Spokes);
    RowScoreIsWeightedCount(g[3], 1, p, Spokes);
    ScoreUpToBounds(g, p, Rings);
  }

  /** The piece at (r, s) belongs to `p` and has somewhere to go. */
  predicate Movable(g: Grid, r: int, s: int, p: int)
    requires WellFormed(g) && InBounds(Pos(r, s))
  {
    g[r][s] == p && ValidMoves(g, r, s, p) != []
  }

  predicate HasMoves(g: Grid, p: int)
    requires WellFormed(g)
  {
    exists r, s | 0 <= r < Rings && 0 <= s < Spokes :: Movable(g, r, s, p)
  }

  /** The standard game-over check, given the board, both piece counters and
      the player about to move. The counters are checked first, then a
      stalemate of both players, then the player to move alone. */
  function GameOverVerdict(g: Grid, pieces1: int, pieces2: int, current: int): (v: Verdict)
    requires WellFormed(g)
    ensures v.Over? ==> IsPlayer(v.winner)
    ensures pieces1 < 3 ==> v == Over(2, FewerThanThree(1))
    ensures pieces1 >= 3 && pieces2 < 3 ==> v == Over(1, FewerThanThree(2))
    ensures v.Over? && v.reason.FewerThanThree? ==>
      (v.reason.loser == 1 && pieces1 < 3) || (v.reason.loser == 2 && pieces1 >= 3 && pieces2 < 3)
    ensures pieces1 >= 3 && pieces2 >= 3 && !HasMoves(g, 1) && !HasMoves(g, 2) ==>
      v.Over? && (v.reason.StalemateMorePieces? || v.reason.StalematePositions?)
    ensures v.Over? && (v.reason.StalemateMorePieces? || v.reason.StalematePositions?) ==>
      pieces1 >= 3 && pieces2 >= 3 && !HasMoves(g, 1) && !HasMoves(g, 2)
    ensures v.Over? && v.reason.StalemateMorePieces? ==>
      pieces1 != pieces2 && (v.winner == 1 <==> pieces1 > pieces2)
    ensures v.Over? && v.reason.StalematePositions? ==>
      pieces1 == pieces2 && (v.winner == 1 <==> PositionScore(g, 1) > PositionScore(g, 2))
    ensures IsPlayer(current) && pieces1 >= 3 && pieces2 >= 3 && !HasMoves(g, current) &&
            (HasMoves(g, 1) || HasMoves(g, 2)) ==>
              v == Over(Opponent(current), NoLegalMoves(current))
    ensures v.Over? && v.reason.NoLegalMoves? ==>
      pieces1 >= 3 && pieces2 >= 3
      && v.reason.loser == current && v.winner == Opponent(current) && !HasMoves(g, current)
      && (HasMoves(g, 1) || HasMoves(g, 2))
    ensures v.Over? ==> !v.reason.InnerCircle?
  {
    if pieces1 < 3 then Over(2, FewerThanThree(1))
    else if pieces2 < 3 then Over(1, FewerThanThree(2))
    else if !HasMoves(g, 1) && !HasMoves(g, 2) then
      if pieces1 > pieces2 then Over(1, StalemateMorePieces)
      else if pieces2 > pieces1 then Over(2, StalemateMorePieces)
      else if PositionScore(g, 1) > PositionScore(g, 2) then Over(1, StalematePositions)
      else Over(2, StalematePositions)
    else if current == 1 && !HasMoves(g, 1) then Over(2, NoLegalMoves(1))
    else if current == 2 && !HasMoves(g, 2) then Over(1, NoLegalMoves(2))
    else InProgress
  }

  /** The game goes on exactly when both counters are at least 3 and the
      player to move has a move; otherwise a player (1 or 2) is named. */
  lemma GameOverInProgress(g: Grid, pieces1: int, pieces2: int, current: int)
    requires WellFormed(g) && IsPlayer(current)
    ensures GameOverVerdict(g, pieces1, pieces2, current) == InProgress <==>
      pieces1 >= 3 && pieces2 >= 3 && HasMoves(g, current)
    ensures GameOverVerdict(g, pieces1, pieces2, current).Over? ==>
      IsPlayer(GameOverVerdict(g, pieces1, pieces2, current).winner)
  {
  }

  /** While each counter stays 4 above its player's pieces on the board, as
      it does from the constructor on, no counter drops below 4, so the
      "fewer than three pieces" loss never fires. */
  lemma CounterFloor(g: Grid, pieces1: int, pieces2: int, current: int)
    requires WellFormed(g)
    requires pieces1 == Pieces(g, 1) + 4 && pieces2 == Pieces(g, 2) + 4
    ensures pieces1 >= 4 && pieces2 >= 4
    ensures var v := GameOverVerdict(g, pieces1, pieces2, current); v.Over? ==> !v.reason.FewerThanThree?
  {
  }

  /** In a stalemate the winner never has fewer pieces; with equal pieces,
      player 1 needs a strictly higher positional score, so a tie goes to
      player 2. */
  lemma StalemateTieBreak(g: Grid, pieces1: int, pieces2: int, current: int)
    requires WellFormed(g) && pieces1 >= 3 && pieces2 >= 3
    requires !HasMoves(g, 1) && !HasMoves(g, 2)
    ensures var v := GameOverVerdict(g, pieces1, pieces2, current);
      && v.Over?
      && (v.winner == 1 <==> pieces1 > pieces2 || (pieces1 == pieces2 && PositionScore(g, 1) > PositionScore(g, 2)))
      && (v.winner == 2 <==> pieces2 > pieces1 || (pieces1 == pieces2 && PositionScore(g, 1) <= PositionScore(g, 2)))
  {
  }

  /** The layout of `set_test_board`. */
  function TestGrid(): (g: Grid)
    ensures WellFormed(g)
  {
    [[0, 0, 0, 0, 0, 0, 0, 0],
     [1, 2, 2, 2, 1, 2, 1, 0],
     [0, 0, 0, 0, 0, 0, 0, 0],
     [0, 0, 0, 0, 0, 0, 0, 0]]
  }

  /** The test layout agrees with the counters `set_test_board` writes: 3 and
      4 pieces, none on the inner ring. */
  lemma TestBoardCounts()
    ensures Pieces(TestGrid(), 1) == 3 && Pieces(TestGrid(), 2) == 4
    ensures InnerPieces(TestGrid(), 1) == 0 && InnerPieces(TestGrid(), 2) == 0
  {
    var g := TestGrid();
    var blank, middle := [0, 0, 0, 0, 0, 0, 0, 0], [1, 2, 2, 2, 1, 2, 1, 0];
    assert g[0] == g[2] == g[3] == blank && g[1] == middle;
    assert RowCount(blank, 1, 8) == 0 && RowCount(blank, 2, 8) == 0;
    assert RowCount(middle, 1, 8) == 3;
    assert RowCount(middle, 2, 8) == 4;
  }

  /** The test layout is not a stalemate: both players can move, so with
      player 1 to move and the counters `set_test_board` writes the game is
      still in progress. */
  lemma TestBoardFacts()
    ensures HasMoves(TestGrid(), 1) && HasMoves(TestGrid(), 2)
    ensures GameOverVerdict(TestGrid(), 3, 4, 1) == InProgress
  {
    var g := TestGrid();
    assert Pos(0, 0) in ValidMoves(g, 1, 0, 1);
    assert Movable(g, 1, 0, 1);
    assert Pos(0, 1) in ValidMoves(g, 1, 1, 2);
    assert Movable(g, 1, 1, 2);
  }

  /** A cleared board with the seven pieces of the test layout written in. */
  method TestLayout() returns (cells: array2<int>)
    ensures fresh(cells) && cells.Length0 == Rings && cells.Length1 == Spokes
    ensures View(cells) == TestGrid()
  {
    cells := new int[Rings, Spokes]((r, s) => Empty);
    cells[1, 0] := 1;
    cells[1, 4] := 1;
    cells[1, 6] := 1;
    cells[1, 1] := 2;
    cells[1, 2] := 2;
    cells[1, 3] := 2;
    cells[1, 5] := 2;
    SameGrid(View(cells), TestGrid());
  }

  // ---------------------------------------------------------------------
  // The engine

  class OrbitalCaptureGame {
    var board: array2<int>
    var currentPlayer: int
    var player1Pieces: int
    var player2Pieces: int
    var player1InnerPieces: int
    var player2InnerPieces: int
    var innerCircleThreshold: int

    /** The board as a value. */
    function Cells(): (g: Grid)
      reads this, board
      requires board.Length0 == Rings && board.Length1 == Spokes
      ensures WellFormed(g)
      ensures forall r, s | 0 <= r < Rings && 0 <= s < Spokes :: g[r][s] == board[r, s]
    {
      View(board)
    }

    /** The engine's invariant: a 4x8 board of 0/1/2, a player to move, and
        inner counters equal to the pieces each player has on ring 0. The
        piece counters are not tied to the board: they start at 8 while four
        pieces each are placed. */
    ghost predicate Valid()
      reads this, board
    {
      && board.Length0 == Rings && board.Length1 == Spokes
      && Occupancy(Cells())
      && IsPlayer(currentPlayer)
      && player1InnerPieces == InnerPieces(Cells(), 1)
      && player2InnerPieces == InnerPieces(Cells(), 2)
    }

    function PiecesOf(p: int): int
      reads this
    {
      if p == 1 then player1Pieces else player2Pieces
    }

    function InnerOf(p: int): int
      reads this
    {
      if p == 1 then player1InnerPieces else player2InnerPieces
    }

    constructor ()
      ensures Valid() && fresh(board)
      ensures Cells() == InitialGrid()
      ensures currentPlayer == 1 && innerCircleThreshold == 3
      ensures player1Pieces == 8 && player2Pieces == 8
      ensures player1InnerPieces == 0 && player2InnerPieces == 0
      ensures player1Pieces == Pieces(Cells(), 1) + 4 && player2Pieces == Pieces(Cells(), 2) + 4
    {
      var cells := InitialBoard();
      board := cells;
      currentPlayer := 1;
      player1Pieces, player2Pieces := 8, 8;
      player1InnerPieces, player2InnerPieces := 0, 0;
      innerCircleThreshold := 3;
      new;
      InitialCounts();
    }

    /** `board[ring][spoke] = v`. */
    method SetCell(ring: int, spoke: int, v: int)
      requires board.Length0 == Rings && board.Length1 == Spokes && InBounds(Pos(ring, spoke))
      modifies board
      ensures Cells() == Set(old(Cells()), Pos(ring, spoke), v)
    {
      board[ring, spoke] := v;
      SameGrid(Cells(), Set(old(Cells()), Pos(ring, spoke), v));
    }

    /** The move generator for a piece as seen by `player`; `get_valid_moves`
        is this with the player to move. */
    method MovesFor(ring: int, spoke: int, player: int) returns (moves: seq<Pos>)
      requires Valid() && InBounds(Pos(ring, spoke))
      ensures moves == ValidMoves(Cells(), ring, spoke, player)
    {
      if board[ring, spoke] != player {
        return [];
      }
      moves := [];
      for i := 0 to |RingOffsets|
        invariant moves == RingSteps(Cells(), ring, spoke, RingOffsets, i)
      {
        var nextSpoke := Wrap(spoke + RingOffsets[i]);
        if board[ring, nextSpoke] == Empty {
          moves := moves + [Pos(ring, nextSpoke)];
        }
      }
      if ring > 0 && board[ring - 1, spoke] == Empty {
        moves := moves + [Pos(ring - 1, spoke)];
      }
    }

    method GetValidMoves(ring: int, spoke: int) returns (moves: seq<Pos>)
      requires Valid() && InBounds(Pos(ring, spoke))
      ensures moves == ValidMoves(Cells(), ring, spoke, currentPlayer)
    {
      moves := MovesFor(ring, spoke, currentPlayer);
    }

    /** The scan half of `check_captures`: every opponent piece the player to
        move surrounds, spoke by spoke, on the current board. */
    method FindCaptures() returns (captured: seq<Pos>)
      requires Valid()
      ensures captured == Captures(Cells(), currentPlayer)
    {
      var opponent := Opponent(currentPlayer);
      ghost var g := Cells();
      captured := [];
      for checkSpoke := 0 to Spokes
        invariant captured == CapturesUpTo(g, currentPlayer, checkSpoke)
      {
        for checkRing := 0 to Rings
          invariant captured == CapturesUpTo(g, currentPlayer, checkSpoke) + CapturesOnSpoke(g, currentPlayer, checkSpoke, checkRing)
        {
          if board[checkRing, checkSpoke] == opponent {
            var leftSpoke := Wrap(checkSpoke - 1);
            var rightSpoke := Wrap(checkSpoke + 1);
            var adjacentSameRing := board[checkRing, leftSpoke] == currentPlayer && board[checkRing, rightSpoke] == currentPlayer;
            var innerPosition := false;
            if checkRing > 0 {
              innerPosition := board[checkRing - 1, checkSpoke] == currentPlayer;
            }
            if adjacentSameRing && innerPosition {
              captured := captured + [Pos(checkRing, checkSpoke)];
            }
          }
        }
      }
    }

    /** One step of the removal loop of `check_captures`: an opponent piece
        leaves the board, its owner's piece counter and, on ring 0, its
        owner's inner counter. */
    method RemovePiece(c: Pos)
      requires Valid() && InBounds(c) && At(Cells(), c) == Opponent(currentPlayer)
      modifies this, board
      ensures Valid() && board == old(board)
      ensures currentPlayer == old(currentPlayer) && innerCircleThreshold == old(innerCircleThreshold)
      ensures Cells() == Set(old(Cells()), c, Empty)
      ensures PiecesOf(currentPlayer) == old(PiecesOf(currentPlayer))
      ensures PiecesOf(Opponent(currentPlayer)) == old(PiecesOf(Opponent(currentPlayer))) - 1
    {
      ghost var g := Cells();
      var opponent := Opponent(currentPlayer);
      if c.ring == 0 {
        if opponent == 1 {
          player1InnerPieces := player1InnerPieces - 1;
        } else {
          player2InnerPieces := player2InnerPieces - 1;
        }
      }
      SetCell(c.ring, c.spoke, Empty);
      if opponent == 1 {
        player1Pieces := player1Pieces - 1;
      } else {
        player2Pieces := player2Pieces - 1;
      }
      SetCounts(g, c, Empty, 1);
      SetCounts(g, c, Empty, 2);
    }

    /** The removal half of `check_captures`: each listed opponent piece
        leaves the board and the opponent's counters. */
    method RemoveCaptured(captured: seq<Pos>)
      requires Valid() && AllInBounds(captured) && Distinct(captured)
      requires forall c | c in captured :: At(Cells(), c) == Opponent(currentPlayer)
      modifies this, board
      ensures Valid() && board == old(board)
      ensures currentPlayer == old(currentPlayer) && innerCircleThreshold == old(innerCircleThreshold)
      ensures Cells() == ClearAll(old(Cells()), captured)
      ensures PiecesOf(currentPlayer) == old(PiecesOf(currentPlayer))
      ensures PiecesOf(Opponent(currentPlayer)) == old(PiecesOf(Opponent(currentPlayer))) - |captured|
      ensures InnerOf(currentPlayer) == old(InnerOf(currentPlayer))
      ensures InnerOf(Opponent(currentPlayer)) == old(InnerOf(Opponent(currentPlayer))) - RingZeroCount(captured)
      ensures forall p | p != Empty ::
        Pieces(Cells(), p) == Pieces(old(Cells()), p) - (if p == Opponent(currentPlayer) then |captured| else 0)
    {
      ghost var g := Cells();
      for i := 0 to |captured|
        invariant Valid() && board == old(board)
        invariant currentPlayer == old(currentPlayer) && innerCircleThreshold == old(innerCircleThreshold)
        invariant Cells() == ClearAll(g, captured[..i])
        invariant PiecesOf(currentPlayer) == old(PiecesOf(currentPlayer))
        invariant PiecesOf(Opponent(currentPlayer)) == old(PiecesOf(Opponent(currentPlayer))) - i
      {
        var c := captured[i];
        assert captured[..i + 1] == captured[..i] + [c];
        assert captured[..i + 1][..i] == captured[..i];
        assert c !in captured[..i];
        ClearAllAt(g, captured[..i], c);
        RemovePiece(c);
      }
      assert captured[..|captured|] == captured;
      var opponent := Opponent(currentPlayer);
      forall p | p != Empty
        ensures Pieces(Cells(), p) == Pieces(g, p) - (if p == opponent then |captured| else 0)
        ensures InnerPieces(Cells(), p) == InnerPieces(g, p) - (if p == opponent then RingZeroCount(captured) else 0)
      {
        ClearAllCounts(g, captured, opponent, p);
      }
    }

    /** Finds and removes every opponent piece the player to move surrounds,
        judging all of them on the board before any is removed. The landing
        cell is passed but not used: the whole board is scanned. */
    method CheckCaptures(ring: int, spoke: int) returns (captured: seq<Pos>)
      requires Valid()
      modifies this, board
      ensures Valid() && board == old(board)
      ensures currentPlayer == old(currentPlayer) && innerCircleThreshold == old(innerCircleThreshold)
      ensures captured == Captures(old(Cells()), currentPlayer)
      ensures Cells() == ClearAll(old(Cells()), captured)
      ensures PiecesOf(currentPlayer) == old(PiecesOf(currentPlayer))
      ensures PiecesOf(Opponent(currentPlayer)) == old(PiecesOf(Opponent(currentPlayer))) - |captured|
      ensures player1InnerPieces == old(player1InnerPieces) && player2InnerPieces == old(player2InnerPieces)
      ensures forall p | p != Empty ::
        Pieces(Cells(), p) == Pieces(old(Cells()), p) - (if p == Opponent(currentPlayer) then |captured| else 0)
    {
      captured := FindCaptures();
      CapturesExactly(Cells(), currentPlayer);
      RemoveCaptured(captured);
    }

    /** `(True, winner)` as an option: player 1 is checked first. */
    function CheckInnerCircleWin(): (w: Option<int>)
      reads this
      ensures w.Some? ==> IsPlayer(w.value) && InnerOf(w.value) >= innerCircleThreshold
      ensures w == Some(2) ==> player1InnerPieces < innerCircleThreshold
      ensures w.None? <==> player1InnerPieces < innerCircleThreshold && player2InnerPieces < innerCircleThreshold
    {
      if player1InnerPieces >= innerCircleThreshold then Some(1)
      else if player2InnerPieces >= innerCircleThreshold then Some(2)
      else None
    }

    /** Whether the piece at (ring, spoke) belongs to `player` and can move. */
    method PieceHasMoves(ring: int, spoke: int, player: int) returns (movable: bool)
      requires Valid() && InBounds(Pos(ring, spoke))
      ensures movable == Movable(Cells(), ring, spoke, player)
    {
      movable := false;
      if board[ring, spoke] == player {
        var moves := MovesFor(ring, spoke, player);
        movable := moves != [];
      }
    }

    /** Whether `player` owns a piece on `ring` that has a legal move. */
    method RingHasMoves(ring: int, player: int) returns (hasMoves: bool)
      requires Valid() && 0 <= ring < Rings
      ensures hasMoves == exists s | 0 <= s < Spokes :: Movable(Cells(), ring, s, player)
    {
      for spoke := 0 to Spokes
        invariant forall s | 0 <= s < spoke :: !Movable(Cells(), ring, s, player)
      {
        hasMoves := PieceHasMoves(ring, spoke, player);
        if hasMoves {
          return;
        }
      }
      return false;
    }

    /** Whether `player` has a piece with a move, scanning ring by ring and
        stopping at the first one found. */
    method PlayerHasMoves(player: int) returns (hasMoves: bool)
      requires Valid()
      ensures hasMoves == HasMoves(Cells(), player)
    {
      for ring := 0 to Rings
        invariant forall r, s | 0 <= r < ring && 0 <= s < Spokes :: !Movable(Cells(), r, s, player)
      {
        hasMoves := RingHasMoves(ring, player);
        if hasMoves {
          return;
        }
      }
      return false;
    }

    /** The positional score of `player`: 4 - ring summed over their pieces. */
    method CalculateInnerRingScore(player: int) returns (score: int)
      requires Valid()
      ensures score == PositionScore(Cells(), player)
    {
      score := 0;
      for ring := 0 to Rings
        invariant score == ScoreUpTo(Cells(), player, ring)
      {
        var ringValue := 4 - ring;
        for spoke := 0 to Spokes
          invariant score == ScoreUpTo(Cells(), player, ring) + RowScore(Cells()[ring], ringValue, player, spoke)
        {
          if board[ring, spoke] == player {
            score := score + ringValue;
          }
        }
      }
    }

    /** Both positional scores in one pass over the board. */
    method CalculateScore() returns (scores: map<int, int>)
      requires Valid()
      ensures scores == map[1 := PositionScore(Cells(), 1), 2 := PositionScore(Cells(), 2)]
    {
      scores := map[1 := 0, 2 := 0];
      for ring := 0 to Rings
        invariant scores == map[1 := ScoreUpTo(Cells(), 1, ring), 2 := ScoreUpTo(Cells(), 2, ring)]
      {
        var ringValue := 4 - ring;
        for spoke := 0 to Spokes
          invariant scores == map[
            1 := ScoreUpTo(Cells(), 1, ring) + RowScore(Cells()[ring], ringValue, 1, spoke),
            2 := ScoreUpTo(Cells(), 2, ring) + RowScore(Cells()[ring], ringValue, 2, spoke)]
        {
          var player := board[ring, spoke];
          if player == 1 || player == 2 {
            scores := scores[player := scores[player] + ringValue];
          }
        }
      }
    }

    /** The standard game-over check. It only reads the state: the player
        whose moves are enumerated is a parameter of the move generator
        rather than a temporary change of the player to move. */
    method CheckGameOver() returns (verdict: Verdict)
      requires Valid()
      ensures verdict == GameOverVerdict(Cells(), player1Pieces, player2Pieces, currentPlayer)
    {
      if player1Pieces < 3 {
        return Over(2, FewerThanThree(1));
      }
      if player2Pieces < 3 {
        return Over(1, FewerThanThree(2));
      }
      var player1HasMoves := PlayerHasMoves(1);
      var player2HasMoves := PlayerHasMoves(2);
      if !player1HasMoves && !player2HasMoves {
        if player1Pieces > player2Pieces {
          return Over(1, StalemateMorePieces);
        } else if player2Pieces > player1Pieces {
          return Over(2, StalemateMorePieces);
        }
        var p1Score := CalculateInnerRingScore(1);
        var p2Score := CalculateInnerRingScore(2);
        if p1Score > p2Score {
          return Over(1, StalematePositions);
        }
        return Over(2, StalematePositions);
      }
      if currentPlayer == 1 && !player1HasMoves {
        return Over(2, NoLegalMoves(1));
      }
      if currentPlayer == 2 && !player2HasMoves {
        return Over(1, NoLegalMoves(2));
      }
      return InProgress;
    }

    /** The inner-circle bookkeeping of `move`: entering ring 0 adds one to
        the mover's counter, leaving it takes one away; nothing else changes. */
    method ShiftInner(fromRing: int, toRing: int)
      requires IsPlayer(currentPlayer)
      modifies this
      ensures InnerOf(currentPlayer) ==
        old(InnerOf(currentPlayer)) + (if toRing == 0 then 1 else 0) - (if fromRing == 0 then 1 else 0)
      ensures InnerOf(Opponent(currentPlayer)) == old(InnerOf(Opponent(currentPlayer)))
      ensures board == old(board) && currentPlayer == old(currentPlayer)
      ensures player1Pieces == old(player1Pieces) && player2Pieces == old(player2Pieces)
      ensures innerCircleThreshold == old(innerCircleThreshold)
    {
      if toRing == 0 {
        if currentPlayer == 1 {
          player1InnerPieces := player1InnerPieces + 1;
        } else {
          player2InnerPieces := player2InnerPieces + 1;
        }
      }
      if fromRing == 0 {
        if currentPlayer == 1 {
          player1InnerPieces := player1InnerPieces - 1;
        } else {
          player2InnerPieces := player2InnerPieces - 1;
        }
      }
    }

    /** The first half of `move`: the inner counters follow the piece, then
        the origin is emptied and the destination taken. */
    method RelocatePiece(fromRing: int, fromSpoke: int, toRing: int, toSpoke: int)
      requires Valid() && InBounds(Pos(fromRing, fromSpoke))
      requires Pos(toRing, toSpoke) in ValidMoves(Cells(), fromRing, fromSpoke, currentPlayer)
      modifies this, board
      ensures Valid() && board == old(board)
      ensures currentPlayer == old(currentPlayer) && innerCircleThreshold == old(innerCircleThreshold)
      ensures player1Pieces == old(player1Pieces) && player2Pieces == old(player2Pieces)
      ensures Cells() == Relocate(old(Cells()), Pos(fromRing, fromSpoke), Pos(toRing, toSpoke), currentPlayer)
      ensures InnerOf(currentPlayer) ==
        old(InnerOf(currentPlayer)) + (if toRing == 0 then 1 else 0) - (if fromRing == 0 then 1 else 0)
      ensures InnerOf(Opponent(currentPlayer)) == old(InnerOf(Opponent(currentPlayer)))
      ensures Pieces(Cells(), 1) == Pieces(old(Cells()), 1) && Pieces(Cells(), 2) == Pieces(old(Cells()), 2)
    {
      var from, to := Pos(fromRing, fromSpoke), Pos(toRing, toSpoke);
      ghost var g := Cells();
      ShiftInner(fromRing, toRing);
      SetCell(fromRing, fromSpoke, Empty);
      SetCell(toRing, toSpoke, currentPlayer);
      RelocateCounts(g, from, to, currentPlayer, 1);
      RelocateCounts(g, from, to, currentPlayer, 2);
    }

    /** The turn passes to the other player; the board is untouched. */
    method SwitchPlayer()
      requires Valid()
      modifies this`currentPlayer
      ensures Valid()
      ensures currentPlayer == Opponent(old(currentPlayer))
      ensures Cells() == old(Cells())
    {
      currentPlayer := Opponent(currentPlayer);
    }

    /** The board half of `move`: the piece is relocated, then every
        capture the player to move makes is found and removed. */
    method Play(fromRing: int, fromSpoke: int, toRing: int, toSpoke: int) returns (captured: seq<Pos>)
      requires Valid() && InBounds(Pos(fromRing, fromSpoke))
      requires Pos(toRing, toSpoke) in ValidMoves(Cells(), fromRing, fromSpoke, currentPlayer)
      modifies this, board
      ensures Valid() && board == old(board) && innerCircleThreshold == old(innerCircleThreshold)
      ensures currentPlayer == old(currentPlayer)
      ensures
        var landed := Relocate(old(Cells()), Pos(fromRing, fromSpoke), Pos(toRing, toSpoke), currentPlayer);
        && captured == Captures(landed, currentPlayer)
        && Cells() == ClearAll(landed, captured)
      ensures PiecesOf(currentPlayer) == old(PiecesOf(currentPlayer))
      ensures PiecesOf(Opponent(currentPlayer)) == old(PiecesOf(Opponent(currentPlayer))) - |captured|
      ensures InnerOf(currentPlayer) ==
        old(InnerOf(currentPlayer)) + (if toRing == 0 then 1 else 0) - (if fromRing == 0 then 1 else 0)
      ensures InnerOf(Opponent(currentPlayer)) == old(InnerOf(Opponent(currentPlayer)))
      ensures player1Pieces - Pieces(Cells(), 1) == old(player1Pieces - Pieces(Cells(), 1))
      ensures player2Pieces - Pieces(Cells(), 2) == old(player2Pieces - Pieces(Cells(), 2))
    {
      RelocatePiece(fromRing, fromSpoke, toRing, toSpoke);
      captured := CheckCaptures(toRing, toSpoke);
    }

    /** One turn. The caller only offers destinations from GetValidMoves, so
        legality is a precondition. The piece is relocated, captures are
        resolved, the inner-circle win is read before the player switch, the
        player always switches, and an inner-circle win overrides the
        standard game-over check. */
    method Move(fromRing: int, fromSpoke: int, toRing: int, toSpoke: int) returns (outcome: MoveOutcome)
      requires Valid() && InBounds(Pos(fromRing, fromSpoke))
      requires Pos(toRing, toSpoke) in ValidMoves(Cells(), fromRing, fromSpoke, currentPlayer)
      modifies this, board
      ensures Valid() && board == old(board) && innerCircleThreshold == old(innerCircleThreshold)
      ensures currentPlayer == Opponent(old(currentPlayer))
      ensures outcome.captured ==
        Captures(Relocate(old(Cells()), Pos(fromRing, fromSpoke), Pos(toRing, toSpoke), old(currentPlayer)), old(currentPlayer))
      ensures Cells() ==
        ClearAll(Relocate(old(Cells()), Pos(fromRing, fromSpoke), Pos(toRing, toSpoke), old(currentPlayer)), outcome.captured)
      ensures PiecesOf(old(currentPlayer)) == old(PiecesOf(currentPlayer))
      ensures PiecesOf(currentPlayer) == old(PiecesOf(Opponent(currentPlayer))) - |outcome.captured|
      ensures InnerOf(old(currentPlayer)) ==
        old(InnerOf(currentPlayer)) + (if toRing == 0 then 1 else 0) - (if fromRing == 0 then 1 else 0)
      ensures InnerOf(currentPlayer) == old(InnerOf(Opponent(currentPlayer)))
      ensures player1Pieces - Pieces(Cells(), 1) == old(player1Pieces - Pieces(Cells(), 1))
      ensures player2Pieces - Pieces(Cells(), 2) == old(player2Pieces - Pieces(Cells(), 2))
      ensures outcome.verdict ==
        match CheckInnerCircleWin()
        case Some(w) => Over(w, InnerCircle)
        case None => GameOverVerdict(Cells(), player1Pieces, player2Pieces, currentPlayer)
    {
      var captured := Play(fromRing, fromSpoke, toRing, toSpoke);
      var innerWinner := CheckInnerCircleWin();
      SwitchPlayer();
      var verdict := CheckGameOver();
      if innerWinner.Some? {
        outcome := MoveOutcome(captured, Over(innerWinner.value, InnerCircle));
      } else {
        outcome := MoveOutcome(captured, verdict);
      }
    }

    /** Replaces the board by the fixed test layout and sets the counters to
        match it. */
    method SetTestBoard()
      modifies this
      ensures Valid() && fresh(board)
      ensures Cells() == TestGrid()
      ensures player1Pieces == 3 && player2Pieces == 4
      ensures player1InnerPieces == 0 && player2InnerPieces == 0
      ensures currentPlayer == 1 && innerCircleThreshold == old(innerCircleThreshold)
      ensures player1Pieces == Pieces(Cells(), 1) && player2Pieces == Pieces(Cells(), 2)
    {
      board := TestLayout();
      player1Pieces := 3;
      player2Pieces := 4;
      player1InnerPieces := 0;
      player2InnerPieces := 0;
      currentPlayer := 1;
      TestBoardCounts();
    }
  }
}
