# Orbital Capture rules engine in Dafny

Orbital Capture is a two-player board game on a radial board of 4 rings by 8 spokes. Ring 0 is the inner circle and ring 3 the outer ring. Spokes wrap around modulo 8. Each cell is empty (0) or holds a piece of player 1 or player 2. Both players start with four pieces on the outer ring, alternating: player 1 on the even spokes, player 2 on the odd ones.

The repository holds two versions of the rules engine, and this project models both.

**The basic engine**, `OrbitalCaptureGame` (module `Basic`, file `basic.dfy`):
- A piece steps one spoke either way along its ring, or one ring inward.
- After a move, every opponent piece is checked. A piece is captured when the mover holds both of its ring neighbours and the cell inward of it.
- An inner-circle count at the threshold (3) wins. Otherwise a standard game-over check runs:
  - a player with fewer than 3 pieces loses;
  - if neither side can move, it is a stalemate, decided by piece count and then by a positional score;
  - a player to move who has no move loses.

**The enhanced engine**, `EnhancedOrbitalCaptureGame` (module `Enhanced`, file `enhanced.dfy`):
- Every piece carries energy, and every player has an energy reserve.
- Six fixed special points add energy:
  - power: +2 to the piece;
  - jump: +2 to the reserve;
  - shield: +1 to each.
- Energy unlocks further move classes: outward, diagonal, jumps and "nimber" moves. The last two can also be switched off.
- A move costs energy by distance and direction. The piece pays first; the reserve covers any shortfall.
- A landing piece collects 3, 2, 1 or 0 energy by ring.
- There is a second capture rule: a piece falls when the mover's energy around it is at least twice its own energy, and at least 4.
- Each capture transfers energy to the mover's reserve.
- Victory has three tiers: elimination, then the inner circle, then the energy threshold.

Module `Board` (file `board.dfy`) holds what both engines share: the grid as a value, spoke wrap-around, cell updates, piece counting, the standard moves and the surround rule.

Each engine is a class. Its board and energy grid are `array2<int>` fields that the methods update in place, and the counters are `int` fields. Each method is proved against specification functions on the grid values (`Cells()`, `Energies()`):
- `ValidMoves`, `Captures`, `GameOverVerdict`, `Pay`, `MoveCost` and `CheckVictory`.
- The lemmas state what those functions mean: exact membership, no repeats, cost by move class, payment conservation, victory priority.

The engine invariant `Valid()` differs between the two engines:
- In both, the inner-circle counters equal the pieces on ring 0.
- In the enhanced engine, the piece counters also equal the pieces on the board, and all energies and reserves are non-negative.
- The basic engine starts its piece counters at 8 while placing four pieces each. Its turn therefore keeps the gap between each counter and the board count unchanged, rather than keeping the two equal.

The model follows the code where it departs from an idealised rule set:
- A ring-0 piece has no inward cell, so the surround rule never captures it. In the enhanced engine it can still fall to the energy rule.
- The enhanced move list can repeat a destination once nimber moves are on. Only the diagonal block checks what is already listed.
- The enhanced engine leaves the vacated cell's energy in place. This does no harm, because the energy rule only reads cells the mover owns.
- The enhanced `move` switches the player even after a victory.
- The basic counters start at 8, while each player places four pieces, and a turn keeps that gap of 4. A counter therefore never falls below 4 in a game started by the constructor. The "fewer than 3 pieces" loss cannot fire there (`Basic.CounterFloor`); it can only follow `set_test_board`, which sets the counters to the pieces on the board.
- `set_test_board` is described in the code as setting up a stalemate. In its layout, though, both players can still move (`Basic.TestBoardFacts`), so with player 1 to move the game is in progress.

## Model

| member | source | states |
|---|---|---|
| Board.Wrap | Orbital_Capture_SImple_Version.py:252-255 | a spoke offset is taken modulo 8: the result is a spoke, in-range spokes are unchanged and one lap either way is undone |
| Board.Opponent | Orbital_Capture_SImple_Version.py:265 | the opponent of a player is the other player |
| Board.Set | Orbital_Capture_SImple_Version.py:303 | writing one cell changes that cell and no other |
| Board.Relocate | Orbital_Capture_SImple_Version.py:313-329 | the moved piece is on the destination and, when the two differ, the origin is empty; the board stays 8 by 8 |
| Board.ClearAll | Orbital_Capture_SImple_Version.py:293-307 | the removal loop over the capture list keeps a 4x8 board; ClearAllAt states what each cell holds afterwards |
| Board.Surrounded | Orbital_Capture_SImple_Version.py:277-291 | the surround rule: both ring neighbours and the cell inward hold the mover's pieces; a ring-0 piece is never surrounded |
| Board.SetCounts | Orbital_Capture_SImple_Version.py:302-307 | writing one cell moves each owner's piece count and inner count by exactly the change of owner of that cell |
| Board.RelocateCounts | Orbital_Capture_SImple_Version.py:313-329 | moving a piece onto an empty cell keeps every piece count, and changes the mover's inner count by +1 on entering ring 0 and -1 on leaving it |
| Board.ClearAllAt | Orbital_Capture_SImple_Version.py:294-303 | after the removal loop, a listed cell is empty and every other cell is unchanged |
| Board.ClearAllCounts | Orbital_Capture_SImple_Version.py:293-307 | removing distinct pieces of one owner lowers that owner's count by their number and inner count by those on ring 0, and leaves every other owner's counts alone |
| Board.InitialCounts | Orbital_Capture_SImple_Version.py:234-241 | the starting layout has four pieces per player, none on ring 0 |
| Board.InitialBoard | Orbital_Capture_SImple_Version.py:224-241 | a fresh 4x8 board with player 1 on ring 3 at the even spokes, player 2 at the odd spokes, and everything else empty |
| Board.ZeroBoard | Orbital_Capture_Advanced_version.py:405-406 | a fresh 4x8 array of zeros |
| Board.StandardMovesExactly | Orbital_Capture_SImple_Version.py:251-259 | the standard moves are exactly the empty cells among the two ring neighbours and, off ring 0, the cell inward, each listed once |
| Basic.ValidMoves | Orbital_Capture_SImple_Version.py:243-261 | only empty on-board cells are offered, and nothing is offered unless the piece belongs to the player |
| Basic.ValidMovesExactly | Orbital_Capture_SImple_Version.py:243-261 | a cell is offered iff the piece is the player's and the cell is an empty ring neighbour or the empty cell inward; no cell is offered twice |
| Basic.CapturesOnSpokeExactly | Orbital_Capture_SImple_Version.py:270-291 | the inner loop lists, once each, the surrounded opponent pieces on the spoke among the rings scanned so far |
| Basic.CapturesUpToExactly | Orbital_Capture_SImple_Version.py:269-291 | the scan lists, once each, the surrounded opponent pieces on the spokes scanned so far |
| Basic.Captures | Orbital_Capture_SImple_Version.py:263-291 | every captured cell is on the board; Basic.CapturesExactly states which |
| Basic.CapturesExactly | Orbital_Capture_SImple_Version.py:263-291 | a cell is captured iff it holds an opponent piece that the mover surrounds, on the board before any removal; no capture is listed twice; no ring-0 piece is ever captured, so captures never lower an inner counter |
| Basic.LoneCapture | Orbital_Capture_SImple_Version.py:263-291 | when the only opponent piece is surrounded, exactly that piece is captured |
| Basic.CaptureExample | Orbital_Capture_SImple_Version.py:263-291 | player 1 on (1,0), (1,2) and (0,1) captures the player-2 piece at (1,1), and only it |
| Basic.RowScoreIsWeightedCount | Orbital_Capture_SImple_Version.py:436-441 | a ring's share of the positional score is its ring value times the player's pieces on it |
| Basic.ScoreUpToBounds | Orbital_Capture_SImple_Version.py:433-441 | the score over the first rings lies between the piece count there and four times it |
| Basic.PositionScoreWeights | Orbital_Capture_SImple_Version.py:433-441 | the positional score weighs pieces on rings 0-3 by 4, 3, 2, 1 and lies between the piece count and four times the piece count |
| Basic.GameOverVerdict | Orbital_Capture_SImple_Version.py:367-431 | the winner named is a player; a counter below 3 decides first, player 1's before player 2's; with both counters at least 3, a stalemate of both players comes next and goes to the higher counter, or on equal counters to player 1 only with a strictly higher positional score; then a no-moves loss falls on the player to move, with the other player winning; each verdict arises only in its own case, and never an inner-circle verdict |
| Basic.CounterFloor | Orbital_Capture_SImple_Version.py:226-227 | while each counter is 4 above its player's pieces, as from the constructor on, both stay at least 4 and the fewer-than-3 loss never fires |
| Basic.GameOverInProgress | Orbital_Capture_SImple_Version.py:367-431 | the game goes on iff both counters are at least 3 and the player to move has a move; otherwise a player is named winner |
| Basic.StalemateTieBreak | Orbital_Capture_SImple_Version.py:409-423 | in a stalemate, player 1 wins iff it has more pieces or, with equal pieces, a strictly higher positional score; otherwise player 2 wins |
| Basic.TestBoardCounts | Orbital_Capture_SImple_Version.py:462-480 | the test layout holds 3 and 4 pieces, none on ring 0, agreeing with the counters the code writes |
| Basic.TestBoardFacts | Orbital_Capture_SImple_Version.py:457-483 | in the test layout both players can move, so with player 1 to move the game is in progress |
| Basic.TestLayout | Orbital_Capture_SImple_Version.py:459-472 | a fresh board holding exactly the test layout |
| Basic.OrbitalCaptureGame.constructor | Orbital_Capture_SImple_Version.py:221-241 | the starting layout, player 1 to move, threshold 3, inner counters 0, piece counters 8, four more than the pieces on the board |
| Basic.OrbitalCaptureGame.SetCell | Orbital_Capture_SImple_Version.py:303 | the board afterwards is the old board with that one cell written |
| Basic.OrbitalCaptureGame.MovesFor | Orbital_Capture_SImple_Version.py:243-261 | the loop builds the move list of the piece for the given player, as specified by ValidMoves |
| Basic.OrbitalCaptureGame.GetValidMoves | Orbital_Capture_SImple_Version.py:243-261 | returns the move list of the piece for the player to move |
| Basic.OrbitalCaptureGame.FindCaptures | Orbital_Capture_SImple_Version.py:263-291 | the nested scan returns the capture list of the current board, spoke by spoke and ring by ring |
| Basic.OrbitalCaptureGame.RemovePiece | Orbital_Capture_SImple_Version.py:294-307 | one opponent piece leaves the board and its owner's piece counter; the invariant is kept |
| Basic.OrbitalCaptureGame.RemoveCaptured | Orbital_Capture_SImple_Version.py:293-307 | every listed piece is cleared; the opponent loses that many pieces, and that many inner pieces on ring 0; the mover's counters stay |
| Basic.OrbitalCaptureGame.CheckCaptures | Orbital_Capture_SImple_Version.py:263-309 | every capture is judged on the board before any removal, then all are removed; counters follow the board |
| Basic.OrbitalCaptureGame.CheckInnerCircleWin | Orbital_Capture_SImple_Version.py:359-365 | a winner is named iff a counter has reached the threshold, and player 1 is checked first |
| Basic.OrbitalCaptureGame.PieceHasMoves | Orbital_Capture_SImple_Version.py:381-390 | tells whether the piece is the player's and has a move |
| Basic.OrbitalCaptureGame.RingHasMoves | Orbital_Capture_SImple_Version.py:380-392 | tells whether some piece of the player on the ring can move |
| Basic.OrbitalCaptureGame.PlayerHasMoves | Orbital_Capture_SImple_Version.py:376-407 | the early-exit scan tells whether any piece of the player can move |
| Basic.OrbitalCaptureGame.CalculateInnerRingScore | Orbital_Capture_SImple_Version.py:433-441 | the loop computes the positional score, 4 minus the ring summed over the player's pieces |
| Basic.OrbitalCaptureGame.CalculateScore | Orbital_Capture_SImple_Version.py:443-455 | the one-pass loop gives, for players 1 and 2, the same score as the per-player computation |
| Basic.OrbitalCaptureGame.CheckGameOver | Orbital_Capture_SImple_Version.py:367-431 | changes nothing and returns the game-over verdict for the board, both counters and the player to move |
| Basic.OrbitalCaptureGame.ShiftInner | Orbital_Capture_SImple_Version.py:313-325 | the mover's inner counter rises on entering ring 0 and falls on leaving it; nothing else changes |
| Basic.OrbitalCaptureGame.RelocatePiece | Orbital_Capture_SImple_Version.py:313-329 | the piece moves, the inner counters follow it, piece counts on the board are unchanged, and the invariant is kept |
| Basic.OrbitalCaptureGame.SwitchPlayer | Orbital_Capture_SImple_Version.py:337-338 | the other player is to move; the board is unchanged |
| Basic.OrbitalCaptureGame.Play | Orbital_Capture_SImple_Version.py:313-332 | relocation then captures judged on the landed board; the opponent loses exactly the captured pieces; the counter gaps are kept |
| Basic.OrbitalCaptureGame.Move | Orbital_Capture_SImple_Version.py:311-357 | a full turn: captures of the landed board removed, the inner counters adjusted, the player always switched, and an inner-circle win overriding the standard game-over verdict |
| Basic.OrbitalCaptureGame.SetTestBoard | Orbital_Capture_SImple_Version.py:457-483 | a fresh board with the test layout, counters equal to its pieces, player 1 to move |
| Enhanced.SpecialAt | Orbital_Capture_Advanced_version.py:594-598 | a kind found is listed at that cell; no kind means no point lies there |
| Enhanced.SpecialPointTable | Orbital_Capture_Advanced_version.py:425-432 | power at (0,0) and (0,4), jump at (1,2) and (1,6), shield at (2,1) and (2,5), nothing elsewhere |
| Enhanced.PieceBonus | Orbital_Capture_Advanced_version.py:603-624 | a special point adds at most 2 to the landing piece, and no special point adds nothing |
| Enhanced.ReserveBonus | Orbital_Capture_Advanced_version.py:609-624 | a special point adds at most 2 to the reserve, and no special point adds nothing; on any special point, piece and reserve together gain exactly 2 |
| Enhanced.RingGain | Orbital_Capture_Advanced_version.py:628-641 | with collection on, ring r yields 3 - r energy; with it off, nothing |
| Enhanced.OutwardMoves | Orbital_Capture_Advanced_version.py:460-462 | the outward class offers at most the empty cell one ring out on the same spoke |
| Enhanced.PriorMoves | Orbital_Capture_Advanced_version.py:450-462 | before the diagonal block, every listed cell is on the piece's ring or spoke, and both ring neighbours are listed when empty |
| Enhanced.DiagonalScanCorners | Orbital_Capture_Advanced_version.py:464-474 | the diagonal block's membership check only ever skips the piece's own ring, so it appends exactly the empty corner cells on the rings inward and outward |
| Enhanced.DiagonalRowsExactly | Orbital_Capture_Advanced_version.py:464-474 | a corner cell is offered iff it is empty, one ring away and one spoke away |
| Enhanced.JumpMovesExactly | Orbital_Capture_Advanced_version.py:476-486 | the jump class offers exactly the empty cells two spokes away, and two rings inward from ring 2 or 3 |
| Enhanced.SameRingScanExactly | Orbital_Capture_Advanced_version.py:492-494 | the nimber ring scan offers exactly the other empty cells of the ring |
| Enhanced.OppositeScanExactly | Orbital_Capture_Advanced_version.py:496-500 | the nimber spoke scan offers exactly the empty cells on the opposite spoke of the other rings |
| Enhanced.EnergyMoves | Orbital_Capture_Advanced_version.py:445-502 | every destination in the energy-gated list, class by class, is an empty cell on the board |
| Enhanced.EnergyMovesExactly | Orbital_Capture_Advanced_version.py:445-502 | a cell is in the move list iff it is empty and reachable by a class that the piece's energy and the two flags unlock |
| Enhanced.ValidMoves | Orbital_Capture_Advanced_version.py:437-502 | only empty on-board cells are offered, and nothing unless the piece is the player's |
| Enhanced.OwnerMoves | Orbital_Capture_Advanced_version.py:441-443 | for the owner, the offered list is the energy-gated list |
| Enhanced.LowEnergyMoves | Orbital_Capture_Advanced_version.py:448-462 | with energy below 2 only the standard moves remain: ring neighbours and the cell inward |
| Enhanced.MoveGating | Orbital_Capture_Advanced_version.py:460-500 | an outward destination needs energy 2; anything beyond the standard steps needs 2; a same-ring or two-ring move beyond the neighbours needs 4 and jumps or nimber on |
| Enhanced.NimberRepeatsNeighbour | Orbital_Capture_Advanced_version.py:450-494 | with nimber moves on and energy 5, an empty ring neighbour appears twice in the list |
| Enhanced.SpokeDistance | Orbital_Capture_Advanced_version.py:651 | the shorter way round: between 0 and 4 spokes, reaching the target in one direction or the other, with no fewer steps reaching it either way |
| Enhanced.MoveCost | Orbital_Capture_Advanced_version.py:646-660 | a move is free iff it is a single step that is not outward; an outward move costs at least 2; no move costs more than 9 |
| Enhanced.CostByClass | Orbital_Capture_Advanced_version.py:646-660 | standard steps are free; one ring out, an inward diagonal and a jump cost 2; an outward diagonal costs 4; the opposite spoke costs at least 4 |
| Enhanced.LowEnergyMovesAreFree | Orbital_Capture_Advanced_version.py:646-660 | every move a piece with energy below 2 is offered costs nothing |
| Enhanced.Pay | Orbital_Capture_Advanced_version.py:662-682 | payment fails iff piece and reserve together fall short; on success they drop by exactly the cost, the reserve is touched only when the piece falls short, a piece that falls short lands with 0, and nothing goes negative |
| Enhanced.NeighbourEnergy | Orbital_Capture_Advanced_version.py:541-554 | the mover's energy around a cell is never negative while no energy is; StaleEnergyIgnored states which cells it reads |
| Enhanced.EnergyCaptured | Orbital_Capture_Advanced_version.py:556-558 | for a piece of energy up to 2, the floor of 4 decides the energy rule; from energy 2 up, twice the piece's energy does |
| Enhanced.StaleEnergyIgnored | Orbital_Capture_Advanced_version.py:541-554 | the surrounding energy depends only on the energies of the mover's own pieces, so stale energy on an empty cell cannot change a capture |
| Enhanced.CapturesOnRingExactly | Orbital_Capture_Advanced_version.py:512-560 | the inner loop lists, once each, the captured opponent pieces on the ring among the spokes scanned so far |
| Enhanced.CapturesUpToExactly | Orbital_Capture_Advanced_version.py:511-560 | the scan lists, once each, the captured opponent pieces on the rings scanned so far |
| Enhanced.Captures | Orbital_Capture_Advanced_version.py:504-560 | every captured cell is on the board; Enhanced.CapturesExactly states which |
| Enhanced.CapturesExactly | Orbital_Capture_Advanced_version.py:504-560 | a cell is captured iff it holds an opponent piece that is surrounded, or outweighed by the mover's energy around it, on the board and energies before removal; no capture is listed twice; a ring-0 capture is always by the energy rule |
| Enhanced.Transfer | Orbital_Capture_Advanced_version.py:572-573 | one capture gives half the captured energy, rounded down, or 1 if that is larger |
| Enhanced.TransferSum | Orbital_Capture_Advanced_version.py:563-579 | the reserve gains at least one per captured piece |
| Enhanced.StartingArrays | Orbital_Capture_Advanced_version.py:405-421 | fresh board and energy arrays: the starting layout with four pieces each, none on ring 0, and all energies 0 |
| Enhanced.EnhancedOrbitalCaptureGame.constructor | Orbital_Capture_Advanced_version.py:375-401 | the starting state with the invariant, and thresholds 3 and 12 with jumps, nimber and collection on |
| Enhanced.EnhancedOrbitalCaptureGame.ResetBoard | Orbital_Capture_Advanced_version.py:403-435 | the starting layout, energies and reserves 0, counters 4/4 and 0/0, the six special points, player 1 to move; the settings kept |
| Enhanced.EnhancedOrbitalCaptureGame.SetCell | Orbital_Capture_Advanced_version.py:582 | one board cell written; energies untouched |
| Enhanced.EnhancedOrbitalCaptureGame.SetEnergy | Orbital_Capture_Advanced_version.py:583 | one energy cell written; board untouched |
| Enhanced.EnhancedOrbitalCaptureGame.StandardBlock | Orbital_Capture_Advanced_version.py:450-458 | the loop lists the standard moves |
| Enhanced.EnhancedOrbitalCaptureGame.DiagonalBlock | Orbital_Capture_Advanced_version.py:464-474 | the nested loop appends the diagonal cells, as specified by the scan with its membership check |
| Enhanced.EnhancedOrbitalCaptureGame.DiagonalSide | Orbital_Capture_Advanced_version.py:470-474 | the inner loop appends each empty unlisted cell beside the spoke on one ring |
| Enhanced.EnhancedOrbitalCaptureGame.JumpBlock | Orbital_Capture_Advanced_version.py:476-486 | the loop lists the jump moves |
| Enhanced.EnhancedOrbitalCaptureGame.NimberBlock | Orbital_Capture_Advanced_version.py:488-500 | the two loops list the nimber moves, without checking what is already listed |
| Enhanced.EnhancedOrbitalCaptureGame.GetValidMoves | Orbital_Capture_Advanced_version.py:437-502 | returns the move list of the piece for the player to move, under the current flags |
| Enhanced.EnhancedOrbitalCaptureGame.PieceMoves | Orbital_Capture_Advanced_version.py:445-502 | the blocks, each gated by energy and flag, build the energy-gated list |
| Enhanced.EnhancedOrbitalCaptureGame.SurroundingEnergy | Orbital_Capture_Advanced_version.py:541-554 | the nested loop sums the mover's energy over the cells around the piece, skipping the piece and rings off the board |
| Enhanced.EnhancedOrbitalCaptureGame.FindCaptures | Orbital_Capture_Advanced_version.py:509-560 | the scan returns the capture list of the current board and energies |
| Enhanced.EnhancedOrbitalCaptureGame.ScanRing | Orbital_Capture_Advanced_version.py:512-560 | the inner loop appends the captures on one ring, in spoke order |
| Enhanced.EnhancedOrbitalCaptureGame.AssessPiece | Orbital_Capture_Advanced_version.py:513-560 | a cell is listed iff it holds an opponent piece that is surrounded, or outweighed by the energy around it |
| Enhanced.EnhancedOrbitalCaptureGame.CreditReserve | Orbital_Capture_Advanced_version.py:576-579 | only the given player's reserve changes, by the amount |
| Enhanced.EnhancedOrbitalCaptureGame.AdjustInner | Orbital_Capture_Advanced_version.py:565-569 | only the given player's inner counter changes, by the amount |
| Enhanced.EnhancedOrbitalCaptureGame.DropPiece | Orbital_Capture_Advanced_version.py:585-588 | only the given player's piece counter drops, by one |
| Enhanced.EnhancedOrbitalCaptureGame.RemovePiece | Orbital_Capture_Advanced_version.py:563-588 | one captured piece: cell and energy zeroed, the mover's reserve gains the transfer, the invariant is kept |
| Enhanced.EnhancedOrbitalCaptureGame.RemoveCaptured | Orbital_Capture_Advanced_version.py:562-590 | all listed pieces cleared with their energies; the mover's reserve gains the summed transfer; the opponent's reserve stays |
| Enhanced.EnhancedOrbitalCaptureGame.CheckCaptures | Orbital_Capture_Advanced_version.py:504-590 | captures judged on the board and energies before removal, then removed; the opponent loses exactly those pieces; the mover's reserve gains the transfers |
| Enhanced.EnhancedOrbitalCaptureGame.HandleSpecialPoint | Orbital_Capture_Advanced_version.py:592-626 | the first matching point's effect: power +2 to the piece, jump +2 to the reserve, shield +1 to each; nothing on other cells |
| Enhanced.EnhancedOrbitalCaptureGame.FindSpecialPoint | Orbital_Capture_Advanced_version.py:594-598 | the loop with early exit returns the first listed point at the cell |
| Enhanced.EnhancedOrbitalCaptureGame.ApplyEnergyFromPosition | Orbital_Capture_Advanced_version.py:628-641 | the piece gains the energy of its ring, and only that cell changes |
| Enhanced.EnhancedOrbitalCaptureGame.PayForMove | Orbital_Capture_Advanced_version.py:645-682 | the cost of the move and its payment; on failure the reserve is unchanged |
| Enhanced.EnhancedOrbitalCaptureGame.ShiftInner | Orbital_Capture_Advanced_version.py:684-696 | the mover's inner counter rises on entering ring 0 and falls on leaving it; the opponent's stays |
| Enhanced.EnhancedOrbitalCaptureGame.LandPiece | Orbital_Capture_Advanced_version.py:698-704 | the piece moves and lands with its energy after payment; the origin keeps its old energy; the invariant is kept |
| Enhanced.EnhancedOrbitalCaptureGame.CheckVictory | Orbital_Capture_Advanced_version.py:730-750 | elimination, then inner circle, then energy, player 1 first within each tier; no winner iff no tier applies |
| Enhanced.EnhancedOrbitalCaptureGame.Arrive | Orbital_Capture_Advanced_version.py:698-710 | landing, then ring energy, then the special point: the piece ends with payment remainder plus ring gain plus piece bonus, and the reserve gains the reserve bonus |
| Enhanced.EnhancedOrbitalCaptureGame.SwitchPlayer | Orbital_Capture_Advanced_version.py:718-719 | the other player is to move; board and energies unchanged |
| Enhanced.EnhancedOrbitalCaptureGame.Play | Orbital_Capture_Advanced_version.py:698-713 | arrival, then captures judged on the board and energies after landing; the mover's reserve gains the bonus and the transfers; the opponent loses exactly the captured pieces |
| Enhanced.EnhancedOrbitalCaptureGame.Settle | Orbital_Capture_Advanced_version.py:643-713 | not enough energy iff payment fails, and then board and energies are unchanged; otherwise the mover pays the cost, the piece lands with its paid energy, captures and transfers follow, and the player to move is not yet switched |
| Enhanced.EnhancedOrbitalCaptureGame.Move | Orbital_Capture_Advanced_version.py:643-728 | not enough energy iff payment fails, and then nothing changes; otherwise the full turn, with the victory read after the captures and the player switched even on victory |

## Left out

- The presentation layer is not part of this model: the board widgets, their painting, animations and timers, the windows, dialogs, rule texts and entry points. The pixel-to-cell conversions are out too, since they are floating-point trigonometry.
- The difficulty menu, which sets the jump and nimber flags, is not modelled. The flags and thresholds are plain fields that a move reads and never changes.
- numpy arrays are modelled as `array2<int>` with unbounded integers. No value here comes near a 64-bit bound.
- Reason texts and message strings are not modelled. The game-over and victory reasons are datatype values (`Reason`, `VictoryReason`) rather than formatted strings. A special-point effect is reported by its kind rather than by its dictionary.
- Basic.OrbitalCaptureGame.Move: `requires` that the destination is in the piece's move list. The source's `move` does no checking; its only caller offers destinations taken from `get_valid_moves`.
- Enhanced.EnhancedOrbitalCaptureGame.Move: `requires` only that the origin holds the mover's piece and the destination is empty. It therefore accepts any such destination, not only those in the move list. The source's `move` does no checking of its own.
- Basic.OrbitalCaptureGame.Move: does not state that each piece counter equals the pieces on the board. The code starts the counters at 8 while placing four pieces each, so the contract states instead that the gap between counter and board is kept.
- Enhanced.EnhancedOrbitalCaptureGame.Valid does not say that an empty cell has energy 0. The vacated cell keeps its energy in the code; StaleEnergyIgnored shows that this cannot affect a capture.
