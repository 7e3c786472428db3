/** The enhanced engine, `EnhancedOrbitalCaptureGame`: the basic board plus a
    parallel grid of per-piece energies, an energy reserve per player, six
    fixed special points, move classes unlocked by energy, an energy-weighted
    capture rule and a three-tier victory check. The energy grid is a `Grid`
    like the board; `e[r][s]` is the energy of the piece at (r, s). */
module Enhanced {
  import opened Board

  predicate NonNegative(e: Grid)
    requires WellFormed(e)
  {
    forall r, s | 0 <= r < Rings && 0 <= s < Spokes :: e[r][s] >= 0
  }

  // ---------------------------------------------------------------------
  // Special points

  datatype SpecialKind = Power | Jump | Shield

  datatype SpecialPoint = SpecialPoint(ring: int, spoke: int, kind: SpecialKind)

  /** The six special points `reset_board` lays out. */
  const SpecialPoints: seq<SpecialPoint> := [
    SpecialPoint(0, 0, Power), SpecialPoint(0, 4, Power),
    SpecialPoint(1, 2, Jump), SpecialPoint(1, 6, Jump),
    SpecialPoint(2, 1, Shield), SpecialPoint(2, 5, Shield)]

  /** The kind of the first listed point at (r, s), if any. */
  function SpecialAt(points: seq<SpecialPoint>, r: int, s: int): (k: Option<SpecialKind>)
    ensures k.Some? ==> SpecialPoint(r, s, k.value) in points
    ensures k.None? ==> forall p | p in points :: p.ring != r || p.spoke != s
  {
    if points == [] then None
    else if points[0].ring == r && points[0].spoke == s then Some(points[0].kind)
    else SpecialAt(points[1..], r, s)
  }

  /** Where each kind of special point lies on the board. */
  lemma SpecialPointTable(r: int, s: int)
    ensures SpecialAt(SpecialPoints, r, s) ==
      if r == 0 && (s == 0 || s == 4) then Some(Power)
      else if r == 1 && (s == 2 || s == 6) then Some(Jump)
      else if r == 2 && (s == 1 || s == 5) then Some(Shield)
      else None
  {
    var k := SpecialAt(SpecialPoints, r, s);
    if k.Some? {
      assert SpecialPoint(r, s, k.value) in SpecialPoints;
    }
  }

  /** Energy a special point adds to the piece that lands on it: none off a
      special point, and at most 2. */
  function PieceBonus(k: Option<SpecialKind>): (b: nat)
    ensures b <= 2
    ensures k.None? ==> b == 0
  {
    match k
    case Some(Power) => 2
    case Some(Shield) => 1
    case _ => 0
  }

  /** The energy a moved piece ends its turn with: what was left after
      paying, the energy of its ring, and the bonus of a special point. */
  function LandingEnergy(afterMove: int, gained: int, special: Option<SpecialKind>): int {
    afterMove + gained + PieceBonus(special)
  }

  /** Energy a special point adds to the mover's reserve: none off a special
      point; on one, piece and reserve together gain exactly 2. */
  function ReserveBonus(k: Option<SpecialKind>): (b: nat)
    ensures b <= 2
    ensures k.None? ==> b == 0
    ensures k.Some? ==> PieceBonus(k) + b == 2
  {
    match k
    case Some(Jump) => 2
    case Some(Shield) => 1
    case _ => 0
  }

  // ---------------------------------------------------------------------
  // Energy from position

  /** Energy a piece collects by ring, inner rings first. */
  const RingEnergy: seq<int> := [3, 2, 1, 0]

  /** What `apply_energy_from_position` adds on `ring`: each ring further
      out is worth one less, and nothing when collection is off. */
  function RingGain(collect: bool, ring: int): (gain: int)
    requires 0 <= ring < Rings
    ensures collect ==> gain == Rings - 1 - ring
    ensures !collect ==> gain == 0
  {
    if collect then RingEnergy[ring] else 0
  }

  // ---------------------------------------------------------------------
  // Move classes

  /** Ring shifts of the diagonal scan and of the neighbourhood sum. */
  const Shifts: seq<int> := [-1, 0, 1]

  /** Spoke offsets of a jump along the ring. */
  const JumpOffsets: seq<int> := [-2, 2]

  /** One step outward, for a piece with energy at least 2 off ring 3. */
  function OutwardMoves(g: Grid, r: int, s: int, pe: int): (ds: seq<Pos>)
    requires WellFormed(g) && InBounds(Pos(r, s))
    ensures forall e | e in ds :: InBounds(e) && At(g, e) == Empty && e == Pos(r + 1, s)
  {
    if r < Rings - 1 && pe >= 2 then IfEmpty(g, Pos(r + 1, s)) else []
  }

  /** The reference definition of the diagonal class: on each ring beside
      the piece's own, the two empty cells beside spoke `s`. */
  function DiagonalRow(g: Grid, r: int, s: int, dr: int): seq<Pos>
    requires WellFormed(g) && InBounds(Pos(r, s))
  {
    if dr != 0 && 0 <= r + dr < Rings then RingSteps(g, r + dr, s, RingOffsets, |RingOffsets|) else []
  }

  /** The reference diagonal cells for the first `i` ring shifts. */
  function DiagonalRows(g: Grid, r: int, s: int, i: nat): seq<Pos>
    requires WellFormed(g) && InBounds(Pos(r, s)) && i <= |Shifts|
  {
    if i == 0 then [] else DiagonalRows(g, r, s, i - 1) + DiagonalRow(g, r, s, Shifts[i - 1])
  }

  /** The diagonal scan on ring `nr` as the engine runs it: for the first
      `j` spoke offsets, the cell is appended to `listed` when it is empty
      and not already there. */
  function SideScan(g: Grid, listed: seq<Pos>, nr: int, s: int, j: nat): seq<Pos>
    requires WellFormed(g) && 0 <= nr < Rings && j <= |RingOffsets|
  {
    if j == 0 then listed
    else
      var prev := SideScan(g, listed, nr, s, j - 1);
      var d := Pos(nr, Wrap(s + RingOffsets[j - 1]));
      if d !in prev && At(g, d) == Empty then prev + [d] else prev
  }

  /** The diagonal block as the engine runs it over the first `i` ring
      shifts, starting from the moves already listed. */
  function DiagonalScan(g: Grid, listed: seq<Pos>, r: int, s: int, i: nat): seq<Pos>
    requires WellFormed(g) && InBounds(Pos(r, s)) && i <= |Shifts|
  {
    if i == 0 then listed
    else
      var prev := DiagonalScan(g, listed, r, s, i - 1);
      if 0 <= r + Shifts[i - 1] < Rings then SideScan(g, prev, r + Shifts[i - 1], s, |RingOffsets|) else prev
  }

  /** What the diagonal block finds already listed: standard and outward
      moves lie on the piece's ring or spoke, and its two ring neighbours are
      listed whenever they are empty. */
  lemma PriorMoves(g: Grid, r: int, s: int, pe: int)
    requires WellFormed(g) && InBounds(Pos(r, s))
    ensures forall x | x in StandardMoves(g, r, s) + OutwardMoves(g, r, s, pe) :: x.ring == r || x.spoke == s
    ensures forall k | 0 <= k < |RingOffsets| && g[r][Wrap(s + RingOffsets[k])] == Empty ::
      Pos(r, Wrap(s + RingOffsets[k])) in StandardMoves(g, r, s) + OutwardMoves(g, r, s, pe)
  {
    forall x | x in StandardMoves(g, r, s)
      ensures x.ring == r || x.spoke == s
    {
      StandardMovesExactly(g, r, s, x);
    }
    forall k | 0 <= k < |RingOffsets| && g[r][Wrap(s + RingOffsets[k])] == Empty
      ensures Pos(r, Wrap(s + RingOffsets[k])) in StandardMoves(g, r, s)
    {
      StandardMovesExactly(g, r, s, Pos(r, Wrap(s + RingOffsets[k])));
    }
  }

  /** On a ring where nothing listed lies beside spoke `s`, the scan adds
      exactly the reference cells of that ring. */
  lemma SideScanFresh(g: Grid, listed: seq<Pos>, nr: int, s: int)
    requires WellFormed(g) && 0 <= nr < Rings && 0 <= s < Spokes
    requires forall x | x in listed :: x.ring != nr || x.spoke == s
    ensures SideScan(g, listed, nr, s, |RingOffsets|) == listed + RingSteps(g, nr, s, RingOffsets, |RingOffsets|)
  {
    RingStepsPair(g, nr, s, RingOffsets);
    var a, b := Pos(nr, Wrap(s - 1)), Pos(nr, Wrap(s + 1));
    assert a !in listed && b !in listed;
    assert SideScan(g, listed, nr, s, 0) == listed;
    assert SideScan(g, listed, nr, s, 1) == listed + IfEmpty(g, a);
    assert b !in listed + IfEmpty(g, a);
    assert SideScan(g, listed, nr, s, 2) == listed + IfEmpty(g, a) + IfEmpty(g, b);
  }

  /** On a ring whose two cells beside spoke `s` are listed whenever they are
      empty, the scan adds nothing. */
  lemma SideScanKnown(g: Grid, listed: seq<Pos>, nr: int, s: int)
    requires WellFormed(g) && 0 <= nr < Rings && 0 <= s < Spokes
    requires forall k | 0 <= k < |RingOffsets| && g[nr][Wrap(s + RingOffsets[k])] == Empty ::
      Pos(nr, Wrap(s + RingOffsets[k])) in listed
    ensures SideScan(g, listed, nr, s, |RingOffsets|) == listed
  {
    assert SideScan(g, listed, nr, s, 0) == listed;
    assert SideScan(g, listed, nr, s, 1) == listed;
  }

  /** What the diagonal block finds already listed, in general terms: only
      cells on the piece's ring or spoke, among them its two ring neighbours
      whenever they are empty. */
  predicate OwnRingListed(g: Grid, listed: seq<Pos>, r: int, s: int)
    requires WellFormed(g) && InBounds(Pos(r, s))
  {
    && (forall x | x in listed :: x.ring == r || x.spoke == s)
    && (forall k | 0 <= k < |RingOffsets| && g[r][Wrap(s + RingOffsets[k])] == Empty ::
          Pos(r, Wrap(s + RingOffsets[k])) in listed)
  }

  /** The ring inside adds its reference cells. */
  lemma DiagonalScanBelow(g: Grid, listed: seq<Pos>, r: int, s: int)
    requires WellFormed(g) && InBounds(Pos(r, s)) && OwnRingListed(g, listed, r, s)
    ensures DiagonalScan(g, listed, r, s, 1) == listed + DiagonalRow(g, r, s, -1)
  {
    assert DiagonalScan(g, listed, r, s, 0) == listed;
    if r > 0 {
      SideScanFresh(g, listed, r - 1, s);
    }
  }

  /** The piece's own ring adds nothing. */
  lemma DiagonalScanOwn(g: Grid, listed: seq<Pos>, r: int, s: int)
    requires WellFormed(g) && InBounds(Pos(r, s)) && OwnRingListed(g, listed, r, s)
    ensures DiagonalScan(g, listed, r, s, 2) == DiagonalScan(g, listed, r, s, 1)
  {
    DiagonalScanBelow(g, listed, r, s);
    SideScanKnown(g, listed + DiagonalRow(g, r, s, -1), r, s);
  }

  /** The ring outside adds its reference cells. */
  lemma DiagonalScanAbove(g: Grid, listed: seq<Pos>, r: int, s: int)
    requires WellFormed(g) && InBounds(Pos(r, s)) && OwnRingListed(g, listed, r, s)
    ensures DiagonalScan(g, listed, r, s, 3) == listed + DiagonalRow(g, r, s, -1) + DiagonalRow(g, r, s, 1)
  {
    var before := listed + DiagonalRow(g, r, s, -1);
    DiagonalScanBelow(g, listed, r, s);
    DiagonalScanOwn(g, listed, r, s);
    if r < Rings - 1 {
      forall x | x in before
        ensures x.ring != r + 1 || x.spoke == s
      {
      }
      SideScanFresh(g, before, r + 1, s);
    }
  }

  /** The engine's "not already listed" check in the diagonal block only
      ever skips the piece's own ring: after the standard and outward moves,
      the scan appends exactly the reference diagonal cells. */
  lemma DiagonalScanCorners(g: Grid, r: int, s: int, pe: int)
    requires WellFormed(g) && InBounds(Pos(r, s))
    ensures DiagonalScan(g, StandardMoves(g, r, s) + OutwardMoves(g, r, s, pe), r, s, |Shifts|) ==
      StandardMoves(g, r, s) + OutwardMoves(g, r, s, pe) + DiagonalRows(g, r, s, |Shifts|)
  {
    var base := StandardMoves(g, r, s) + OutwardMoves(g, r, s, pe);
    PriorListed(g, r, s, pe);
    DiagonalScanAbove(g, base, r, s);
    DiagonalRowsSplit(g, r, s);
  }

  /** PriorMoves in the form the diagonal scan lemmas take. */
  lemma PriorListed(g: Grid, r: int, s: int, pe: int)
    requires WellFormed(g) && InBounds(Pos(r, s))
    ensures OwnRingListed(g, StandardMoves(g, r, s) + OutwardMoves(g, r, s, pe), r, s)
  {
    PriorMoves(g, r, s, pe);
  }

  /** The reference diagonal cells: the ring inside, then the ring outside. */
  lemma DiagonalRowsSplit(g: Grid, r: int, s: int)
    requires WellFormed(g) && InBounds(Pos(r, s))
    ensures DiagonalRows(g, r, s, |Shifts|) == DiagonalRow(g, r, s, -1) + DiagonalRow(g, r, s, 1)
  {
    var below := DiagonalRow(g, r, s, -1);
    assert DiagonalRows(g, r, s, 1) == below by {
      assert DiagonalRows(g, r, s, 1) == [] + below;
    }
    assert DiagonalRows(g, r, s, 2) == below by {
      assert DiagonalRows(g, r, s, 2) == below + [];
    }
  }

  /** Two spokes either way along the ring, then two rings inward. */
  function JumpMoves(g: Grid, r: int, s: int): seq<Pos>
    requires WellFormed(g) && InBounds(Pos(r, s))
  {
    RingSteps(g, r, s, JumpOffsets, |JumpOffsets|) + (if r >= 2 then IfEmpty(g, Pos(r - 2, s)) else [])
  }

  /** Every other empty cell on ring `r` among spokes 0..k-1, in spoke order. */
  function SameRingScan(g: Grid, r: int, s: int, k: nat): seq<Pos>
    requires WellFormed(g) && InBounds(Pos(r, s)) && k <= Spokes
  {
    if k == 0 then [] else SameRingScan(g, r, s, k - 1) + (if k - 1 != s then IfEmpty(g, Pos(r, k - 1)) else [])
  }

  /** The empty cells on spoke `o` among rings 0..k-1 other than ring `r`. */
  function OppositeScan(g: Grid, r: int, o: int, k: nat): seq<Pos>
    requires WellFormed(g) && 0 <= r < Rings && 0 <= o < Spokes && k <= Rings
  {
    if k == 0 then [] else OppositeScan(g, r, o, k - 1) + (if k - 1 != r then IfEmpty(g, Pos(k - 1, o)) else [])
  }

  /** Any other empty cell of the ring, then the opposite spoke on every
      other ring. */
  function NimberMoves(g: Grid, r: int, s: int): seq<Pos>
    requires WellFormed(g) && InBounds(Pos(r, s))
  {
    SameRingScan(g, r, s, Spokes) + OppositeScan(g, r, Wrap(s + 4), Rings)
  }

  /** The move list of a piece with energy `pe`, class after class in the
      order they are appended; every class offers only empty cells. */
  function EnergyMoves(g: Grid, r: int, s: int, pe: int, jumps: bool, nimber: bool): (ms: seq<Pos>)
    requires WellFormed(g) && InBounds(Pos(r, s))
    ensures forall d | d in ms :: InBounds(d) && At(g, d) == Empty
  {
    var base := StandardMoves(g, r, s) + OutwardMoves(g, r, s, pe);
    DiagonalScanCorners(g, r, s, pe);
    assert forall d | d in DiagonalRows(g, r, s, |Shifts|) :: InBounds(d) && At(g, d) == Empty by {
      forall d | d in DiagonalRows(g, r, s, |Shifts|)
        ensures InBounds(d) && At(g, d) == Empty
      {
        DiagonalRowsExactly(g, r, s, d);
      }
    }
    assert forall d | d in JumpMoves(g, r, s) :: InBounds(d) && At(g, d) == Empty by {
      forall d | d in JumpMoves(g, r, s)
        ensures InBounds(d) && At(g, d) == Empty
      {
        JumpMovesExactly(g, r, s, d);
      }
    }
    assert forall d | d in NimberMoves(g, r, s) :: InBounds(d) && At(g, d) == Empty by {
      forall d | d in NimberMoves(g, r, s)
        ensures InBounds(d) && At(g, d) == Empty
      {
        SameRingScanExactly(g, r, s, Spokes, d);
        OppositeScanExactly(g, r, Wrap(s + 4), Rings, d);
      }
    }
    (if pe >= 3 then DiagonalScan(g, base, r, s, |Shifts|) else base)
    + (if jumps && pe >= 4 then JumpMoves(g, r, s) else [])
    + (if nimber && pe >= 5 then NimberMoves(g, r, s) else [])
  }

  /** The destinations offered to the piece at (r, s) when `player` is to
      move: nothing unless the piece is theirs, and only empty cells. */
  function ValidMoves(g: Grid, e: Grid, r: int, s: int, player: int, jumps: bool, nimber: bool): (ms: seq<Pos>)
    requires WellFormed(g) && WellFormed(e) && InBounds(Pos(r, s))
    ensures forall d | d in ms :: InBounds(d) && At(g, d) == Empty
    ensures ms != [] ==> g[r][s] == player
  {
    if g[r][s] != player then []
    else EnergyMoves(g, r, s, e[r][s], jumps, nimber)
  }

  /** For the owner, the offered destinations are the energy-gated list. */
  lemma OwnerMoves(g: Grid, e: Grid, r: int, s: int, player: int, jumps: bool, nimber: bool)
    requires WellFormed(g) && WellFormed(e) && InBounds(Pos(r, s)) && g[r][s] == player
    ensures ValidMoves(g, e, r, s, player, jumps, nimber) == EnergyMoves(g, r, s, e[r][s], jumps, nimber)
  {
  }

  /** The destinations the rules allow a piece at (r, s) with energy `pe`,
      class by class, before emptiness is checked. */
  predicate Reachable(r: int, s: int, pe: int, jumps: bool, nimber: bool, d: Pos) {
    || d == Pos(r, Wrap(s - 1)) || d == Pos(r, Wrap(s + 1)) || (r > 0 && d == Pos(r - 1, s))
    || (pe >= 2 && r < Rings - 1 && d == Pos(r + 1, s))
    || (pe >= 3 && (d.ring == r - 1 || d.ring == r + 1) && (d.spoke == Wrap(s - 1) || d.spoke == Wrap(s + 1)))
    || (jumps && pe >= 4 && (d == Pos(r, Wrap(s - 2)) || d == Pos(r, Wrap(s + 2)) || (r >= 2 && d == Pos(r - 2, s))))
    || (nimber && pe >= 5 && ((d.ring == r && d.spoke != s) || (d.ring != r && d.spoke == Wrap(s + 4))))
  }

  lemma DiagonalRowExactly(g: Grid, r: int, s: int, dr: int, d: Pos)
    requires WellFormed(g) && InBounds(Pos(r, s)) && dr != 0
    ensures d in DiagonalRow(g, r, s, dr) <==>
      InBounds(d) && At(g, d) == Empty && d.ring == r + dr &&
      (d.spoke == Wrap(s - 1) || d.spoke == Wrap(s + 1))
  {
    if 0 <= r + dr < Rings {
      RingStepsPair(g, r + dr, s, RingOffsets);
    }
  }

  lemma DiagonalRowsExactly(g: Grid, r: int, s: int, d: Pos)
    requires WellFormed(g) && InBounds(Pos(r, s))
    ensures d in DiagonalRows(g, r, s, |Shifts|) <==>
      InBounds(d) && At(g, d) == Empty && (d.ring == r - 1 || d.ring == r + 1) &&
      (d.spoke == Wrap(s - 1) || d.spoke == Wrap(s + 1))
  {
    DiagonalRowsSplit(g, r, s);
    DiagonalRowExactly(g, r, s, -1, d);
    DiagonalRowExactly(g, r, s, 1, d);
  }

  lemma JumpMovesExactly(g: Grid, r: int, s: int, d: Pos)
    requires WellFormed(g) && InBounds(Pos(r, s))
    ensures d in JumpMoves(g, r, s) <==>
      InBounds(d) && At(g, d) == Empty &&
      (d == Pos(r, Wrap(s - 2)) || d == Pos(r, Wrap(s + 2)) || (r >= 2 && d == Pos(r - 2, s)))
  {
    RingStepsPair(g, r, s, JumpOffsets);
  }

  lemma {:induction false} SameRingScanExactly(g: Grid, r: int, s: int, k: nat, d: Pos)
    requires WellFormed(g) && InBounds(Pos(r, s)) && k <= Spokes
    ensures d in SameRingScan(g, r, s, k) <==>
      InBounds(d) && At(g, d) == Empty && d.ring == r && d.spoke != s && d.spoke < k
  {
    if k > 0 {
      SameRingScanExactly(g, r, s, k - 1, d);
    }
  }

  lemma {:induction false} OppositeScanExactly(g: Grid, r: int, o: int, k: nat, d: Pos)
    requires WellFormed(g) && 0 <= r < Rings && 0 <= o < Spokes && k <= Rings
    ensures d in OppositeScan(g, r, o, k) <==>
      InBounds(d) && At(g, d) == Empty && d.spoke == o && d.ring != r && d.ring < k
  {
    if k > 0 {
      OppositeScanExactly(g, r, o, k - 1, d);
    }
  }

  /** The move list holds exactly the empty cells the move classes reach,
      each class only when its energy and flag allow it. */
  lemma EnergyMovesExactly(g: Grid, r: int, s: int, pe: int, jumps: bool, nimber: bool, d: Pos)
    requires WellFormed(g) && InBounds(Pos(r, s))
    ensures d in EnergyMoves(g, r, s, pe, jumps, nimber) <==>
      InBounds(d) && At(g, d) == Empty && Reachable(r, s, pe, jumps, nimber, d)
  {
    DiagonalScanCorners(g, r, s, pe);
    StandardMovesExactly(g, r, s, d);
    DiagonalRowsExactly(g, r, s, d);
    JumpMovesExactly(g, r, s, d);
    SameRingScanExactly(g, r, s, Spokes, d);
    OppositeScanExactly(g, r, Wrap(s + 4), Rings, d);
  }

  /** A piece with energy below 2 has only the standard moves. */
  lemma LowEnergyMoves(g: Grid, r: int, s: int, pe: int, jumps: bool, nimber: bool)
    requires WellFormed(g) && InBounds(Pos(r, s)) && pe < 2
    ensures EnergyMoves(g, r, s, pe, jumps, nimber) == StandardMoves(g, r, s)
    ensures forall d | d in EnergyMoves(g, r, s, pe, jumps, nimber) ::
      d == Pos(r, Wrap(s - 1)) || d == Pos(r, Wrap(s + 1)) || (r > 0 && d == Pos(r - 1, s))
  {
    assert OutwardMoves(g, r, s, pe) == [];
    forall d | d in StandardMoves(g, r, s)
      ensures d == Pos(r, Wrap(s - 1)) || d == Pos(r, Wrap(s + 1)) || (r > 0 && d == Pos(r - 1, s))
    {
      StandardMovesExactly(g, r, s, d);
    }
  }

  /** Moving outward takes energy at least 2, and leaving the ring's two
      neighbours and the cell inward takes at least 2 as well; anything
      further than one step along the ring or two rings away takes at
      least 4. */
  lemma MoveGating(g: Grid, r: int, s: int, pe: int, jumps: bool, nimber: bool, d: Pos)
    requires WellFormed(g) && InBounds(Pos(r, s)) && d in EnergyMoves(g, r, s, pe, jumps, nimber)
    ensures d.ring > r ==> pe >= 2
    ensures d != Pos(r, Wrap(s - 1)) && d != Pos(r, Wrap(s + 1)) && d != Pos(r - 1, s) ==> pe >= 2
    ensures d.ring == r && d.spoke != Wrap(s - 1) && d.spoke != Wrap(s + 1) ==> pe >= 4 && (jumps || nimber)
    ensures (d.ring <= r - 2 || d.ring >= r + 2) ==> pe >= 4 && (jumps || nimber)
  {
    EnergyMovesExactly(g, r, s, pe, jumps, nimber, d);
  }

  /** Once the nimber class fires, a ring neighbour that is empty is listed
      twice: once as a standard step and again by the same-ring scan. */
  lemma NimberRepeatsNeighbour(g: Grid, e: Grid, r: int, s: int, player: int, jumps: bool)
    requires WellFormed(g) && WellFormed(e) && InBounds(Pos(r, s))
    requires g[r][s] == player && e[r][s] >= 5 && g[r][Wrap(s + 1)] == Empty
    ensures !Distinct(ValidMoves(g, e, r, s, player, jumps, true))
  {
    var d := Pos(r, Wrap(s + 1));
    var pe := e[r][s];
    StandardMovesExactly(g, r, s, d);
    SameRingScanExactly(g, r, s, Spokes, d);
    var base := StandardMoves(g, r, s) + OutwardMoves(g, r, s, pe);
    DiagonalScanCorners(g, r, s, pe);
    var front := DiagonalScan(g, base, r, s, |Shifts|) + (if jumps && pe >= 4 then JumpMoves(g, r, s) else []);
    assert d in base;
    assert d in front;
    SharedNotDistinct(front, NimberMoves(g, r, s), d);
  }

  lemma SharedNotDistinct(xs: seq<Pos>, ys: seq<Pos>, d: Pos)
    requires d in xs && d in ys
    ensures !Distinct(xs + ys)
  {
    var i :| 0 <= i < |xs| && xs[i] == d;
    var j :| 0 <= j < |ys| && ys[j] == d;
    assert (xs + ys)[i] == d == (xs + ys)[|xs| + j];
  }

  // ---------------------------------------------------------------------
  // Cost and payment

  function Abs(x: int): nat {
    if x < 0 then -x else x
  }

  /** The spoke reached from `a` after `k` steps one way round the ring. */
  function Ahead(a: int, k: int): int
  {
    Wrap(a + k)
  }

  /** The spoke reached from `a` after `k` steps the other way round. */
  function Behind(a: int, k: int): int
  {
    Wrap(a - k)
  }

  /** The fewer steps around the ring, in either direction, from spoke `a` to spoke `b`. */
  function SpokeDistance(a: int, b: int): (d: int)
    requires 0 <= a < Spokes && 0 <= b < Spokes
    ensures 0 <= d <= Spokes / 2
    ensures Ahead(a, d) == b || Behind(a, d) == b
    ensures forall k | 0 <= k < d :: Ahead(a, k) != b && Behind(a, k) != b
  {
    var diff := Abs(b - a);
    if diff <= Spokes - diff then diff else Spokes - diff
  }

  /** The energy price of a move: the ring distance plus the spoke distance
      when that exceeds one step, and 2 more for moving outward. */
  function MoveCost(from: Pos, to: Pos): (cost: int)
    requires InBounds(from) && InBounds(to)
    ensures cost >= 0
    ensures cost == 0 <==>
      to.ring <= from.ring && Abs(to.ring - from.ring) + SpokeDistance(from.spoke, to.spoke) <= 1
    ensures to.ring > from.ring ==> cost >= 2
    ensures cost <= Rings - 1 + Spokes / 2 + 2
  {
    var distance := Abs(to.ring - from.ring) + SpokeDistance(from.spoke, to.spoke);
    (if distance > 1 then distance else 0) + (if to.ring > from.ring then 2 else 0)
  }

  /** What each move class costs: standard steps are free, an outward step
      and an inward diagonal cost 2, an outward diagonal 4, a jump 2 and a
      jump to the opposite spoke at least 4. */
  lemma CostByClass(r: int, s: int, d: Pos)
    requires InBounds(Pos(r, s)) && InBounds(d)
    ensures d == Pos(r, Wrap(s - 1)) || d == Pos(r, Wrap(s + 1)) || d == Pos(r - 1, s) ==>
      MoveCost(Pos(r, s), d) == 0
    ensures d == Pos(r + 1, s) ==> MoveCost(Pos(r, s), d) == 2
    ensures d.ring == r - 1 && (d.spoke == Wrap(s - 1) || d.spoke == Wrap(s + 1)) ==> MoveCost(Pos(r, s), d) == 2
    ensures d.ring == r + 1 && (d.spoke == Wrap(s - 1) || d.spoke == Wrap(s + 1)) ==> MoveCost(Pos(r, s), d) == 4
    ensures d == Pos(r, Wrap(s - 2)) || d == Pos(r, Wrap(s + 2)) || d == Pos(r - 2, s) ==>
      MoveCost(Pos(r, s), d) == 2
    ensures d.spoke == Wrap(s + 4) ==> MoveCost(Pos(r, s), d) >= 4
  {
  }

  /** A piece with energy below 2 never pays for a move. */
  lemma LowEnergyMovesAreFree(g: Grid, r: int, s: int, pe: int, jumps: bool, nimber: bool, d: Pos)
    requires WellFormed(g) && InBounds(Pos(r, s)) && pe < 2
    requires d in EnergyMoves(g, r, s, pe, jumps, nimber)
    ensures MoveCost(Pos(r, s), d) == 0
  {
    LowEnergyMoves(g, r, s, pe, jumps, nimber);
    CostByClass(r, s, d);
  }

  /** How a move is paid for: the energy the piece lands with and the
      mover's reserve afterwards. */
  datatype Payment = Payment(landing: int, reserve: int)

  /** Paying `cost` from the piece's energy `pe`, then from `reserve`: the
      payment fails exactly when the two together fall short; otherwise the
      two together drop by exactly `cost`, the reserve is touched only when
      the piece alone falls short, and nothing goes negative. */
  function Pay(pe: int, reserve: int, cost: int): (p: Option<Payment>)
    ensures p.None? <==> pe < cost && reserve + pe < cost
    ensures p.Some? ==> p.value.landing + p.value.reserve == pe + reserve - cost
    ensures p.Some? ==> (p.value.reserve == reserve <==> pe >= cost)
    ensures p.Some? && pe >= 0 && reserve >= 0 ==> p.value.landing >= 0 && p.value.reserve >= 0
    ensures p.Some? && pe < cost ==> p.value.landing == 0
  {
    if pe < cost then
      if reserve + pe < cost then None else Some(Payment(0, reserve - (cost - pe)))
    else Some(Payment(pe - cost, reserve))
  }

  // ---------------------------------------------------------------------
  // Captures: every opponent piece is examined, ring by ring and, within a
  // ring, spoke by spoke.

  /** The energy of the mover's piece at (r, s), or 0. */
  function MoverEnergy(g: Grid, e: Grid, mover: int, r: int, s: int): (x: int)
    requires WellFormed(g) && WellFormed(e) && InBounds(Pos(r, s))
    ensures NonNegative(e) ==> x >= 0
  {
    if g[r][s] == mover then e[r][s] else 0
  }

  /** The mover's energy over the first `j` spoke shifts on ring `nr`,
      skipping the centre cell when `centre` holds. */
  function NeighbourRow(g: Grid, e: Grid, mover: int, nr: int, s: int, centre: bool, j: nat): (n: int)
    requires WellFormed(g) && WellFormed(e) && InBounds(Pos(nr, s)) && j <= |Shifts|
    ensures NonNegative(e) ==> n >= 0
  {
    if j == 0 then 0
    else
      NeighbourRow(g, e, mover, nr, s, centre, j - 1)
      + (if centre && Shifts[j - 1] == 0 then 0 else MoverEnergy(g, e, mover, nr, Wrap(s + Shifts[j - 1])))
  }

  /** The mover's energy around (r, s) over the first `i` ring shifts; rings
      off the board add nothing. */
  function NeighbourUpTo(g: Grid, e: Grid, mover: int, r: int, s: int, i: nat): (n: int)
    requires WellFormed(g) && WellFormed(e) && InBounds(Pos(r, s)) && i <= |Shifts|
    ensures NonNegative(e) ==> n >= 0
  {
    if i == 0 then 0
    else
      NeighbourUpTo(g, e, mover, r, s, i - 1)
      + (if 0 <= r + Shifts[i - 1] < Rings
         then NeighbourRow(g, e, mover, r + Shifts[i - 1], s, Shifts[i - 1] == 0, |Shifts|)
         else 0)
  }

  /** The mover's energy summed over the up to eight cells around (r, s),
      never negative while no energy is. */
  function NeighbourEnergy(g: Grid, e: Grid, mover: int, r: int, s: int): (n: int)
    requires WellFormed(g) && WellFormed(e) && InBounds(Pos(r, s))
    ensures NonNegative(e) ==> n >= 0
  {
    NeighbourUpTo(g, e, mover, r, s, |Shifts|)
  }

  lemma {:induction false} NeighbourRowIgnoresOthers(g: Grid, e1: Grid, e2: Grid, mover: int, nr: int, s: int, centre: bool, j: nat)
    requires WellFormed(g) && WellFormed(e1) && WellFormed(e2) && InBounds(Pos(nr, s)) && j <= |Shifts|
    requires forall r, t | 0 <= r < Rings && 0 <= t < Spokes && g[r][t] == mover :: e1[r][t] == e2[r][t]
    ensures NeighbourRow(g, e1, mover, nr, s, centre, j) == NeighbourRow(g, e2, mover, nr, s, centre, j)
  {
    if j > 0 {
      NeighbourRowIgnoresOthers(g, e1, e2, mover, nr, s, centre, j - 1);
    }
  }

  lemma {:induction false} NeighbourUpToIgnoresOthers(g: Grid, e1: Grid, e2: Grid, mover: int, r: int, s: int, i: nat)
    requires WellFormed(g) && WellFormed(e1) && WellFormed(e2) && InBounds(Pos(r, s)) && i <= |Shifts|
    requires forall r, t | 0 <= r < Rings && 0 <= t < Spokes && g[r][t] == mover :: e1[r][t] == e2[r][t]
    ensures NeighbourUpTo(g, e1, mover, r, s, i) == NeighbourUpTo(g, e2, mover, r, s, i)
  {
    if i > 0 {
      NeighbourUpToIgnoresOthers(g, e1, e2, mover, r, s, i - 1);
      if 0 <= r + Shifts[i - 1] < Rings {
        NeighbourRowIgnoresOthers(g, e1, e2, mover, r + Shifts[i - 1], s, Shifts[i - 1] == 0, |Shifts|);
      }
    }
  }

  /** The surrounding energy reads only the energies of the mover's own
      pieces: whatever an empty or opponent cell holds, stale or not, does
      not change it. */
  lemma StaleEnergyIgnored(g: Grid, e1: Grid, e2: Grid, mover: int, r: int, s: int)
    requires WellFormed(g) && WellFormed(e1) && WellFormed(e2) && InBounds(Pos(r, s))
    requires forall r, t | 0 <= r < Rings && 0 <= t < Spokes && g[r][t] == mover :: e1[r][t] == e2[r][t]
    ensures NeighbourEnergy(g, e1, mover, r, s) == NeighbourEnergy(g, e2, mover, r, s)
  {
    NeighbourUpToIgnoresOthers(g, e1, e2, mover, r, s, |Shifts|);
  }

  /** The energy rule: the mover's surrounding energy is at least twice the
      piece's own energy, and at least 4; for a piece of energy up to 2 the
      floor of 4 is what decides, above that twice its energy. */
  predicate EnergyCaptured(g: Grid, e: Grid, mover: int, r: int, s: int)
    requires WellFormed(g) && WellFormed(e) && InBounds(Pos(r, s))
    ensures e[r][s] <= 2 ==> (EnergyCaptured(g, e, mover, r, s) <==> NeighbourEnergy(g, e, mover, r, s) >= 4)
    ensures e[r][s] >= 2 ==>
      (EnergyCaptured(g, e, mover, r, s) <==> NeighbourEnergy(g, e, mover, r, s) >= 2 * e[r][s])
  {
    var around := NeighbourEnergy(g, e, mover, r, s);
    around >= e[r][s] * 2 && around >= 4
  }

  /** An opponent piece falls to the surround rule or to the energy rule. */
  predicate CapturedCell(g: Grid, e: Grid, mover: int, c: Pos)
    requires WellFormed(g) && WellFormed(e)
  {
    && InBounds(c) && At(g, c) == Opponent(mover)
    && (Surrounded(g, c.ring, c.spoke, mover) || EnergyCaptured(g, e, mover, c.ring, c.spoke))
  }

  function CaptureAt(g: Grid, e: Grid, mover: int, r: int, s: int): (cs: seq<Pos>)
    requires WellFormed(g) && WellFormed(e) && InBounds(Pos(r, s))
  {
    if CapturedCell(g, e, mover, Pos(r, s)) then [Pos(r, s)] else []
  }

  /** The captures on ring `r` among spokes 0..k-1. */
  function CapturesOnRing(g: Grid, e: Grid, mover: int, r: int, k: nat): seq<Pos>
    requires WellFormed(g) && WellFormed(e) && 0 <= r < Rings && k <= Spokes
  {
    if k == 0 then [] else CapturesOnRing(g, e, mover, r, k - 1) + CaptureAt(g, e, mover, r, k - 1)
  }

  /** The captures on rings 0..n-1, ring by ring: the order of the scan. */
  function CapturesUpTo(g: Grid, e: Grid, mover: int, n: nat): seq<Pos>
    requires WellFormed(g) && WellFormed(e) && n <= Rings
  {
    if n == 0 then [] else CapturesUpTo(g, e, mover, n - 1) + CapturesOnRing(g, e, mover, n - 1, Spokes)
  }

  /** The pieces `mover` captures on board `g` with energies `e`;
      CapturesExactly says which. */
  function Captures(g: Grid, e: Grid, mover: int): (cs: seq<Pos>)
    requires WellFormed(g) && WellFormed(e)
    ensures AllInBounds(cs)
  {
    CapturesUpToExactly(g, e, mover, Rings);
    CapturesUpTo(g, e, mover, Rings)
  }

  lemma {:induction false} CapturesOnRingExactly(g: Grid, e: Grid, mover: int, r: int, k: nat)
    requires WellFormed(g) && WellFormed(e) && 0 <= r < Rings && k <= Spokes
    ensures Distinct(CapturesOnRing(g, e, mover, r, k))
    ensures forall c :: c in CapturesOnRing(g, e, mover, r, k) <==>
      CapturedCell(g, e, mover, c) && c.ring == r && c.spoke < k
  {
    if k > 0 {
      CapturesOnRingExactly(g, e, mover, r, k - 1);
    }
  }

  lemma {:induction false} CapturesUpToExactly(g: Grid, e: Grid, mover: int, n: nat)
    requires WellFormed(g) && WellFormed(e) && n <= Rings
    ensures Distinct(CapturesUpTo(g, e, mover, n))
    ensures forall c :: c in CapturesUpTo(g, e, mover, n) <==> CapturedCell(g, e, mover, c) && c.ring < n
  {
    if n > 0 {
      CapturesUpToExactly(g, e, mover, n - 1);
      CapturesOnRingExactly(g, e, mover, n - 1, Spokes);
      DistinctAppend(CapturesUpTo(g, e, mover, n - 1), CapturesOnRing(g, e, mover, n - 1, Spokes));
    }
  }

  /** A piece is captured exactly when it belongs to the opponent and is
      surrounded, or outweighed by the mover's energy around it, on the board
      as it stands after the move; each capture is listed once, and a ring-0
      piece can only fall to the energy rule. */
  lemma CapturesExactly(g: Grid, e: Grid, mover: int)
    requires WellFormed(g) && WellFormed(e)
    ensures Distinct(Captures(g, e, mover))
    ensures forall c :: c in Captures(g, e, mover) <==> CapturedCell(g, e, mover, c)
    ensures forall c | c in Captures(g, e, mover) && c.ring == 0 :: EnergyCaptured(g, e, mover, 0, c.spoke)
  {
    CapturesUpToExactly(g, e, mover, Rings);
  }

  // ---------------------------------------------------------------------
  // Energy transfer

  /** What the mover's reserve gains from one captured piece of energy
      `energy`: half of it, rounded down, but at least 1. (Python's `//` and
      Dafny's `/` agree for a positive divisor.) */
  function Transfer(energy: int): (t: int)
    ensures t >= 1 && t >= energy / 2
    ensures t == 1 || t == energy / 2
  {
    if 1 >= energy / 2 then 1 else energy / 2
  }

  /** The reserve gained from the listed captures, in list order. */
  function TransferSum(e: Grid, cs: seq<Pos>): (t: int)
    requires WellFormed(e) && AllInBounds(cs)
    ensures t >= |cs|
  {
    if cs == [] then 0 else TransferSum(e, cs[..|cs| - 1]) + Transfer(At(e, cs[|cs| - 1]))
  }

  // ---------------------------------------------------------------------
  // Victory

  datatype VictoryReason = AllCaptured | InnerCircle | EnergyReached

  datatype Victory = Victory(winner: int, reason: VictoryReason)

  /** Results of `move`. */
  datatype MoveResult =
    | NotEnoughEnergy
    | Moved(energyCost: int, energyGained: int, special: Option<SpecialKind>,
            captured: seq<Pos>, victory: Option<Victory>)

  /** The two arrays `reset_board` installs: the starting layout, and
      energies all 0. */
  method StartingArrays() returns (cells: array2<int>, energies: array2<int>)
    ensures fresh(cells) && fresh(energies)
    ensures cells.Length0 == Rings && cells.Length1 == Spokes
    ensures energies.Length0 == Rings && energies.Length1 == Spokes
    ensures View(cells) == InitialGrid() && View(energies) == EmptyGrid()
    ensures Occupancy(View(cells)) && NonNegative(View(energies))
    ensures Pieces(View(cells), 1) == 4 && Pieces(View(cells), 2) == 4
    ensures InnerPieces(View(cells), 1) == 0 && InnerPieces(View(cells), 2) == 0
  {
    energies := ZeroBoard();
    cells := InitialBoard();
    InitialCounts();
  }

  /** The fields a move reads but never changes: the special points, the
      two victory thresholds and the three rule switches. */
  datatype Settings = Settings(specialPoints: seq<SpecialPoint>, innerCircleThreshold: int, energyThreshold: int,
                               allowJumps: bool, allowNimber: bool, energyCollection: bool)

  class EnhancedOrbitalCaptureGame {
    var board: array2<int>
    var pieceValues: array2<int>
    var currentPlayer: int
    var player1Pieces: int
    var player2Pieces: int
    var player1Energy: int
    var player2Energy: int
    var specialPoints: seq<SpecialPoint>
    var innerCircleThreshold: int
    var energyThreshold: int
    var allowJumps: bool
    var allowNimber: bool
    var energyCollection: bool
    var player1InnerPieces: int
    var player2InnerPieces: int

    /** The board as a value. */
    function Cells(): (g: Grid)
      reads this`board, board
      requires board.Length0 == Rings && board.Length1 == Spokes
      ensures WellFormed(g)
    {
      View(board)
    }

    /** The piece energies as a value. */
    function Energies(): (e: Grid)
      reads this`pieceValues, pieceValues
      requires pieceValues.Length0 == Rings && pieceValues.Length1 == Spokes
      ensures WellFormed(e)
    {
      View(pieceValues)
    }

    /** The engine's invariant: two separate 4x8 arrays, cells of 0/1/2,
        energies and reserves never negative, a player to move, piece and
        inner counters equal to what the board holds. Energies of empty
        cells are not constrained: a vacated cell keeps the energy of the
        piece that left it. */
    ghost predicate Valid()
      reads this, board, pieceValues
    {
      && Sized()
      && board != pieceValues
      && Occupancy(Cells()) && NonNegative(Energies())
      && IsPlayer(currentPlayer)
      && player1Pieces == Pieces(Cells(), 1) && player2Pieces == Pieces(Cells(), 2)
      && player1InnerPieces == InnerPieces(Cells(), 1) && player2InnerPieces == InnerPieces(Cells(), 2)
      && player1Energy >= 0 && player2Energy >= 0
    }

    /** Both arrays have the board's dimensions. */
    predicate Sized()
      reads this`board, this`pieceValues
    {
      && board.Length0 == Rings && board.Length1 == Spokes
      && pieceValues.Length0 == Rings && pieceValues.Length1 == Spokes
    }

    function Tuning(): Settings
      reads this
    {
      Settings(specialPoints, innerCircleThreshold, energyThreshold, allowJumps, allowNimber, energyCollection)
    }

    function PiecesOf(p: int): int
      reads this`player1Pieces, this`player2Pieces
    {
      if p == 1 then player1Pieces else player2Pieces
    }

    function InnerOf(p: int): int
      reads this`player1InnerPieces, this`player2InnerPieces
    {
      if p == 1 then player1InnerPieces else player2InnerPieces
    }

    function ReserveOf(p: int): int
      reads this`player1Energy, this`player2Energy
    {
      if p == 1 then player1Energy else player2Energy
    }

    constructor ()
      ensures Valid() && fresh(board) && fresh(pieceValues)
      ensures Cells() == InitialGrid() && Energies() == EmptyGrid()
      ensures currentPlayer == 1 && specialPoints == SpecialPoints
      ensures player1Pieces == 4 && player2Pieces == 4
      ensures player1Energy == 0 && player2Energy == 0
      ensures player1InnerPieces == 0 && player2InnerPieces == 0
      ensures Tuning() == Settings(SpecialPoints, 3, 12, true, true, true)
    {
      var cells := ZeroBoard();
      var energies := ZeroBoard();
      board, pieceValues := cells, energies;
      currentPlayer := 1;
      player1Pieces, player2Pieces := 4, 4;
      player1Energy, player2Energy := 0, 0;
      specialPoints := [];
      innerCircleThreshold := 3;
      energyThreshold := 12;
      allowJumps, allowNimber, energyCollection := true, true, true;
      player1InnerPieces, player2InnerPieces := 0, 0;
      new;
      ResetBoard();
    }

    /** The starting position: four pieces each on ring 3, alternating,
        all energies and reserves 0, the six special points, player 1 to
        move. The settings are kept. */
    method ResetBoard()
      modifies this`board, this`pieceValues, this`currentPlayer, this`specialPoints
      modifies this`player1Pieces, this`player2Pieces, this`player1Energy, this`player2Energy
      modifies this`player1InnerPieces, this`player2InnerPieces
      ensures Valid() && fresh(board) && fresh(pieceValues)
      ensures Cells() == InitialGrid() && Energies() == EmptyGrid()
      ensures currentPlayer == 1 && specialPoints == SpecialPoints
      ensures player1Pieces == 4 && player2Pieces == 4
      ensures player1Energy == 0 && player2Energy == 0
      ensures player1InnerPieces == 0 && player2InnerPieces == 0
    {
      player1Pieces, player2Pieces := 4, 4;
      player1Energy, player2Energy := 0, 0;
      player1InnerPieces, player2InnerPieces := 0, 0;
      specialPoints := SpecialPoints;
      currentPlayer := 1;
      var cells, energies := StartingArrays();
      board, pieceValues := cells, energies;
    }

    /** `board[ring][spoke] = v`. */
    method SetCell(ring: int, spoke: int, v: int)
      requires board.Length0 == Rings && board.Length1 == Spokes
      requires pieceValues.Length0 == Rings && pieceValues.Length1 == Spokes
      requires board != pieceValues && InBounds(Pos(ring, spoke))
      modifies board
      ensures Cells() == Set(old(Cells()), Pos(ring, spoke), v)
      ensures Energies() == old(Energies())
    {
      board[ring, spoke] := v;
      SameGrid(Cells(), Set(old(Cells()), Pos(ring, spoke), v));
    }

    /** `piece_values[ring][spoke] = v`. */
    method SetEnergy(ring: int, spoke: int, v: int)
      requires board.Length0 == Rings && board.Length1 == Spokes
      requires pieceValues.Length0 == Rings && pieceValues.Length1 == Spokes
      requires board != pieceValues && InBounds(Pos(ring, spoke))
      modifies pieceValues
      ensures Energies() == Set(old(Energies()), Pos(ring, spoke), v)
      ensures Cells() == old(Cells())
    {
      pieceValues[ring, spoke] := v;
      SameGrid(Energies(), Set(old(Energies()), Pos(ring, spoke), v));
    }

    // -------------------------------------------------------------------
    // get_valid_moves, block by block

    /** One step either way along the ring, then one step inward. */
    method StandardBlock(ring: int, spoke: int) returns (moves: seq<Pos>)
      requires Sized() && InBounds(Pos(ring, spoke))
      ensures moves == StandardMoves(Cells(), ring, spoke)
    {
      moves := [];
      for i := 0 to |RingOffsets|
        invariant moves == RingSteps(Cells(), ring, spoke, RingOffsets, i)
      {
        var nextSpoke := Wrap(spoke + RingOffsets[i]);
        if board[ring, nextSpoke] == Empty {
          moves := moves + [Pos(ring, nextSpoke)];
        }
      }
      if ring > 0 && board[ring - 1, spoke] == Empty {
        moves := moves + [Pos(ring - 1, spoke)];
      }
    }

    /** The diagonal block appended to `prior`: for each ring shift and
        each side, the cell is added when it is empty and not already
        listed. */
    method DiagonalBlock(ring: int, spoke: int, prior: seq<Pos>) returns (moves: seq<Pos>)
      requires Sized() && InBounds(Pos(ring, spoke))
      ensures moves == DiagonalScan(Cells(), prior, ring, spoke, |Shifts|)
    {
      moves := prior;
      for i := 0 to |Shifts|
        invariant moves == DiagonalScan(Cells(), prior, ring, spoke, i)
      {
        var newRing := ring + Shifts[i];
        if 0 <= newRing < Rings {
          moves := DiagonalSide(newRing, spoke, moves);
        }
      }
    }

    /** One ring shift of the diagonal block. */
    method DiagonalSide(newRing: int, spoke: int, listed: seq<Pos>) returns (moves: seq<Pos>)
      requires Sized() && 0 <= newRing < Rings && 0 <= spoke < Spokes
      ensures moves == SideScan(Cells(), listed, newRing, spoke, |RingOffsets|)
    {
      moves := listed;
      for j := 0 to |RingOffsets|
        invariant moves == SideScan(Cells(), listed, newRing, spoke, j)
      {
        var newSpoke := Wrap(spoke + RingOffsets[j]);
        if Pos(newRing, newSpoke) !in moves && board[newRing, newSpoke] == Empty {
          moves := moves + [Pos(newRing, newSpoke)];
        }
      }
    }

    /** Two spokes either way along the ring, then two rings inward. */
    method JumpBlock(ring: int, spoke: int) returns (moves: seq<Pos>)
      requires Sized() && InBounds(Pos(ring, spoke))
      ensures moves == JumpMoves(Cells(), ring, spoke)
    {
      ghost var g := Cells();
      moves := [];
      for i := 0 to |JumpOffsets|
        invariant moves == RingSteps(g, ring, spoke, JumpOffsets, i)
      {
        var newSpoke := Wrap(spoke + JumpOffsets[i]);
        assert g[ring][newSpoke] == board[ring, newSpoke];
        if board[ring, newSpoke] == Empty {
          moves := moves + [Pos(ring, newSpoke)];
        }
      }
      assert JumpMoves(g, ring, spoke) == moves + (if ring >= 2 then IfEmpty(g, Pos(ring - 2, spoke)) else []);
      if ring >= 2 {
        assert g[ring - 2][spoke] == board[ring - 2, spoke];
      }
      if ring >= 2 && board[ring - 2, spoke] == Empty {
        moves := moves + [Pos(ring - 2, spoke)];
      }
    }

    /** Every other empty cell of the ring, then the opposite spoke on every
        other ring; nothing is checked against what is already listed. */
    method NimberBlock(ring: int, spoke: int) returns (moves: seq<Pos>)
      requires Sized() && InBounds(Pos(ring, spoke))
      ensures moves == NimberMoves(Cells(), ring, spoke)
    {
      moves := [];
      for newSpoke := 0 to Spokes
        invariant moves == SameRingScan(Cells(), ring, spoke, newSpoke)
      {
        if newSpoke != spoke && board[ring, newSpoke] == Empty {
          moves := moves + [Pos(ring, newSpoke)];
        }
      }
      var oppositeSpoke := Wrap(spoke + 4);
      for newRing := 0 to Rings
        invariant moves == SameRingScan(Cells(), ring, spoke, Spokes) + OppositeScan(Cells(), ring, oppositeSpoke, newRing)
      {
        if newRing != ring && board[newRing, oppositeSpoke] == Empty {
          moves := moves + [Pos(newRing, oppositeSpoke)];
        }
      }
    }

    /** The destinations of the piece at (ring, spoke): none unless it
        belongs to the player to move, otherwise the classes its energy and
        the two flags unlock, in order. */
    method GetValidMoves(ring: int, spoke: int) returns (moves: seq<Pos>)
      requires Sized() && InBounds(Pos(ring, spoke))
      ensures moves == ValidMoves(Cells(), Energies(), ring, spoke, currentPlayer, allowJumps, allowNimber)
    {
      if board[ring, spoke] != currentPlayer {
        return [];
      }
      moves := PieceMoves(ring, spoke, pieceValues[ring, spoke]);
      OwnerMoves(Cells(), Energies(), ring, spoke, currentPlayer, allowJumps, allowNimber);
    }

    /** The blocks of `get_valid_moves` after the owner check, for a piece
        with energy `pieceEnergy`. */
    method PieceMoves(ring: int, spoke: int, pieceEnergy: int) returns (moves: seq<Pos>)
      requires Sized() && InBounds(Pos(ring, spoke))
      ensures moves == EnergyMoves(Cells(), ring, spoke, pieceEnergy, allowJumps, allowNimber)
    {
      ghost var g := Cells();
      ghost var base := StandardMoves(g, ring, spoke) + OutwardMoves(g, ring, spoke, pieceEnergy);
      moves := StandardBlock(ring, spoke);
      if ring < Rings - 1 && pieceEnergy >= 2 && board[ring + 1, spoke] == Empty {
        moves := moves + [Pos(ring + 1, spoke)];
      }
      assert moves == base;
      if pieceEnergy >= 3 {
        moves := DiagonalBlock(ring, spoke, moves);
      }
      var jumps: seq<Pos> := [];
      if allowJumps && pieceEnergy >= 4 {
        jumps := JumpBlock(ring, spoke);
      }
      var nimber: seq<Pos> := [];
      if allowNimber && pieceEnergy >= 5 {
        nimber := NimberBlock(ring, spoke);
      }
      moves := moves + jumps + nimber;
    }

    // -------------------------------------------------------------------
    // check_captures

    /** The energy of the player to move summed over the cells around
        (checkRing, checkSpoke), skipping the cell itself and rings off the
        board. */
    method SurroundingEnergy(checkRing: int, checkSpoke: int) returns (energy: int)
      requires Sized() && InBounds(Pos(checkRing, checkSpoke))
      ensures energy == NeighbourEnergy(Cells(), Energies(), currentPlayer, checkRing, checkSpoke)
    {
      ghost var g, e := Cells(), Energies();
      energy := 0;
      for i := 0 to |Shifts|
        invariant energy == NeighbourUpTo(g, e, currentPlayer, checkRing, checkSpoke, i)
      {
        var newRing := checkRing + Shifts[i];
        if 0 <= newRing < Rings {
          for j := 0 to |Shifts|
            invariant energy == NeighbourUpTo(g, e, currentPlayer, checkRing, checkSpoke, i) +
              NeighbourRow(g, e, currentPlayer, newRing, checkSpoke, Shifts[i] == 0, j)
          {
            if Shifts[i] == 0 && Shifts[j] == 0 {
              continue;
            }
            var newSpoke := Wrap(checkSpoke + Shifts[j]);
            if board[newRing, newSpoke] == currentPlayer {
              energy := energy + pieceValues[newRing, newSpoke];
            }
          }
        }
      }
    }

    /** The scan half of `check_captures`, ring by ring: each opponent
        piece is assessed once, in order. */
    method FindCaptures() returns (captured: seq<Pos>)
      requires Sized()
      ensures captured == Captures(Cells(), Energies(), currentPlayer)
    {
      captured := [];
      for checkRing := 0 to Rings
        invariant captured == CapturesUpTo(Cells(), Energies(), currentPlayer, checkRing)
      {
        CapturesUpToExactly(Cells(), Energies(), currentPlayer, checkRing);
        captured := ScanRing(checkRing, captured);
      }
    }

    /** The inner loop of the scan: ring `checkRing`, spoke by spoke. */
    method ScanRing(checkRing: int, listed: seq<Pos>) returns (captured: seq<Pos>)
      requires Sized() && 0 <= checkRing < Rings
      requires forall c | c in listed :: c.ring < checkRing
      ensures captured == listed + CapturesOnRing(Cells(), Energies(), currentPlayer, checkRing, Spokes)
    {
      ghost var g, e := Cells(), Energies();
      captured := listed;
      for checkSpoke := 0 to Spokes
        invariant captured == listed + CapturesOnRing(g, e, currentPlayer, checkRing, checkSpoke)
      {
        CapturesOnRingExactly(g, e, currentPlayer, checkRing, checkSpoke);
        captured := AssessPiece(checkRing, checkSpoke, captured);
      }
    }

    /** The body of the scan for one cell: an opponent piece is listed when
        surrounded, or else when outweighed by the energy around it. The
        membership test before the second append never fails, because no
        cell is visited twice. */
    method AssessPiece(checkRing: int, checkSpoke: int, listed: seq<Pos>) returns (captured: seq<Pos>)
      requires Sized() && InBounds(Pos(checkRing, checkSpoke))
      requires Pos(checkRing, checkSpoke) !in listed
      ensures captured == listed + CaptureAt(Cells(), Energies(), currentPlayer, checkRing, checkSpoke)
    {
      captured := listed;
      var opponent := Opponent(currentPlayer);
      if board[checkRing, checkSpoke] != opponent {
        return;
      }
      var leftSpoke := Wrap(checkSpoke - 1);
      var rightSpoke := Wrap(checkSpoke + 1);
      var adjacentSameRing := board[checkRing, leftSpoke] == currentPlayer && board[checkRing, rightSpoke] == currentPlayer;
      var innerPosition := false;
      if checkRing > 0 {
        innerPosition := board[checkRing - 1, checkSpoke] == currentPlayer;
      }
      if adjacentSameRing && innerPosition {
        captured := captured + [Pos(checkRing, checkSpoke)];
        return;
      }
      var surroundingEnergy := SurroundingEnergy(checkRing, checkSpoke);
      var opponentEnergy := pieceValues[checkRing, checkSpoke];
      if surroundingEnergy >= opponentEnergy * 2 && surroundingEnergy >= 4 {
        if Pos(checkRing, checkSpoke) !in captured {
          captured := captured + [Pos(checkRing, checkSpoke)];
        }
      }
    }

    // -------------------------------------------------------------------
    // Per-player counters, updated the way the engine writes it: the field
    // of player 1 or of player 2, chosen by an `if`.

    /** Adds `amount` to the reserve of `p`. */
    method CreditReserve(p: int, amount: int)
      requires IsPlayer(p)
      modifies this`player1Energy, this`player2Energy
      ensures ReserveOf(p) == old(ReserveOf(p)) + amount
      ensures ReserveOf(Opponent(p)) == old(ReserveOf(Opponent(p)))
    {
      if p == 1 {
        player1Energy := player1Energy + amount;
      } else {
        player2Energy := player2Energy + amount;
      }
    }

    /** Adds `delta` to the inner-circle counter of `p`. */
    method AdjustInner(p: int, delta: int)
      requires IsPlayer(p)
      modifies this`player1InnerPieces, this`player2InnerPieces
      ensures InnerOf(p) == old(InnerOf(p)) + delta
      ensures InnerOf(Opponent(p)) == old(InnerOf(Opponent(p)))
    {
      if p == 1 {
        player1InnerPieces := player1InnerPieces + delta;
      } else {
        player2InnerPieces := player2InnerPieces + delta;
      }
    }

    /** Takes one piece off the piece counter of `p`. */
    method DropPiece(p: int)
      requires IsPlayer(p)
      modifies this`player1Pieces, this`player2Pieces
      ensures PiecesOf(p) == old(PiecesOf(p)) - 1
      ensures PiecesOf(Opponent(p)) == old(PiecesOf(Opponent(p)))
    {
      if p == 1 {
        player1Pieces := player1Pieces - 1;
      } else {
        player2Pieces := player2Pieces - 1;
      }
    }

    /** One step of the removal loop of `check_captures`: the opponent loses
        the piece (and, on ring 0, an inner piece), the mover's reserve gains
        the transfer, and the cell's owner and energy become 0. */
    method RemovePiece(c: Pos)
      requires Valid() && InBounds(c) && At(Cells(), c) == Opponent(currentPlayer)
      modifies this`player1Pieces, this`player2Pieces, this`player1InnerPieces, this`player2InnerPieces
      modifies this`player1Energy, this`player2Energy, board, pieceValues
      ensures Valid()
      ensures Cells() == Set(old(Cells()), c, Empty)
      ensures Energies() == Set(old(Energies()), c, 0)
      ensures ReserveOf(currentPlayer) == old(ReserveOf(currentPlayer)) + Transfer(old(At(Energies(), c)))
      ensures ReserveOf(Opponent(currentPlayer)) == old(ReserveOf(Opponent(currentPlayer)))
    {
      ghost var g := Cells();
      var opponent := Opponent(currentPlayer);
      if c.ring == 0 {
        AdjustInner(opponent, -1);
      }
      var capturedEnergy := pieceValues[c.ring, c.spoke];
      CreditReserve(currentPlayer, Transfer(capturedEnergy));
      SetCell(c.ring, c.spoke, Empty);
      SetEnergy(c.ring, c.spoke, 0);
      DropPiece(opponent);
      SetCounts(g, c, Empty, 1);
      SetCounts(g, c, Empty, 2);
    }

    /** The removal half of `check_captures`, in list order. */
    method RemoveCaptured(captured: seq<Pos>)
      requires Valid() && AllInBounds(captured) && Distinct(captured)
      requires forall c | c in captured :: At(Cells(), c) == Opponent(currentPlayer)
      modifies this`player1Pieces, this`player2Pieces, this`player1InnerPieces, this`player2InnerPieces
      modifies this`player1Energy, this`player2Energy, board, pieceValues
      ensures Valid()
      ensures Cells() == ClearAll(old(Cells()), captured)
      ensures Energies() == ClearAll(old(Energies()), captured)
      ensures ReserveOf(currentPlayer) == old(ReserveOf(currentPlayer)) + TransferSum(old(Energies()), captured)
      ensures ReserveOf(Opponent(currentPlayer)) == old(ReserveOf(Opponent(currentPlayer)))
    {
      ghost var g, e := Cells(), Energies();
      for i := 0 to |captured|
        invariant Valid()
        invariant Cells() == ClearAll(g, captured[..i])
        invariant Energies() == ClearAll(e, captured[..i])
        invariant ReserveOf(currentPlayer) == old(ReserveOf(currentPlayer)) + TransferSum(e, captured[..i])
        invariant ReserveOf(Opponent(currentPlayer)) == old(ReserveOf(Opponent(currentPlayer)))
      {
        var c := captured[i];
        assert captured[..i + 1] == captured[..i] + [c];
        assert captured[..i + 1][..i] == captured[..i];
        assert c !in captured[..i];
        ClearAllAt(g, captured[..i], c);
        ClearAllAt(e, captured[..i], c);
        RemovePiece(c);
      }
      assert captured[..|captured|] == captured;
    }

    /** Finds and removes every opponent piece the player to move captures,
        judging all of them on the board before any is removed. The landing
        cell is passed but not used: the whole board is scanned. */
    method CheckCaptures(ring: int, spoke: int) returns (captured: seq<Pos>)
      requires Valid()
      modifies this`player1Pieces, this`player2Pieces, this`player1InnerPieces, this`player2InnerPieces
      modifies this`player1Energy, this`player2Energy, board, pieceValues
      ensures Valid()
      ensures captured == Captures(old(Cells()), old(Energies()), currentPlayer)
      ensures Cells() == ClearAll(old(Cells()), captured)
      ensures Energies() == ClearAll(old(Energies()), captured)
      ensures ReserveOf(currentPlayer) == old(ReserveOf(currentPlayer)) + TransferSum(old(Energies()), captured)
      ensures ReserveOf(Opponent(currentPlayer)) == old(ReserveOf(Opponent(currentPlayer)))
      ensures PiecesOf(currentPlayer) == old(PiecesOf(currentPlayer))
      ensures PiecesOf(Opponent(currentPlayer)) == old(PiecesOf(Opponent(currentPlayer))) - |captured|
    {
      captured := FindCaptures();
      ghost var g := Cells();
      CapturesExactly(g, Energies(), currentPlayer);
      RemoveCaptured(captured);
      ClearAllCounts(g, captured, Opponent(currentPlayer), 1);
      ClearAllCounts(g, captured, Opponent(currentPlayer), 2);
    }

    // -------------------------------------------------------------------
    // Energy gains

    /** The special point under (ring, spoke), found by a scan that stops at
        the first match, and its effect: power adds 2 to the piece, jump 2
        to the reserve, shield 1 to each. */
    method HandleSpecialPoint(ring: int, spoke: int) returns (special: Option<SpecialKind>)
      requires Valid() && InBounds(Pos(ring, spoke))
      modifies this`player1Energy, this`player2Energy, pieceValues
      ensures Valid()
      ensures special == SpecialAt(specialPoints, ring, spoke)
      ensures Cells() == old(Cells())
      ensures Energies() == Set(old(Energies()), Pos(ring, spoke), old(Energies())[ring][spoke] + PieceBonus(special))
      ensures ReserveOf(currentPlayer) == old(ReserveOf(currentPlayer)) + ReserveBonus(special)
      ensures ReserveOf(Opponent(currentPlayer)) == old(ReserveOf(Opponent(currentPlayer)))
    {
      special := FindSpecialPoint(ring, spoke);
      var pieceEnergy := pieceValues[ring, spoke];
      if special.None? {
        SetSame(Energies(), Pos(ring, spoke));
        return;
      }
      match special.value
      case Power =>
        SetEnergy(ring, spoke, pieceEnergy + 2);
      case Jump =>
        CreditReserve(currentPlayer, 2);
        SetSame(Energies(), Pos(ring, spoke));
      case Shield =>
        SetEnergy(ring, spoke, pieceEnergy + 1);
        CreditReserve(currentPlayer, 1);
    }

    /** The lookup loop of `handle_special_point`: the first listed point
        at (ring, spoke). */
    method FindSpecialPoint(ring: int, spoke: int) returns (special: Option<SpecialKind>)
      ensures special == SpecialAt(specialPoints, ring, spoke)
    {
      special := None;
      for i := 0 to |specialPoints|
        invariant special.None?
        invariant SpecialAt(specialPoints[i..], ring, spoke) == SpecialAt(specialPoints, ring, spoke)
      {
        if specialPoints[i].ring == ring && specialPoints[i].spoke == spoke {
          special := Some(specialPoints[i].kind);
          break;
        }
        assert specialPoints[i..][1..] == specialPoints[i + 1..];
      }
    }

    /** Energy collected on landing: 3, 2, 1, 0 by ring when collection is
        on, added to the piece. */
    method ApplyEnergyFromPosition(ring: int, spoke: int) returns (energyGained: int)
      requires Valid() && InBounds(Pos(ring, spoke))
      modifies pieceValues
      ensures Valid()
      ensures energyGained == RingGain(energyCollection, ring)
      ensures Energies() == Set(old(Energies()), Pos(ring, spoke), old(Energies())[ring][spoke] + energyGained)
    {
      if !energyCollection {
        SetSame(Energies(), Pos(ring, spoke));
        return 0;
      }
      energyGained := RingEnergy[ring];
      if energyGained > 0 {
        SetEnergy(ring, spoke, pieceValues[ring, spoke] + energyGained);
      } else {
        SetSame(Energies(), Pos(ring, spoke));
      }
    }

    // -------------------------------------------------------------------
    // move

    /** The cost computation and payment of `move`: the cost is charged to
        the piece, or, when the piece falls short, the shortfall to the
        reserve and the piece lands with 0. `None` is the error result, with
        nothing changed. */
    method PayForMove(fromRing: int, fromSpoke: int, toRing: int, toSpoke: int) returns (energyCost: int, energyAfterMove: Option<int>)
      requires Valid() && InBounds(Pos(fromRing, fromSpoke)) && InBounds(Pos(toRing, toSpoke))
      modifies this`player1Energy, this`player2Energy
      ensures Valid()
      ensures energyCost == MoveCost(Pos(fromRing, fromSpoke), Pos(toRing, toSpoke))
      ensures var paid := Pay(Energies()[fromRing][fromSpoke], old(ReserveOf(currentPlayer)), energyCost);
        && energyAfterMove.None? == paid.None?
        && (energyAfterMove.Some? ==> energyAfterMove.value == paid.value.landing && ReserveOf(currentPlayer) == paid.value.reserve)
        && (energyAfterMove.None? ==> ReserveOf(currentPlayer) == old(ReserveOf(currentPlayer)))
      ensures ReserveOf(Opponent(currentPlayer)) == old(ReserveOf(Opponent(currentPlayer)))
    {
      energyCost := 0;
      var pieceEnergy := pieceValues[fromRing, fromSpoke];
      var ringDistance := Abs(toRing - fromRing);
      var spokeDistance := SpokeDistance(fromSpoke, toSpoke);
      var totalDistance := ringDistance + spokeDistance;
      if totalDistance > 1 {
        energyCost := totalDistance;
      }
      if toRing > fromRing {
        energyCost := energyCost + 2;
      }
      if pieceEnergy < energyCost {
        var reserveEnergy := if currentPlayer == 1 then player1Energy else player2Energy;
        if reserveEnergy + pieceEnergy < energyCost {
          return energyCost, None;
        }
        var reserveNeeded := energyCost - pieceEnergy;
        CreditReserve(currentPlayer, -reserveNeeded);
        energyAfterMove := Some(0);
      } else {
        energyAfterMove := Some(pieceEnergy - energyCost);
      }
    }

    /** The inner-circle bookkeeping of `move`. */
    method ShiftInner(fromRing: int, toRing: int)
      requires IsPlayer(currentPlayer)
      modifies this`player1InnerPieces, this`player2InnerPieces
      ensures InnerOf(currentPlayer) ==
        old(InnerOf(currentPlayer)) + (if toRing == 0 then 1 else 0) - (if fromRing == 0 then 1 else 0)
      ensures InnerOf(Opponent(currentPlayer)) == old(InnerOf(Opponent(currentPlayer)))
    {
      if toRing == 0 {
        AdjustInner(currentPlayer, 1);
      }
      if fromRing == 0 {
        AdjustInner(currentPlayer, -1);
      }
    }

    /** The piece leaves its cell and lands with `energyAfterMove`; the
        origin keeps its old energy. */
    method LandPiece(fromRing: int, fromSpoke: int, toRing: int, toSpoke: int, energyAfterMove: int)
      requires Valid() && InBounds(Pos(fromRing, fromSpoke)) && InBounds(Pos(toRing, toSpoke))
      requires Cells()[fromRing][fromSpoke] == currentPlayer && Cells()[toRing][toSpoke] == Empty
      requires energyAfterMove >= 0
      modifies this`player1InnerPieces, this`player2InnerPieces, board, pieceValues
      ensures Valid()
      ensures Cells() == Relocate(old(Cells()), Pos(fromRing, fromSpoke), Pos(toRing, toSpoke), currentPlayer)
      ensures Energies() == Set(old(Energies()), Pos(toRing, toSpoke), energyAfterMove)
      ensures InnerOf(currentPlayer) ==
        old(InnerOf(currentPlayer)) + (if toRing == 0 then 1 else 0) - (if fromRing == 0 then 1 else 0)
      ensures InnerOf(Opponent(currentPlayer)) == old(InnerOf(Opponent(currentPlayer)))
    {
      ghost var g := Cells();
      ShiftInner(fromRing, toRing);
      SetCell(fromRing, fromSpoke, Empty);
      SetCell(toRing, toSpoke, currentPlayer);
      SetEnergy(toRing, toSpoke, energyAfterMove);
      RelocateCounts(g, Pos(fromRing, fromSpoke), Pos(toRing, toSpoke), currentPlayer, 1);
      RelocateCounts(g, Pos(fromRing, fromSpoke), Pos(toRing, toSpoke), currentPlayer, 2);
    }

    /** The three victory tiers in priority order, player 1 first within
        each: a player left without pieces loses, then an inner count at the
        threshold wins, then a reserve at the energy threshold wins. */
    function CheckVictory(): (v: Option<Victory>)
      reads this`player1Pieces, this`player2Pieces, this`player1InnerPieces, this`player2InnerPieces
      reads this`player1Energy, this`player2Energy, this`innerCircleThreshold, this`energyThreshold
      ensures v.Some? ==> IsPlayer(v.value.winner)
      ensures v == Some(Victory(2, AllCaptured)) <==> player1Pieces == 0
      ensures v == Some(Victory(1, AllCaptured)) <==> player1Pieces != 0 && player2Pieces == 0
      ensures v.Some? && v.value.reason != AllCaptured ==> player1Pieces != 0 && player2Pieces != 0
      ensures v.Some? && v.value.reason == InnerCircle ==> InnerOf(v.value.winner) >= innerCircleThreshold
      ensures v == Some(Victory(2, InnerCircle)) ==> player1InnerPieces < innerCircleThreshold
      ensures v.Some? && v.value.reason == EnergyReached ==>
        && ReserveOf(v.value.winner) >= energyThreshold
        && player1InnerPieces < innerCircleThreshold && player2InnerPieces < innerCircleThreshold
      ensures v == Some(Victory(2, EnergyReached)) ==> player1Energy < energyThreshold
      ensures v.None? <==>
        && player1Pieces != 0 && player2Pieces != 0
        && player1InnerPieces < innerCircleThreshold && player2InnerPieces < innerCircleThreshold
        && player1Energy < energyThreshold && player2Energy < energyThreshold
    {
      if player1Pieces == 0 then Some(Victory(2, AllCaptured))
      else if player2Pieces == 0 then Some(Victory(1, AllCaptured))
      else if player1InnerPieces >= innerCircleThreshold then Some(Victory(1, InnerCircle))
      else if player2InnerPieces >= innerCircleThreshold then Some(Victory(2, InnerCircle))
      else if player1Energy >= energyThreshold then Some(Victory(1, EnergyReached))
      else if player2Energy >= energyThreshold then Some(Victory(2, EnergyReached))
      else None
    }

    /** The middle of `move`: the piece lands with `energyAfterMove`, then
        collects the energy of its ring, then the effect of a special point
        under it. */
    method Arrive(fromRing: int, fromSpoke: int, toRing: int, toSpoke: int, energyAfterMove: int)
      returns (energyGained: int, special: Option<SpecialKind>)
      requires Valid() && InBounds(Pos(fromRing, fromSpoke)) && InBounds(Pos(toRing, toSpoke))
      requires Cells()[fromRing][fromSpoke] == currentPlayer && Cells()[toRing][toSpoke] == Empty
      requires energyAfterMove >= 0
      modifies this`player1InnerPieces, this`player2InnerPieces, this`player1Energy, this`player2Energy
      modifies board, pieceValues
      ensures Valid()
      ensures energyGained == RingGain(energyCollection, toRing)
      ensures special == SpecialAt(specialPoints, toRing, toSpoke)
      ensures Cells() == Relocate(old(Cells()), Pos(fromRing, fromSpoke), Pos(toRing, toSpoke), currentPlayer)
      ensures Energies() == Set(old(Energies()), Pos(toRing, toSpoke), LandingEnergy(energyAfterMove, energyGained, special))
      ensures ReserveOf(currentPlayer) == old(ReserveOf(currentPlayer)) + ReserveBonus(special)
      ensures ReserveOf(Opponent(currentPlayer)) == old(ReserveOf(Opponent(currentPlayer)))
    {
      var to := Pos(toRing, toSpoke);
      ghost var e0 := Energies();
      LandPiece(fromRing, fromSpoke, toRing, toSpoke, energyAfterMove);
      energyGained := ApplyEnergyFromPosition(toRing, toSpoke);
      SetTwice(e0, to, energyAfterMove, energyAfterMove + energyGained);
      special := HandleSpecialPoint(toRing, toSpoke);
      SetTwice(e0, to, energyAfterMove + energyGained, LandingEnergy(energyAfterMove, energyGained, special));
    }

    /** The turn passes to the other player; the board is untouched. */
    method SwitchPlayer()
      requires Valid()
      modifies this`currentPlayer
      ensures Valid()
      ensures currentPlayer == Opponent(old(currentPlayer))
      ensures Cells() == old(Cells()) && Energies() == old(Energies())
    {
      currentPlayer := Opponent(currentPlayer);
    }

    /** The paid-for part of `move`: the piece arrives, then every capture
        the player to move makes is judged on the board after landing and
        removed. */
    method Play(fromRing: int, fromSpoke: int, toRing: int, toSpoke: int, energyAfterMove: int)
      returns (energyGained: int, special: Option<SpecialKind>, captured: seq<Pos>)
      requires Valid() && InBounds(Pos(fromRing, fromSpoke)) && InBounds(Pos(toRing, toSpoke))
      requires Cells()[fromRing][fromSpoke] == currentPlayer && Cells()[toRing][toSpoke] == Empty
      requires energyAfterMove >= 0
      modifies this`player1Pieces, this`player2Pieces, this`player1InnerPieces, this`player2InnerPieces
      modifies this`player1Energy, this`player2Energy, board, pieceValues
      ensures Valid()
      ensures energyGained == RingGain(energyCollection, toRing)
      ensures special == SpecialAt(specialPoints, toRing, toSpoke)
      ensures
        var landed := Relocate(old(Cells()), Pos(fromRing, fromSpoke), Pos(toRing, toSpoke), currentPlayer);
        var charged := Set(old(Energies()), Pos(toRing, toSpoke), LandingEnergy(energyAfterMove, energyGained, special));
        && captured == Captures(landed, charged, currentPlayer)
        && Cells() == ClearAll(landed, captured)
        && Energies() == ClearAll(charged, captured)
        && ReserveOf(currentPlayer) == old(ReserveOf(currentPlayer)) + ReserveBonus(special) + TransferSum(charged, captured)
      ensures ReserveOf(Opponent(currentPlayer)) == old(ReserveOf(Opponent(currentPlayer)))
      ensures PiecesOf(currentPlayer) == old(PiecesOf(currentPlayer))
      ensures PiecesOf(Opponent(currentPlayer)) == old(PiecesOf(Opponent(currentPlayer))) - |captured|
    {
      energyGained, special := Arrive(fromRing, fromSpoke, toRing, toSpoke, energyAfterMove);
      captured := CheckCaptures(toRing, toSpoke);
    }

    /** `move` up to the victory check: the move is paid for and, when it
        can be, played; the victory is left unread and the player to move
        unchanged. */
    method Settle(fromRing: int, fromSpoke: int, toRing: int, toSpoke: int) returns (result: MoveResult)
      requires Valid() && InBounds(Pos(fromRing, fromSpoke))
      requires InBounds(Pos(toRing, toSpoke))
      requires Cells()[fromRing][fromSpoke] == currentPlayer && Cells()[toRing][toSpoke] == Empty
      modifies this`player1Pieces, this`player2Pieces, this`player1InnerPieces, this`player2InnerPieces
      modifies this`player1Energy, this`player2Energy, board, pieceValues
      ensures Valid()
      ensures result.NotEnoughEnergy? <==>
        Pay(old(Energies())[fromRing][fromSpoke], old(ReserveOf(currentPlayer)), MoveCost(Pos(fromRing, fromSpoke), Pos(toRing, toSpoke))).None?
      ensures result.NotEnoughEnergy? ==>
        && Cells() == old(Cells()) && Energies() == old(Energies())
        && player1Energy == old(player1Energy) && player2Energy == old(player2Energy)
      ensures result.Moved? ==> result.victory.None?
      ensures result.Moved? ==>
        var from, to := Pos(fromRing, fromSpoke), Pos(toRing, toSpoke);
        var mover := currentPlayer;
        var paid := Pay(old(Energies())[fromRing][fromSpoke], old(ReserveOf(mover)), MoveCost(from, to)).value;
        var landed := Relocate(old(Cells()), from, to, mover);
        var charged := Set(old(Energies()), to, LandingEnergy(paid.landing, result.energyGained, result.special));
        && result.energyCost == MoveCost(from, to)
        && result.energyGained == RingGain(energyCollection, toRing)
        && result.special == SpecialAt(specialPoints, toRing, toSpoke)
        && result.captured == Captures(landed, charged, mover)
        && Cells() == ClearAll(landed, result.captured)
        && Energies() == ClearAll(charged, result.captured)
        && ReserveOf(mover) == paid.reserve + ReserveBonus(result.special) + TransferSum(charged, result.captured)
        && ReserveOf(Opponent(mover)) == old(ReserveOf(Opponent(mover)))
        && PiecesOf(mover) == old(PiecesOf(mover))
        && PiecesOf(Opponent(mover)) == old(PiecesOf(Opponent(mover))) - |result.captured|
    {
      ghost var e0 := Energies();
      ghost var reserve0 := ReserveOf(currentPlayer);
      var energyCost, energyAfterMove := PayForMove(fromRing, fromSpoke, toRing, toSpoke);
      if energyAfterMove.None? {
        return NotEnoughEnergy;
      }
      ghost var paid := Pay(e0[fromRing][fromSpoke], reserve0, MoveCost(Pos(fromRing, fromSpoke), Pos(toRing, toSpoke))).value;
      assert energyAfterMove.value == paid.landing && ReserveOf(currentPlayer) == paid.reserve;
      var gainedEnergy, specialPoint, captured := Play(fromRing, fromSpoke, toRing, toSpoke, energyAfterMove.value);
      result := Moved(energyCost, gainedEnergy, specialPoint, captured, None);
    }

    /** One turn. The caller only offers destinations from GetValidMoves, so
        legality is a precondition. If the piece and the reserve together
        cannot pay, nothing changes. Otherwise the piece moves and is
        charged, captures are judged on the board after landing, victory is
        read after the captures, and the player switches even when someone
        has won. */
    method Move(fromRing: int, fromSpoke: int, toRing: int, toSpoke: int) returns (result: MoveResult)
      requires Valid() && InBounds(Pos(fromRing, fromSpoke))
      requires InBounds(Pos(toRing, toSpoke))
      requires Cells()[fromRing][fromSpoke] == currentPlayer && Cells()[toRing][toSpoke] == Empty
      modifies this`currentPlayer, this`player1Pieces, this`player2Pieces, this`player1InnerPieces, this`player2InnerPieces
      modifies this`player1Energy, this`player2Energy, board, pieceValues
      ensures Valid()
      ensures result.NotEnoughEnergy? <==>
        Pay(old(Energies())[fromRing][fromSpoke], old(ReserveOf(currentPlayer)), MoveCost(Pos(fromRing, fromSpoke), Pos(toRing, toSpoke))).None?
      ensures result.NotEnoughEnergy? ==>
        && Cells() == old(Cells()) && Energies() == old(Energies()) && currentPlayer == old(currentPlayer)
        && player1Energy == old(player1Energy) && player2Energy == old(player2Energy)
      ensures result.Moved? ==> currentPlayer == Opponent(old(currentPlayer))
      ensures result.Moved? ==>
        var from, to := Pos(fromRing, fromSpoke), Pos(toRing, toSpoke);
        var mover := old(currentPlayer);
        var paid := Pay(old(Energies())[fromRing][fromSpoke], old(ReserveOf(mover)), MoveCost(from, to)).value;
        var landed := Relocate(old(Cells()), from, to, mover);
        var charged := Set(old(Energies()), to, LandingEnergy(paid.landing, result.energyGained, result.special));
        && result.energyCost == MoveCost(from, to)
        && result.energyGained == RingGain(energyCollection, toRing)
        && result.special == SpecialAt(specialPoints, toRing, toSpoke)
        && result.captured == Captures(landed, charged, mover)
        && Cells() == ClearAll(landed, result.captured)
        && Energies() == ClearAll(charged, result.captured)
        && ReserveOf(mover) == paid.reserve + ReserveBonus(result.special) + TransferSum(charged, result.captured)
        && ReserveOf(Opponent(mover)) == old(ReserveOf(Opponent(mover)))
        && PiecesOf(mover) == old(PiecesOf(mover))
        && PiecesOf(Opponent(mover)) == old(PiecesOf(Opponent(mover))) - |result.captured|
        && result.victory == CheckVictory()
    {
      result := Settle(fromRing, fromSpoke, toRing, toSpoke);
      if result.NotEnoughEnergy? {
        return;
      }
      var victory := CheckVictory();
      SwitchPlayer();
      result := result.(victory := victory);
    }
  }
}
