/** The 4-ring x 8-spoke board shared by both engines, as a value.
    Ring 0 is the innermost ring and ring 3 the outermost; spokes are cyclic
    modulo 8. A cell holds 0 (empty), 1 or 2 (the owning player). The energy
    grid of the enhanced engine has the same shape and reuses these helpers. */
module Board {
  const Rings := 4
  const Spokes := 8
  const Empty := 0

  datatype Pos = Pos(ring: int, spoke: int)

  datatype Option<T> = None | Some(value: T)

  /** Rows are rings, columns are spokes. */
  type Grid = seq<seq<int>>

  predicate WellFormed(g: Grid) {
    |g| == Rings && forall r | 0 <= r < Rings :: |g[r]| == Spokes
  }

  predicate InBounds(d: Pos) {
    0 <= d.ring < Rings && 0 <= d.spoke < Spokes
  }

  predicate IsPlayer(p: int) {
    p == 1 || p == 2
  }

  /** Every cell holds 0, 1 or 2. */
  predicate Occupancy(g: Grid)
    requires WellFormed(g)
  {
    forall r, s | 0 <= r < Rings && 0 <= s < Spokes :: 0 <= g[r][s] <= 2
  }

  function Opponent(p: int): (q: int)
    ensures IsPlayer(q)
    ensures IsPlayer(p) ==> q != p
  {
    if p == 1 then 2 else 1
  }

  /** The shared cyclic-adjacency helper: a spoke offset taken modulo 8
      (Python's `%` and Dafny's agree for a positive modulus). */
  function Wrap(s: int): (w: int)
    ensures 0 <= w < Spokes
    ensures 0 <= s < Spokes ==> w == s
    ensures -Spokes <= s < 0 ==> w == s + Spokes
    ensures Spokes <= s < 2 * Spokes ==> w == s - Spokes
  {
    s % Spokes
  }

  function At(g: Grid, d: Pos): int
    requires WellFormed(g) && InBounds(d)
  {
    g[d.ring][d.spoke]
  }

  /** The grid with one cell replaced. */
  function Set(g: Grid, d: Pos, v: int): (h: Grid)
    requires WellFormed(g) && InBounds(d)
    ensures WellFormed(h)
    ensures h[d.ring][d.spoke] == v
    ensures forall r, s | 0 <= r < Rings && 0 <= s < Spokes && (r != d.ring || s != d.spoke) :: h[r][s] == g[r][s]
    ensures forall r | 0 <= r < Rings && r != d.ring :: h[r] == g[r]
  {
    g[d.ring := g[d.ring][d.spoke := v]]
  }

  /** A second write to a cell overrides the first. */
  lemma SetTwice(g: Grid, d: Pos, a: int, b: int)
    requires WellFormed(g) && InBounds(d)
    ensures Set(Set(g, d, a), d, b) == Set(g, d, b)
  {
    SameGrid(Set(Set(g, d, a), d, b), Set(g, d, b));
  }

  /** Writing back what a cell holds changes nothing. */
  lemma SetSame(g: Grid, d: Pos)
    requires WellFormed(g) && InBounds(d)
    ensures Set(g, d, At(g, d)) == g
  {
    SameGrid(Set(g, d, At(g, d)), g);
  }

  /** A piece of player `p` leaves `from` and lands on `to`. */
  function Relocate(g: Grid, from: Pos, to: Pos, p: int): (h: Grid)
    requires WellFormed(g) && InBounds(from) && InBounds(to)
    ensures WellFormed(h)
    ensures h[to.ring][to.spoke] == p
    ensures from != to ==> h[from.ring][from.spoke] == Empty
  {
    Set(Set(g, from, Empty), to, p)
  }

  predicate AllInBounds(cs: seq<Pos>) {
    forall c | c in cs :: InBounds(c)
  }

  predicate Distinct(cs: seq<Pos>) {
    forall i, j | 0 <= i < j < |cs| :: cs[i] != cs[j]
  }

  /** Every listed cell set to 0, in list order (the removal loop of a capture). */
  function ClearAll(g: Grid, cs: seq<Pos>): (h: Grid)
    requires WellFormed(g) && AllInBounds(cs)
    ensures WellFormed(h)
  {
    if cs == [] then g else Set(ClearAll(g, cs[..|cs| - 1]), cs[|cs| - 1], 0)
  }

  /** How many listed cells lie on ring 0. */
  function RingZeroCount(cs: seq<Pos>): (n: nat)
    ensures n <= |cs|
  {
    if cs == [] then 0 else RingZeroCount(cs[..|cs| - 1]) + (if cs[|cs| - 1].ring == 0 then 1 else 0)
  }

  // ---------------------------------------------------------------------
  // Counting cells by owner

  /** Cells among the first `k` of `row` that hold `p`. */
  function RowCount(row: seq<int>, p: int, k: nat): nat
    requires k <= |row|
  {
    if k == 0 then 0 else RowCount(row, p, k - 1) + (if row[k - 1] == p then 1 else 0)
  }

  /** Cells of `p` on rings 0..n-1. */
  function CountUpTo(g: Grid, p: int, n: nat): nat
    requires WellFormed(g) && n <= Rings
  {
    if n == 0 then 0 else CountUpTo(g, p, n - 1) + RowCount(g[n - 1], p, Spokes)
  }

  /** Pieces of `p` on the whole board. */
  function Pieces(g: Grid, p: int): nat
    requires WellFormed(g)
  {
    CountUpTo(g, p, Rings)
  }

  /** Pieces of `p` on ring 0, the inner circle. */
  function InnerPieces(g: Grid, p: int): nat
    requires WellFormed(g)
  {
    RowCount(g[0], p, Spokes)
  }

  /** Change in "cell holds p" when a cell goes from `a` to `b`. */
  function Delta(a: int, b: int, p: int): int {
    (if b == p then 1 else 0) - (if a == p then 1 else 0)
  }

  lemma {:induction false} RowCountUpdate(row: seq<int>, s: nat, v: int, p: int, k: nat)
    requires s < |row| && k <= |row|
    ensures RowCount(row[s := v], p, k) == RowCount(row, p, k) + (if s < k then Delta(row[s], v, p) else 0)
  {
    if k > 0 {
      RowCountUpdate(row, s, v, p, k - 1);
    }
  }

  lemma {:induction false} CountUpToSet(g: Grid, d: Pos, v: int, p: int, n: nat)
    requires WellFormed(g) && InBounds(d) && n <= Rings
    ensures CountUpTo(Set(g, d, v), p, n) == CountUpTo(g, p, n) + (if d.ring < n then Delta(At(g, d), v, p) else 0)
  {
    if n > 0 {
      CountUpToSet(g, d, v, p, n - 1);
      if n - 1 == d.ring {
        RowCountUpdate(g[d.ring], d.spoke, v, p, Spokes);
      }
    }
  }

  /** Writing one cell moves each owner's piece count and inner count by at most one,
      exactly as the cell's owner changes. */
  lemma SetCounts(g: Grid, d: Pos, v: int, p: int)
    requires WellFormed(g) && InBounds(d)
    ensures Pieces(Set(g, d, v), p) == Pieces(g, p) + Delta(At(g, d), v, p)
    ensures InnerPieces(Set(g, d, v), p) == InnerPieces(g, p) + (if d.ring == 0 then Delta(At(g, d), v, p) else 0)
  {
    CountUpToSet(g, d, v, p, Rings);
    if d.ring == 0 {
      RowCountUpdate(g[0], d.spoke, v, p, Spokes);
    } else {
      assert Set(g, d, v)[0] == g[0];
    }
  }

  /** Moving a piece of `p` from an owned cell to an empty one keeps every
      player's piece count, and shifts `p`'s inner count by entering or
      leaving ring 0. */
  lemma RelocateCounts(g: Grid, from: Pos, to: Pos, p: int, q: int)
    requires WellFormed(g) && InBounds(from) && InBounds(to)
    requires IsPlayer(p) && At(g, from) == p && At(g, to) == Empty && q != Empty
    ensures Pieces(Relocate(g, from, to, p), q) == Pieces(g, q)
    ensures InnerPieces(Relocate(g, from, to, p), q) ==
      InnerPieces(g, q) + (if q == p then (if to.ring == 0 then 1 else 0) - (if from.ring == 0 then 1 else 0) else 0)
  {
    var g1 := Set(g, from, Empty);
    SetCounts(g, from, Empty, q);
    assert from != to;
    assert At(g1, to) == Empty;
    SetCounts(g1, to, p, q);
  }

  /** A cell not in the list keeps its value; a listed cell ends at 0. */
  lemma {:induction false} ClearAllAt(g: Grid, cs: seq<Pos>, c: Pos)
    requires WellFormed(g) && AllInBounds(cs) && InBounds(c)
    ensures At(ClearAll(g, cs), c) == if c in cs then 0 else At(g, c)
  {
    if cs != [] {
      var init := cs[..|cs| - 1];
      assert forall x | x in init :: x in cs;
      ClearAllAt(g, init, c);
      assert cs == init + [cs[|cs| - 1]];
    }
  }

  /** Removing distinct pieces of `q` lowers `q`'s piece count by their number
      and `q`'s inner count by those on ring 0; every other owner is untouched. */
  lemma {:induction false} ClearAllCounts(g: Grid, cs: seq<Pos>, q: int, p: int)
    requires WellFormed(g) && AllInBounds(cs) && Distinct(cs)
    requires q != Empty && p != Empty && forall c | c in cs :: At(g, c) == q
    ensures Pieces(ClearAll(g, cs), p) == Pieces(g, p) - (if p == q then |cs| else 0)
    ensures InnerPieces(ClearAll(g, cs), p) == InnerPieces(g, p) - (if p == q then RingZeroCount(cs) else 0)
  {
    if cs != [] {
      var init, last := cs[..|cs| - 1], cs[|cs| - 1];
      assert forall x | x in init :: x in cs;
      assert Distinct(init);
      ClearAllCounts(g, init, q, p);
      assert last !in init;
      ClearAllAt(g, init, last);
      SetCounts(ClearAll(g, init), last, 0, p);
    }
  }

  /** The starting layout of both engines: player 1 on ring 3 at the even
      spokes, player 2 on ring 3 at the odd spokes, everything else empty. */
  function InitialGrid(): (g: Grid)
    ensures WellFormed(g)
  {
    seq(Rings, r => seq(Spokes, s => if r == 3 then (if s % 2 == 0 then 1 else 2) else Empty))
  }

  /** An all-empty grid (np.zeros((4, 8))). */
  function EmptyGrid(): (g: Grid)
    ensures WellFormed(g)
  {
    seq(Rings, r => seq(Spokes, s => Empty))
  }

  /** The starting layout has four pieces per player, none on ring 0. */
  lemma InitialCounts()
    ensures Pieces(InitialGrid(), 1) == 4 && Pieces(InitialGrid(), 2) == 4
    ensures InnerPieces(InitialGrid(), 1) == 0 && InnerPieces(InitialGrid(), 2) == 0
  {
    var g := InitialGrid();
    var blank, outer := [0, 0, 0, 0, 0, 0, 0, 0], [1, 2, 1, 2, 1, 2, 1, 2];
    assert g[0] == g[1] == g[2] == blank;
    assert g[3] == outer;
    assert RowCount(blank, 1, 8) == 0 && RowCount(blank, 2, 8) == 0;
    assert RowCount(outer, 1, 8) == 4 && RowCount(outer, 2, 8) == 4;
  }

  /** Joining two duplicate-free lists with no common element gives a duplicate-free list. */
  lemma DistinctAppend(xs: seq<Pos>, ys: seq<Pos>)
    requires Distinct(xs) && Distinct(ys)
    requires forall x | x in xs :: x !in ys
    ensures Distinct(xs + ys)
  {
    forall i, j | 0 <= i < j < |xs + ys|
      ensures (xs + ys)[i] != (xs + ys)[j]
    {
      if i < |xs| && j >= |xs| {
        assert (xs + ys)[i] in xs && (xs + ys)[j] in ys;
      }
    }
  }

  /** Cells 0..k-1 of row `r` of a board array. */
  function RowView(a: array2<int>, r: nat, k: nat): (row: seq<int>)
    reads a
    requires r < a.Length0 && k <= a.Length1
    ensures |row| == k
  {
    if k == 0 then [] else RowView(a, r, k - 1) + [a[r, k - 1]]
  }

  lemma {:induction false} RowViewCells(a: array2<int>, r: nat, k: nat)
    requires r < a.Length0 && k <= a.Length1
    ensures forall s | 0 <= s < k :: RowView(a, r, k)[s] == a[r, s]
  {
    if k > 0 {
      RowViewCells(a, r, k - 1);
    }
  }

  /** Rows 0..n-1 of a board array. */
  function RowsView(a: array2<int>, n: nat): (rows: seq<seq<int>>)
    reads a
    requires n <= a.Length0 && a.Length1 == Spokes
    ensures |rows| == n
  {
    if n == 0 then [] else RowsView(a, n - 1) + [RowView(a, n - 1, Spokes)]
  }

  lemma {:induction false} RowsViewCells(a: array2<int>, n: nat)
    requires n <= a.Length0 && a.Length1 == Spokes
    ensures forall r | 0 <= r < n :: |RowsView(a, n)[r]| == Spokes
    ensures forall r, s | 0 <= r < n && 0 <= s < Spokes :: RowsView(a, n)[r][s] == a[r, s]
  {
    if n > 0 {
      RowsViewCells(a, n - 1);
      RowViewCells(a, n - 1, Spokes);
    }
  }

  /** The contents of a board array as a grid value. */
  function View(a: array2<int>): (g: Grid)
    reads a
    requires a.Length0 == Rings && a.Length1 == Spokes
    ensures WellFormed(g)
    ensures forall r, s | 0 <= r < Rings && 0 <= s < Spokes :: g[r][s] == a[r, s]
  {
    RowsViewCells(a, Rings);
    RowsView(a, Rings)
  }

  /** The starting layout written into a fresh zeroed board: player 1 at
      spokes 0, 2, 4, 6 of ring 3, then player 2 at spokes 1, 3, 5, 7. */
  method InitialBoard() returns (cells: array2<int>)
    ensures fresh(cells) && cells.Length0 == Rings && cells.Length1 == Spokes
    ensures View(cells) == InitialGrid()
  {
    cells := new int[Rings, Spokes]((r, s) => Empty);
    var evens, odds := [0, 2, 4, 6], [1, 3, 5, 7];
    for k := 0 to 4
      invariant forall r, s | 0 <= r < Rings && 0 <= s < Spokes ::
        cells[r, s] == if r == 3 && s % 2 == 0 && s < 2 * k then 1 else Empty
    {
      cells[3, evens[k]] := 1;
    }
    for k := 0 to 4
      invariant forall r, s | 0 <= r < Rings && 0 <= s < Spokes ::
        cells[r, s] == if r == 3 && s % 2 == 0 then 1 else if r == 3 && s < 2 * k then 2 else Empty
    {
      cells[3, odds[k]] := 2;
    }
    SameGrid(View(cells), InitialGrid());
  }

  /** A fresh board of zeros (`np.zeros((4, 8))`). */
  method ZeroBoard() returns (cells: array2<int>)
    ensures fresh(cells) && cells.Length0 == Rings && cells.Length1 == Spokes
    ensures View(cells) == EmptyGrid()
  {
    cells := new int[Rings, Spokes]((r, s) => Empty);
    SameGrid(View(cells), EmptyGrid());
  }

  /** Two grids with the same cells are the same grid. */
  lemma SameGrid(g: Grid, h: Grid)
    requires WellFormed(g) && WellFormed(h)
    requires forall r, s | 0 <= r < Rings && 0 <= s < Spokes :: g[r][s] == h[r][s]
    ensures g == h
  {
    forall r | 0 <= r < Rings
      ensures g[r] == h[r]
    {
      assert forall s | 0 <= s < Spokes :: g[r][s] == h[r][s];
    }
  }

  // ---------------------------------------------------------------------
  // Moves and the surround rule common to both engines

  /** The spoke offsets of a step along the ring, in the order they are tried. */
  const RingOffsets: seq<int> := [-1, 1]

  /** `[d]` when `d` is empty, else nothing. */
  function IfEmpty(g: Grid, d: Pos): (ds: seq<Pos>)
    requires WellFormed(g) && InBounds(d)
    ensures forall e | e in ds :: e == d && At(g, e) == Empty
  {
    if At(g, d) == Empty then [d] else []
  }

  /** Steps along ring `r` by the first `k` spoke offsets of `offsets`, each
      taken modulo 8, keeping the empty destinations in order. */
  function RingSteps(g: Grid, r: int, s: int, offsets: seq<int>, k: nat): (ds: seq<Pos>)
    requires WellFormed(g) && 0 <= r < Rings && k <= |offsets|
    ensures forall e | e in ds :: InBounds(e) && At(g, e) == Empty && e.ring == r
  {
    if k == 0 then [] else RingSteps(g, r, s, offsets, k - 1) + IfEmpty(g, Pos(r, Wrap(s + offsets[k - 1])))
  }

  /** A pair of offsets yields the first destination, then the second. */
  lemma RingStepsPair(g: Grid, r: int, s: int, offsets: seq<int>)
    requires WellFormed(g) && 0 <= r < Rings && |offsets| == 2
    ensures RingSteps(g, r, s, offsets, 1) == IfEmpty(g, Pos(r, Wrap(s + offsets[0])))
    ensures RingSteps(g, r, s, offsets, 2) ==
      IfEmpty(g, Pos(r, Wrap(s + offsets[0]))) + IfEmpty(g, Pos(r, Wrap(s + offsets[1])))
  {
    assert RingSteps(g, r, s, offsets, 0) == [];
  }

  /** The moves every piece has: one step either way along its ring, then one
      step inward when it is not on ring 0; only empty destinations. */
  function StandardMoves(g: Grid, r: int, s: int): (ds: seq<Pos>)
    requires WellFormed(g) && InBounds(Pos(r, s))
    ensures forall e | e in ds :: InBounds(e) && At(g, e) == Empty
  {
    RingSteps(g, r, s, RingOffsets, |RingOffsets|) + (if r > 0 then IfEmpty(g, Pos(r - 1, s)) else [])
  }

  lemma StandardMovesShape(g: Grid, r: int, s: int)
    requires WellFormed(g) && InBounds(Pos(r, s))
    ensures StandardMoves(g, r, s) ==
      IfEmpty(g, Pos(r, Wrap(s - 1))) + IfEmpty(g, Pos(r, Wrap(s + 1))) +
      (if r > 0 then IfEmpty(g, Pos(r - 1, s)) else [])
  {
    RingStepsPair(g, r, s, RingOffsets);
  }

  /** The standard moves are exactly the empty cells among the two ring
      neighbours and the inner cell, each listed once. */
  lemma StandardMovesExactly(g: Grid, r: int, s: int, d: Pos)
    requires WellFormed(g) && InBounds(Pos(r, s))
    ensures d in StandardMoves(g, r, s) <==>
      && InBounds(d) && At(g, d) == Empty
      && (d == Pos(r, Wrap(s - 1)) || d == Pos(r, Wrap(s + 1)) || (r > 0 && d == Pos(r - 1, s)))
    ensures Distinct(StandardMoves(g, r, s))
  {
    var a, b := IfEmpty(g, Pos(r, Wrap(s - 1))), IfEmpty(g, Pos(r, Wrap(s + 1)));
    var c := if r > 0 then IfEmpty(g, Pos(r - 1, s)) else [];
    StandardMovesShape(g, r, s);
    assert d in a + b + c <==> d in a || d in b || d in c;
    DistinctAppend(a, b);
    DistinctAppend(a + b, c);
  }

  /** The surround rule: the piece at (r, s) has `mover` on both ring
      neighbours and on its inner cell. A ring-0 piece has no inner cell and
      is never surrounded. */
  predicate Surrounded(g: Grid, r: int, s: int, mover: int)
    requires WellFormed(g) && InBounds(Pos(r, s))
    ensures r == 0 ==> !Surrounded(g, r, s, mover)
  {
    && g[r][Wrap(s - 1)] == mover
    && g[r][Wrap(s + 1)] == mover
    && r > 0 && g[r - 1][s] == mover
  }
}
