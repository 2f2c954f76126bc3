/**
  The settled grid and the pure questions the engine asks about it: whether a
  candidate piece collides, the grid with a piece written in, the grid after
  full rows are compacted away, the points a clear is worth, where a piece
  comes to rest when dropped, which wall-kick a rotation takes, and the list
  of settled cells handed to the renderer.
 */
module Board {
  import opened Pieces

  /** A grid cell: empty, or settled with the kind of the piece that locked there. */
  datatype Cell = Empty | Filled(kind: Kind)

  /** The grid, row 0 at the top. */
  type Grid = seq<seq<Cell>>

  /** `g` has `rows` rows of `cols` cells each. */
  ghost predicate WellFormed(g: Grid, rows: nat, cols: nat) {
    |g| == rows && forall r :: 0 <= r < |g| ==> |g[r]| == cols
  }

  // ----- Collision -----

  /** Cell `t` is off the board or already settled. */
  predicate Blocked(g: Grid, rows: nat, cols: nat, t: (int, int))
    requires WellFormed(g, rows, cols)
  {
    t.0 < 0 || t.0 >= rows || t.1 < 0 || t.1 >= cols || g[t.0][t.1] != Empty
  }

  /** Scans `cells` in order and answers true at the first blocked one. */
  predicate CollidesAt(g: Grid, rows: nat, cols: nat, cells: seq<(int, int)>)
    requires WellFormed(g, rows, cols)
  {
    |cells| > 0 && (Blocked(g, rows, cols, cells[0]) || CollidesAt(g, rows, cols, cells[1..]))
  }

  /** The collision test of a candidate piece. */
  predicate Collides(g: Grid, rows: nat, cols: nat, p: Piece)
    requires WellFormed(g, rows, cols)
  {
    CollidesAt(g, rows, cols, Cells(p))
  }

  /** The scan answers true exactly when some cell of the list is blocked. */
  lemma {:induction false} CollidesAtExact(g: Grid, rows: nat, cols: nat, cells: seq<(int, int)>)
    requires WellFormed(g, rows, cols)
    ensures CollidesAt(g, rows, cols, cells) <==> exists t :: t in cells && Blocked(g, rows, cols, t)
  {
    if |cells| > 0 {
      CollidesAtExact(g, rows, cols, cells[1..]);
      assert cells == [cells[0]] + cells[1..];
    }
  }

  /**
    A piece collides exactly when one of its cells lies above, below, left or
    right of the board or on a settled cell.
   */
  lemma CollidesExact(g: Grid, rows: nat, cols: nat, p: Piece)
    requires WellFormed(g, rows, cols)
    ensures Collides(g, rows, cols, p) <==>
      exists t :: t in Cells(p) && (t.0 < 0 || t.0 >= rows || t.1 < 0 || t.1 >= cols || g[t.0][t.1] != Empty)
  {
    CollidesAtExact(g, rows, cols, Cells(p));
  }

  /** A piece that does not collide has its box anchored above the floor. */
  lemma FitsAboveFloor(g: Grid, rows: nat, cols: nat, p: Piece)
    requires WellFormed(g, rows, cols)
    requires !Collides(g, rows, cols, p)
    ensures p.r < rows
  {
    var cells := Cells(p);
    CellsScanShape(p);
    CellsInBox(p);
    assert cells[0] in cells;
  }

  // ----- Locking: writing a piece into the grid -----

  /** Writes kind `k` into cell (`r`, `c`) when the grid has that cell. */
  function SetCell(g: Grid, r: int, c: int, k: Kind): Grid {
    if 0 <= r < |g| && 0 <= c < |g[r]| then g[r := g[r][c := Filled(k)]] else g
  }

  /** Writes kind `k` into every in-bounds cell of `cells`, in order. */
  function Stamp(g: Grid, rows: nat, cols: nat, cells: seq<(int, int)>, k: Kind): (g': Grid)
    decreases |cells|
    ensures |g'| == |g|
  {
    if cells == [] then g
    else
      var h := Stamp(g, rows, cols, cells[..|cells| - 1], k);
      var t := cells[|cells| - 1];
      if 0 <= t.0 < rows && 0 <= t.1 < cols then SetCell(h, t.0, t.1, k) else h
  }

  /** The grid with piece `p` written into it: what locking `p` does before the clear. */
  function Place(g: Grid, rows: nat, cols: nat, p: Piece): Grid
  {
    Stamp(g, rows, cols, Cells(p), p.kind)
  }

  /**
    Stamping keeps the grid's dimensions; afterwards a cell holds `k` if it is
    listed, and its old content otherwise.
   */
  lemma {:induction false} StampExact(g: Grid, rows: nat, cols: nat, cells: seq<(int, int)>, k: Kind)
    requires WellFormed(g, rows, cols)
    decreases |cells|
    ensures WellFormed(Stamp(g, rows, cols, cells, k), rows, cols)
    ensures forall r, c :: 0 <= r < rows && 0 <= c < cols ==>
      Stamp(g, rows, cols, cells, k)[r][c] == if (r, c) in cells then Filled(k) else g[r][c]
  {
    if cells != [] {
      var front := cells[..|cells| - 1];
      StampExact(g, rows, cols, front, k);
      assert cells == front + [cells[|cells| - 1]];
    }
  }

  /**
    Locking writes the piece's kind into exactly its on-board cells and leaves
    every other cell and the dimensions as they were.
   */
  lemma PlaceExact(g: Grid, rows: nat, cols: nat, p: Piece)
    requires WellFormed(g, rows, cols)
    ensures WellFormed(Place(g, rows, cols, p), rows, cols)
    ensures forall r, c :: 0 <= r < rows && 0 <= c < cols ==>
      Place(g, rows, cols, p)[r][c] == if (r, c) in Cells(p) then Filled(p.kind) else g[r][c]
  {
    StampExact(g, rows, cols, Cells(p), p.kind);
  }

  // ----- Line clearing -----

  /** A row with at least one empty cell; only such rows survive a clear. */
  predicate HasGap(row: seq<Cell>) {
    exists c :: 0 <= c < |row| && row[c] == Empty
  }

  /** The rows of `g` that have a gap, in their original order. */
  function Kept(g: Grid): Grid {
    if g == [] then [] else (if HasGap(g[0]) then [g[0]] else []) + Kept(g[1..])
  }

  /** The number of full rows of `g`. */
  function FullRows(g: Grid): nat {
    if g == [] then 0 else (if HasGap(g[0]) then 0 else 1) + FullRows(g[1..])
  }

  /** A row of `cols` empty cells. */
  function EmptyRow(cols: nat): (row: seq<Cell>)
    ensures |row| == cols && forall j :: 0 <= j < cols ==> row[j] == Empty
  {
    if cols == 0 then [] else [Empty] + EmptyRow(cols - 1)
  }

  /** `n` empty rows of `cols` cells each. */
  function EmptyRows(n: nat, cols: nat): (g: Grid)
    ensures |g| == n && forall i :: 0 <= i < n ==> g[i] == EmptyRow(cols)
  {
    if n == 0 then [] else [EmptyRow(cols)] + EmptyRows(n - 1, cols)
  }

  /** A grid of empty rows has the requested dimensions. */
  lemma EmptyRowsWellFormed(rows: nat, cols: nat)
    ensures WellFormed(EmptyRows(rows, cols), rows, cols)
  {
  }

  /** The grid after a clear: one empty row on top for every full row, then the kept rows. */
  function Compacted(g: Grid, cols: nat): Grid {
    EmptyRows(FullRows(g), cols) + Kept(g)
  }

  /** Every row is either kept or counted as full. */
  lemma {:induction false} KeptCount(g: Grid)
    ensures |Kept(g)| + FullRows(g) == |g|
  {
    if g != [] {
      KeptCount(g[1..]);
    }
  }

  lemma {:induction false} KeptAppend(a: Grid, b: Grid)
    ensures Kept(a + b) == Kept(a) + Kept(b)
    ensures FullRows(a + b) == FullRows(a) + FullRows(b)
  {
    if a != [] {
      assert (a + b)[1..] == a[1..] + b;
      KeptAppend(a[1..], b);
    } else {
      assert a + b == b;
    }
  }

  lemma {:induction false} KeptRowsHaveGaps(g: Grid)
    ensures forall i :: 0 <= i < |Kept(g)| ==> HasGap(Kept(g)[i])
    ensures forall row :: row in Kept(g) ==> row in g
  {
    if g != [] {
      KeptRowsHaveGaps(g[1..]);
    }
  }

  /** A clear keeps the grid's dimensions. */
  lemma CompactedShape(g: Grid, rows: nat, cols: nat)
    requires WellFormed(g, rows, cols)
    ensures WellFormed(Compacted(g, cols), rows, cols)
  {
    KeptCount(g);
    KeptRowsHaveGaps(g);
    var h := Compacted(g, cols);
    var n := FullRows(g);
    forall i | 0 <= i < |h|
      ensures |h[i]| == cols
    {
      if i >= n {
        assert h[i] == Kept(g)[i - n];
        assert h[i] in Kept(g);
      }
    }
  }

  /** When the grid has at least one column, no full row remains after a clear. */
  lemma CompactedHasNoFullRow(g: Grid, cols: nat)
    requires cols > 0
    ensures forall i :: 0 <= i < |Compacted(g, cols)| ==> HasGap(Compacted(g, cols)[i])
  {
    KeptRowsHaveGaps(g);
    var h := Compacted(g, cols);
    var n := FullRows(g);
    forall i | 0 <= i < |h|
      ensures HasGap(h[i])
    {
      if i < n {
        assert h[i] == EmptyRow(cols);
        assert h[i][0] == Empty;
      } else {
        assert h[i] == Kept(g)[i - n];
      }
    }
  }

  /** The top rows of a cleared grid, one per removed row, are empty. */
  lemma CompactedTopIsEmpty(g: Grid, cols: nat)
    ensures forall i :: 0 <= i < FullRows(g) ==> Compacted(g, cols)[i] == EmptyRow(cols)
  {
  }

  /**
    Gravity-style compaction: a row with a gap at index `i` moves down by the
    number of full rows beneath it.
   */
  lemma RowFallsByClearedBelow(g: Grid, cols: nat, i: nat)
    requires i < |g| && HasGap(g[i])
    ensures |Compacted(g, cols)| == |g|
    ensures i + FullRows(g[i + 1..]) < |g|
    ensures Compacted(g, cols)[i + FullRows(g[i + 1..])] == g[i]
  {
    var above, below := g[..i], g[i + 1..];
    assert g == above + [g[i]] + below;
    KeptAppend(above + [g[i]], below);
    KeptAppend(above, [g[i]]);
    assert Kept([g[i]]) == [g[i]] by { assert [g[i]][1..] == []; }
    assert FullRows([g[i]]) == 0 by { assert [g[i]][1..] == []; }
    KeptCount(above);
    KeptCount(below);
    var n := FullRows(g);
    assert Kept(g) == Kept(above) + [g[i]] + Kept(below);
    assert Compacted(g, cols)[n + |Kept(above)|] == g[i];
  }

  lemma {:induction false} FullRowsBound(g: Grid)
    ensures FullRows(g) <= |g|
  {
    if g != [] {
      FullRowsBound(g[1..]);
    }
  }

  /** A clear keeps the surviving rows in their relative order. */
  lemma CompactionKeepsOrder(g: Grid, cols: nat, i: nat, j: nat)
    requires i < j < |g| && HasGap(g[i]) && HasGap(g[j])
    ensures i + FullRows(g[i + 1..]) < j + FullRows(g[j + 1..])
  {
    assert g[i + 1..] == g[i + 1..j] + [g[j]] + g[j + 1..];
    KeptAppend(g[i + 1..j] + [g[j]], g[j + 1..]);
    KeptAppend(g[i + 1..j], [g[j]]);
    assert FullRows([g[j]]) == 0 by { assert [g[j]][1..] == []; }
    FullRowsBound(g[i + 1..j]);
  }

  /** Clearing a cleared grid changes nothing. */
  lemma ClearIsIdempotent(g: Grid, cols: nat)
    ensures Compacted(Compacted(g, cols), cols) == Compacted(g, cols)
  {
    var n := FullRows(g);
    var h := Compacted(g, cols);
    KeptRowsHaveGaps(g);
    NoFullRowIsFixed(Kept(g), cols);
    KeptAppend(EmptyRows(n, cols), Kept(g));
    EmptyRowsCleared(n, cols);
    if cols > 0 {
      assert Kept(h) == h;
    } else {
      assert Kept(h) == Kept(g);
    }
  }

  /**
    Fresh rows survive a clear when they have a cell, and are all counted as
    full when the grid has no columns.
   */
  lemma {:induction false} EmptyRowsCleared(n: nat, cols: nat)
    ensures Kept(EmptyRows(n, cols)) == if cols > 0 then EmptyRows(n, cols) else []
    ensures FullRows(EmptyRows(n, cols)) == if cols > 0 then 0 else n
  {
    if n > 0 {
      EmptyRowsCleared(n - 1, cols);
      var e := EmptyRows(n, cols);
      assert e[1..] == EmptyRows(n - 1, cols);
      if cols > 0 {
        assert e[0][0] == Empty;
      }
    }
  }

  /** A grid without full rows is left as it is by a clear. */
  lemma {:induction false} NoFullRowIsFixed(h: Grid, cols: nat)
    requires forall i :: 0 <= i < |h| ==> HasGap(h[i])
    ensures FullRows(h) == 0 && Kept(h) == h && Compacted(h, cols) == h
  {
    if h != [] {
      NoFullRowIsFixed(h[1..], cols);
      assert h == [h[0]] + h[1..];
    }
  }

  // ----- Scoring -----

  /** The points for clearing `cleared` rows with one lock. */
  function ScoreFor(cleared: int): (points: nat)
    ensures points > 0 <==> 1 <= cleared <= 4
    ensures 1 <= cleared <= 4 ==> 100 * cleared <= points <= 200 * cleared
  {
    var table := map[0 := 0, 1 := 100, 2 := 300, 3 := 500, 4 := 800];
    if cleared in table then table[cleared] else 0
  }

  /** Clearing more rows at once is worth strictly more, up to four rows. */
  lemma ScoreGrowsWithRows(a: int, b: int)
    requires 0 <= a < b <= 4
    ensures ScoreFor(a) < ScoreFor(b)
  {
  }

  // ----- Dropping -----

  /**
    The piece moved straight down while the next row down does not collide:
    where a hard drop comes to rest and where the ghost is drawn.
   */
  function Dropped(g: Grid, rows: nat, cols: nat, p: Piece): (q: Piece)
    requires WellFormed(g, rows, cols)
    decreases rows - p.r
    ensures q.kind == p.kind && q.c == p.c && q.rot == p.rot && p.r <= q.r
    ensures Collides(g, rows, cols, Shifted(q, 1, 0))
    ensures forall d :: 0 < d <= q.r - p.r ==> !Collides(g, rows, cols, Shifted(p, d, 0))
  {
    var below := Shifted(p, 1, 0);
    if Collides(g, rows, cols, below) then p
    else
      FitsAboveFloor(g, rows, cols, below);
      var q := Dropped(g, rows, cols, below);
      DroppedPath(g, rows, cols, p, q);
      q
  }

  /** Extends a collision-free downward path from `Shifted(p, 1, 0)` by its first step. */
  lemma DroppedPath(g: Grid, rows: nat, cols: nat, p: Piece, q: Piece)
    requires WellFormed(g, rows, cols)
    requires !Collides(g, rows, cols, Shifted(p, 1, 0))
    requires forall d :: 0 < d <= q.r - p.r - 1 ==> !Collides(g, rows, cols, Shifted(Shifted(p, 1, 0), d, 0))
    ensures forall d :: 0 < d <= q.r - p.r ==> !Collides(g, rows, cols, Shifted(p, d, 0))
  {
    forall d | 0 < d <= q.r - p.r
      ensures !Collides(g, rows, cols, Shifted(p, d, 0))
    {
      if d > 1 {
        assert Shifted(p, d, 0) == Shifted(Shifted(p, 1, 0), d - 1, 0);
      }
    }
  }

  // ----- Rotation -----

  /**
    The index of the first kick, from `i` on, whose rotated candidate does
    not collide; `|KickTable|` when none fits.
   */
  function FirstFit(g: Grid, rows: nat, cols: nat, p: Piece, dr: int, i: nat): (j: nat)
    requires WellFormed(g, rows, cols) && i <= |KickTable|
    decreases |KickTable| - i
    ensures i <= j <= |KickTable|
    ensures j < |KickTable| ==> !Collides(g, rows, cols, KickCandidate(p, dr, j))
    ensures forall m :: i <= m < j ==> Collides(g, rows, cols, KickCandidate(p, dr, m))
  {
    if i == |KickTable| then i
    else if !Collides(g, rows, cols, KickCandidate(p, dr, i)) then i
    else FirstFit(g, rows, cols, p, dr, i + 1)
  }

  // ----- Rendering queries -----

  /** The settled cells of one row, left to right, tagged with row index `r`. */
  function RowSettled(row: seq<Cell>, r: int): seq<(int, int, Kind)>
    decreases |row|
  {
    if row == [] then []
    else
      var c := |row| - 1;
      RowSettled(row[..c], r) + (if row[c].Filled? then [(r, c, row[c].kind)] else [])
  }

  /** The settled cells of the grid in row-major order. */
  function Settled(g: Grid): seq<(int, int, Kind)>
    decreases |g|
  {
    if g == [] then [] else Settled(g[..|g| - 1]) + RowSettled(g[|g| - 1], |g| - 1)
  }

  lemma {:induction false} RowSettledExact(row: seq<Cell>, r: int)
    decreases |row|
    ensures forall t :: t in RowSettled(row, r) <==>
      t.0 == r && 0 <= t.1 < |row| && row[t.1] == Filled(t.2)
  {
    if row != [] {
      RowSettledExact(row[..|row| - 1], r);
    }
  }

  /** The settled list names exactly the occupied cells, each with its kind. */
  lemma {:induction false} SettledExact(g: Grid)
    decreases |g|
    ensures forall t :: t in Settled(g) <==>
      0 <= t.0 < |g| && 0 <= t.1 < |g[t.0]| && g[t.0][t.1] == Filled(t.2)
  {
    if g != [] {
      SettledExact(g[..|g| - 1]);
      RowSettledExact(g[|g| - 1], |g| - 1);
    }
  }

  /** The cells of a piece, each tagged with its kind. */
  function Tagged(cells: seq<(int, int)>, k: Kind): (ts: seq<(int, int, Kind)>)
    ensures |ts| == |cells|
    ensures forall i :: 0 <= i < |cells| ==> ts[i] == (cells[i].0, cells[i].1, k)
  {
    if cells == [] then []
    else
      var t := cells[|cells| - 1];
      Tagged(cells[..|cells| - 1], k) + [(t.0, t.1, k)]
  }
}
