/**
  Piece kinds, the shape table (four rotation states per kind, each a 4x4
  occupancy grid), the kick table used by rotation, and the `Piece` value
  whose footprint `Cells` derives from the table.
 */
module Pieces {

  /** The seven tetromino kinds. */
  datatype Kind = I | O | T | S | Z | J | L

  /** A 4x4 occupancy grid; a non-zero entry is an occupied cell. */
  type Grid4 = seq<seq<int>>

  /** The four rotation states of kind `k`, in rotation order. */
  function Rotations(k: Kind): (rs: seq<Grid4>)
    ensures |rs| == 4
    ensures forall rot :: 0 <= rot < 4 ==> |rs[rot]| == 4 && forall rr :: 0 <= rr < 4 ==> |rs[rot][rr]| == 4
  {
    match k
    case I => [
      [[0,1,0,0], [0,1,0,0], [0,1,0,0], [0,1,0,0]],
      [[0,0,0,0], [1,1,1,1], [0,0,0,0], [0,0,0,0]],
      [[0,0,1,0], [0,0,1,0], [0,0,1,0], [0,0,1,0]],
      [[0,0,0,0], [0,0,0,0], [1,1,1,1], [0,0,0,0]]]
    case O => [
      [[0,0,0,0], [0,1,1,0], [0,1,1,0], [0,0,0,0]],
      [[0,0,0,0], [0,1,1,0], [0,1,1,0], [0,0,0,0]],
      [[0,0,0,0], [0,1,1,0], [0,1,1,0], [0,0,0,0]],
      [[0,0,0,0], [0,1,1,0], [0,1,1,0], [0,0,0,0]]]
    case T => [
      [[0,0,0,0], [1,1,1,0], [0,1,0,0], [0,0,0,0]],
      [[0,1,0,0], [1,1,0,0], [0,1,0,0], [0,0,0,0]],
      [[0,1,0,0], [1,1,1,0], [0,0,0,0], [0,0,0,0]],
      [[0,1,0,0], [0,1,1,0], [0,1,0,0], [0,0,0,0]]]
    case S => [
      [[0,0,0,0], [0,1,1,0], [1,1,0,0], [0,0,0,0]],
      [[1,0,0,0], [1,1,0,0], [0,1,0,0], [0,0,0,0]],
      [[0,0,0,0], [0,1,1,0], [1,1,0,0], [0,0,0,0]],
      [[1,0,0,0], [1,1,0,0], [0,1,0,0], [0,0,0,0]]]
    case Z => [
      [[0,0,0,0], [1,1,0,0], [0,1,1,0], [0,0,0,0]],
      [[0,1,0,0], [1,1,0,0], [1,0,0,0], [0,0,0,0]],
      [[0,0,0,0], [1,1,0,0], [0,1,1,0], [0,0,0,0]],
      [[0,1,0,0], [1,1,0,0], [1,0,0,0], [0,0,0,0]]]
    case J => [
      [[0,0,0,0], [1,1,1,0], [0,0,1,0], [0,0,0,0]],
      [[0,1,0,0], [0,1,0,0], [1,1,0,0], [0,0,0,0]],
      [[1,0,0,0], [1,1,1,0], [0,0,0,0], [0,0,0,0]],
      [[0,1,1,0], [0,1,0,0], [0,1,0,0], [0,0,0,0]]]
    case L => [
      [[0,0,0,0], [1,1,1,0], [1,0,0,0], [0,0,0,0]],
      [[1,1,0,0], [0,1,0,0], [0,1,0,0], [0,0,0,0]],
      [[0,0,1,0], [1,1,1,0], [0,0,0,0], [0,0,0,0]],
      [[0,1,0,0], [0,1,0,0], [0,1,1,0], [0,0,0,0]]]
  }

  /** The rotation state used for rotation index `rot`, which is taken modulo 4. */
  function Shape(k: Kind, rot: int): (g: Grid4)
    ensures |g| == 4 && forall rr :: 0 <= rr < 4 ==> |g[rr]| == 4
  {
    Rotations(k)[rot % 4]
  }

  /** The occupied offsets in row `rr` of a shape from column `cc` on, left to right. */
  function RowOffsets(row: seq<int>, rr: int, cc: nat): seq<(int, int)>
    requires cc <= |row|
    decreases |row| - cc
  {
    if cc == |row| then []
    else (if row[cc] != 0 then [(rr, cc)] else []) + RowOffsets(row, rr, cc + 1)
  }

  /**
    The occupied offsets of `g` from row `rr` on, in the order of the
    row-major double loop over rows and columns.
   */
  function OffsetsFrom(g: Grid4, rr: nat): seq<(int, int)>
    requires rr <= |g|
    decreases |g| - rr
  {
    if rr == |g| then [] else RowOffsets(g[rr], rr, 0) + OffsetsFrom(g, rr + 1)
  }

  function Offsets(g: Grid4): seq<(int, int)>
  {
    OffsetsFrom(g, 0)
  }

  /** `RowOffsets` lists exactly the occupied columns of the row from `cc` on. */
  lemma {:induction false} RowOffsetsExact(row: seq<int>, rr: int, cc: nat)
    requires cc <= |row|
    decreases |row| - cc
    ensures forall t :: t in RowOffsets(row, rr, cc) ==> t.0 == rr && cc <= t.1 < |row| && row[t.1] != 0
    ensures forall k :: cc <= k < |row| && row[k] != 0 ==> (rr, k) in RowOffsets(row, rr, cc)
  {
    if cc < |row| {
      RowOffsetsExact(row, rr, cc + 1);
    }
  }

  /** `OffsetsFrom` lists exactly the occupied cells of the rows from `rr` on. */
  lemma {:induction false} OffsetsFromExact(g: Grid4, rr: nat)
    requires rr <= |g|
    decreases |g| - rr
    ensures forall t :: t in OffsetsFrom(g, rr) ==>
      rr <= t.0 < |g| && 0 <= t.1 < |g[t.0]| && g[t.0][t.1] != 0
    ensures forall a, b :: rr <= a < |g| && 0 <= b < |g[a]| && g[a][b] != 0 ==> (a, b) in OffsetsFrom(g, rr)
  {
    if rr < |g| {
      RowOffsetsExact(g[rr], rr, 0);
      OffsetsFromExact(g, rr + 1);
    }
  }

  /**
    The occupied offsets of each rotation state, in row-major order: the
    shape table scanned once and for all (`ScanMatchesTable` proves it).
   */
  function OffsetTable(k: Kind): (ts: seq<seq<(int, int)>>)
    ensures |ts| == 4
  {
    match k
    case I => [
      [(0, 1), (1, 1), (2, 1), (3, 1)],
      [(1, 0), (1, 1), (1, 2), (1, 3)],
      [(0, 2), (1, 2), (2, 2), (3, 2)],
      [(2, 0), (2, 1), (2, 2), (2, 3)]]
    case O => [
      [(1, 1), (1, 2), (2, 1), (2, 2)],
      [(1, 1), (1, 2), (2, 1), (2, 2)],
      [(1, 1), (1, 2), (2, 1), (2, 2)],
      [(1, 1), (1, 2), (2, 1), (2, 2)]]
    case T => [
      [(1, 0), (1, 1), (1, 2), (2, 1)],
      [(0, 1), (1, 0), (1, 1), (2, 1)],
      [(0, 1), (1, 0), (1, 1), (1, 2)],
      [(0, 1), (1, 1), (1, 2), (2, 1)]]
    case S => [
      [(1, 1), (1, 2), (2, 0), (2, 1)],
      [(0, 0), (1, 0), (1, 1), (2, 1)],
      [(1, 1), (1, 2), (2, 0), (2, 1)],
      [(0, 0), (1, 0), (1, 1), (2, 1)]]
    case Z => [
      [(1, 0), (1, 1), (2, 1), (2, 2)],
      [(0, 1), (1, 0), (1, 1), (2, 0)],
      [(1, 0), (1, 1), (2, 1), (2, 2)],
      [(0, 1), (1, 0), (1, 1), (2, 0)]]
    case J => [
      [(1, 0), (1, 1), (1, 2), (2, 2)],
      [(0, 1), (1, 1), (2, 0), (2, 1)],
      [(0, 0), (1, 0), (1, 1), (1, 2)],
      [(0, 1), (0, 2), (1, 1), (2, 1)]]
    case L => [
      [(1, 0), (1, 1), (1, 2), (2, 0)],
      [(0, 0), (0, 1), (1, 1), (2, 1)],
      [(0, 2), (1, 0), (1, 1), (1, 2)],
      [(0, 1), (1, 1), (2, 1), (2, 2)]]
  }

  // One lemma per kind: each checks the scans of that kind's four literal grids.

  /** The I grids are the widest to scan, so their four states are checked in two halves. */
  lemma ScanI(q: int)
    requires 0 <= q < 4
    ensures Offsets(Rotations(I)[q]) == OffsetTable(I)[q]
  {
    if q < 2 {
    } else {
    }
  }

  lemma ScanO(q: int)
    requires 0 <= q < 4
    ensures Offsets(Rotations(O)[q]) == OffsetTable(O)[q]
  {
  }

  lemma ScanT(q: int)
    requires 0 <= q < 4
    ensures Offsets(Rotations(T)[q]) == OffsetTable(T)[q]
  {
  }

  lemma ScanS(q: int)
    requires 0 <= q < 4
    ensures Offsets(Rotations(S)[q]) == OffsetTable(S)[q]
  {
  }

  lemma ScanZ(q: int)
    requires 0 <= q < 4
    ensures Offsets(Rotations(Z)[q]) == OffsetTable(Z)[q]
  {
  }

  lemma ScanJ(q: int)
    requires 0 <= q < 4
    ensures Offsets(Rotations(J)[q]) == OffsetTable(J)[q]
  {
  }

  lemma ScanL(q: int)
    requires 0 <= q < 4
    ensures Offsets(Rotations(L)[q]) == OffsetTable(L)[q]
  {
  }

  /** Scanning the grid of any rotation state yields the table's four offsets. */
  lemma ScanMatchesTable(k: Kind, rot: int)
    ensures Offsets(Shape(k, rot)) == OffsetTable(k)[rot % 4]
    ensures |OffsetTable(k)[rot % 4]| == 4
  {
    var q := rot % 4;
    match k
    case I => ScanI(q);
    case O => ScanO(q);
    case T => ScanT(q);
    case S => ScanS(q);
    case Z => ScanZ(q);
    case J => ScanJ(q);
    case L => ScanL(q);
  }

  /** A falling piece: its kind, the board row and column of its 4x4 box, and its rotation index. */
  datatype Piece = Piece(kind: Kind, r: int, c: int, rot: int)

  /**
    The absolute board cells the piece occupies: the anchor plus each occupied
    offset of its rotation state, in row-major order.
   */
  function Cells(p: Piece): seq<(int, int)>
  {
    Anchored(OffsetTable(p.kind)[p.rot % 4], p.r, p.c)
  }

  /** Each offset moved by the anchor (`r`, `c`). */
  function Anchored(offs: seq<(int, int)>, r: int, c: int): (cells: seq<(int, int)>)
    ensures |cells| == |offs|
  {
    if offs == [] then [] else [(r + offs[0].0, c + offs[0].1)] + Anchored(offs[1..], r, c)
  }

  lemma {:induction false} AnchoredAt(offs: seq<(int, int)>, r: int, c: int, j: nat)
    requires j < |offs|
    decreases j
    ensures Anchored(offs, r, c)[j] == (r + offs[j].0, c + offs[j].1)
  {
    if j > 0 {
      AnchoredAt(offs[1..], r, c, j - 1);
    }
  }

  lemma {:induction false} AnchoredCovers(offs: seq<(int, int)>, r: int, c: int, t: (int, int))
    requires t in offs
    ensures (r + t.0, c + t.1) in Anchored(offs, r, c)
  {
    if offs[0] != t {
      AnchoredCovers(offs[1..], r, c, t);
    }
  }

  /** The cells are the row-major scan of the piece's rotation state, moved to its anchor. */
  lemma CellsScanShape(p: Piece)
    ensures Cells(p) == Anchored(Offsets(Shape(p.kind, p.rot)), p.r, p.c)
    ensures |Cells(p)| == 4
  {
    ScanMatchesTable(p.kind, p.rot);
  }

  /** Every cell of a piece lies in its 4x4 box, on a cell its rotation state marks occupied. */
  lemma CellsInBox(p: Piece)
    ensures forall t :: t in Cells(p) ==>
      p.r <= t.0 < p.r + 4 && p.c <= t.1 < p.c + 4 && Shape(p.kind, p.rot)[t.0 - p.r][t.1 - p.c] != 0
  {
    CellsScanShape(p);
    AnchoredOffsetsInBox(Shape(p.kind, p.rot), p.r, p.c);
  }

  lemma AnchoredOffsetsInBox(g: Grid4, r: int, c: int)
    requires |g| == 4 && forall rr :: 0 <= rr < 4 ==> |g[rr]| == 4
    ensures forall t :: t in Anchored(Offsets(g), r, c) ==>
      r <= t.0 < r + 4 && c <= t.1 < c + 4 && g[t.0 - r][t.1 - c] != 0
  {
    var offs := Offsets(g);
    var cells := Anchored(offs, r, c);
    OffsetsFromExact(g, 0);
    forall t | t in cells
      ensures r <= t.0 < r + 4 && c <= t.1 < c + 4 && g[t.0 - r][t.1 - c] != 0
    {
      var j :| 0 <= j < |cells| && cells[j] == t;
      AnchoredAt(offs, r, c, j);
      assert offs[j] in offs;
    }
  }

  /** Every cell its rotation state marks occupied is covered by the piece. */
  lemma CellsCoverShape(p: Piece)
    ensures forall rr, cc :: 0 <= rr < 4 && 0 <= cc < 4 && Shape(p.kind, p.rot)[rr][cc] != 0 ==>
      (p.r + rr, p.c + cc) in Cells(p)
  {
    CellsScanShape(p);
    AnchoredOffsetsCover(Shape(p.kind, p.rot), p.r, p.c);
  }

  lemma AnchoredOffsetsCover(g: Grid4, r: int, c: int)
    requires |g| == 4 && forall rr :: 0 <= rr < 4 ==> |g[rr]| == 4
    ensures forall rr, cc :: 0 <= rr < 4 && 0 <= cc < 4 && g[rr][cc] != 0 ==> (r + rr, c + cc) in Anchored(Offsets(g), r, c)
  {
    OffsetsFromExact(g, 0);
    forall rr, cc | 0 <= rr < 4 && 0 <= cc < 4 && g[rr][cc] != 0
      ensures (r + rr, c + cc) in Anchored(Offsets(g), r, c)
    {
      AnchoredCovers(Offsets(g), r, c, (rr, cc));
    }
  }

  /** The piece moved by `dr` rows and `dc` columns, same kind and rotation. */
  function Shifted(p: Piece, dr: int, dc: int): Piece
  {
    Piece(p.kind, p.r + dr, p.c + dc, p.rot)
  }

  /** The wall-kick offsets (row, column) tried in order by a rotation. */
  const KickTable: seq<(int, int)> := [(0, 0), (0, 1), (0, -1), (1, 0), (-1, 0)]

  /** The piece turned by `dr` quarter turns in place: rotation index `(rot + dr) % 4`. */
  function Rotated(p: Piece, dr: int): Piece
  {
    Piece(p.kind, p.r, p.c, (p.rot + dr) % 4)
  }

  /** The `i`-th rotation candidate: the piece turned in place, then moved by the `i`-th kick. */
  function KickCandidate(p: Piece, dr: int, i: nat): Piece
    requires i < |KickTable|
  {
    Shifted(Rotated(p, dr), KickTable[i].0, KickTable[i].1)
  }

  /**
    The `i`-th rotation candidate occupies the row-major scan of rotation state
    `(rot + dr) % 4`, anchored at the kicked position: the four cells of the
    piece turned in place, each moved by the kick offset.
   */
  lemma KickCandidateCells(p: Piece, dr: int, i: nat)
    requires i < |KickTable|
    ensures Cells(KickCandidate(p, dr, i)) ==
      Anchored(Offsets(Shape(p.kind, p.rot + dr)), p.r + KickTable[i].0, p.c + KickTable[i].1)
    ensures |Cells(KickCandidate(p, dr, i))| == 4
    ensures forall j :: 0 <= j < 4 ==>
      Cells(KickCandidate(p, dr, i))[j] ==
        (Cells(Rotated(p, dr))[j].0 + KickTable[i].0, Cells(Rotated(p, dr))[j].1 + KickTable[i].1)
  {
    var q := KickCandidate(p, dr, i);
    assert Shape(q.kind, q.rot) == Shape(p.kind, p.rot + dr);
    CellsScanShape(q);
    CellsTranslate(Rotated(p, dr), KickTable[i].0, KickTable[i].1);
  }

  /** Moving a piece moves each of its four cells by the same offset. */
  lemma CellsTranslate(p: Piece, dr: int, dc: int)
    ensures |Cells(p)| == 4
    ensures forall j :: 0 <= j < 4 ==>
      Cells(Shifted(p, dr, dc))[j] == (Cells(p)[j].0 + dr, Cells(p)[j].1 + dc)
  {
    ScanMatchesTable(p.kind, p.rot);
    AnchoredTranslate(OffsetTable(p.kind)[p.rot % 4], p.r, p.c, dr, dc);
  }

  /** Anchoring at a moved anchor moves every cell by the same amount. */
  lemma AnchoredTranslate(offs: seq<(int, int)>, r: int, c: int, dr: int, dc: int)
    ensures forall j :: 0 <= j < |offs| ==>
      Anchored(offs, r + dr, c + dc)[j] == (Anchored(offs, r, c)[j].0 + dr, Anchored(offs, r, c)[j].1 + dc)
  {
    forall j | 0 <= j < |offs|
      ensures Anchored(offs, r + dr, c + dc)[j] == (Anchored(offs, r, c)[j].0 + dr, Anchored(offs, r, c)[j].1 + dc)
    {
      AnchoredAt(offs, r + dr, c + dc, j);
      AnchoredAt(offs, r, c, j);
    }
  }

  /** The seven kinds in the order the bag is filled before shuffling. */
  const AllKinds: seq<Kind> := [I, O, T, S, Z, J, L]

  /** The fixed spawn anchor: row 0, column 3, rotation 0. */
  function SpawnPiece(k: Kind): Piece
  {
    Piece(k, 0, 3, 0)
  }
}
