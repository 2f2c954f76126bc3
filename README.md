# Falling-block engine, modelled and verified in Dafny

This project models the core of a Tetris-family game engine, the `Game` class
in `logic/game.py` (`hand-tetris/logic/game.py` is an identical copy and is
modelled once). The engine owns:

- a `rows` x `cols` grid of settled cells;
- the falling piece;
- the 7-bag randomizer and the four-entry next-queue;
- the score, line, frame and lock-delay counters;
- the run state (running or game over).

It advances one discrete action at a time: left, right, soft drop, hard drop,
clockwise and counter-clockwise rotation, and the gravity tick.

The project is split into four modules:

- `pieces.dfy` (module `Pieces`): the seven kinds and the shape table, with
  four 4x4 rotation states per kind. `Cells` is the row-major footprint of a
  piece. It is taken from a table of offsets that is proved equal to the scan
  of the shape grids. The module also holds the kick table and the spawn
  anchor (row 0, column 3, rotation 0).
- `board.dfy` (module `Board`): the pure questions the engine asks about the
  grid:
  - the collision predicate;
  - writing a piece into the grid;
  - clearing full rows by gravity-style compaction;
  - the score table;
  - the rest position of a hard drop and of the ghost;
  - the first kick that fits;
  - the list of settled cells handed to the renderer.
- `bags.dfy` (module `Bags`): the combinatorics of the 7-bag:
  - a full bag is a permutation of the seven kinds;
  - a bag drawn from its end never repeats a kind;
  - everything dealt so far is a run of whole bags, so two consecutive
    occurrences of a kind are at most 12 pieces apart.
- `game.dfy` (module `Engine`): the class `Game`, whose fields are the
  engine's mutable state. Each state-changing source method is a Dafny
  method with a `modifies` frame. The rendering queries are read-only
  methods, and `get_next_queue` is a function.

`Game.Valid()` is the invariant every public operation keeps:

- the grid is `rows` x `cols`;
- the bag state is sound;
- the queue holds exactly four kinds;
- while running, the falling piece does not collide;
- after game over, the piece sits colliding at the spawn anchor.

`Step` states its effect for each action against the state before it:

- `MovedFrom`: the try-then-commit move;
- `RotatedFrom`: the first fitting kick;
- `LockedFrom`: the piece is written in, rows are cleared and counted, the
  score is added and the next piece spawns;
- `TickedFrom`: gravity and lock delay.

Two ghost fields, `drawn` and `spawned`, record the draw and spawn history.
They carry the bag invariant and the fairness lemma. The *dealing*
(`Bags.Dealing`) is the kinds drawn so far, followed by the bag's remaining
kinds in the order they will be popped. Every operation that draws
guarantees the dealing only grows, which fixes each draw to the bag's end.

## Model

| member | source | states |
|---|---|---|
| Pieces.Rotations | logic/game.py:9-49 | Each kind has four rotation states, each a 4x4 grid |
| Pieces.Shape | logic/game.py:75 | The rotation index selects a state modulo 4, so any integer index gives a 4x4 grid |
| Pieces.OffsetTable | logic/game.py:9-49 | Each kind has four offset lists, one per rotation state |
| Pieces.RowOffsetsExact | logic/game.py:78-80 | The column scan of a shape row lists exactly the occupied columns from its start on |
| Pieces.OffsetsFromExact | logic/game.py:77-80 | The row-major scan lists exactly the occupied cells of the shape grid |
| Pieces.ScanMatchesTable | logic/game.py:9-49 | For every kind and rotation, scanning the shape grid in row-major order yields the offset table's entry, which has four cells |
| Pieces.Anchored | logic/game.py:80 | Anchoring offsets keeps their number |
| Pieces.AnchoredAt | logic/game.py:80 | The j-th anchored cell is the j-th offset plus the anchor |
| Pieces.AnchoredCovers | logic/game.py:80 | Every offset, moved by the anchor, appears among the cells |
| Pieces.CellsScanShape | logic/game.py:74-81 | A piece's cells are the row-major scan of `shape[kind][rot % 4]` moved to the anchor, four of them |
| Pieces.CellsInBox | logic/game.py:74-81 | Every cell lies in the piece's 4x4 box on a cell its rotation state marks occupied |
| Pieces.CellsCoverShape | logic/game.py:74-81 | Every cell the rotation state marks occupied is covered by the piece |
| Pieces.AnchoredOffsetsInBox | logic/game.py:77-80 | The anchored scan of any 4x4 grid stays in the box and only on occupied entries |
| Pieces.AnchoredOffsetsCover | logic/game.py:77-80 | The anchored scan of any 4x4 grid covers every occupied entry |
| Pieces.KickCandidateCells | logic/game.py:224-225 | The i-th rotation candidate occupies the row-major scan of rotation state `(rot + dr) % 4`, anchored at the kicked position: the four cells of the piece turned in place, each moved by the kick offset |
| Pieces.CellsTranslate | logic/game.py:215 | Moving a piece moves each of its four cells by the same offset |
| Pieces.AnchoredTranslate | logic/game.py:80 | Anchoring at a moved anchor moves every cell by the same amount |
| Board.CollidesAtExact | logic/game.py:144-149 | The early-exit scan answers true exactly when some listed cell is out of bounds or occupied |
| Board.CollidesExact | logic/game.py:143-149 | A piece collides exactly when one of its cells is above, below, left or right of the board, or on a settled cell |
| Board.FitsAboveFloor | logic/game.py:145 | A piece that does not collide is anchored above the floor |
| Board.Stamp | logic/game.py:154-156 | Stamping a list of cells keeps the number of rows |
| Board.StampExact | logic/game.py:154-156 | After stamping, the grid keeps its dimensions; a listed in-bounds cell holds the kind and every other cell is unchanged |
| Board.PlaceExact | logic/game.py:152-156 | Writing a piece in sets exactly its on-board cells to its kind and leaves the rest and the dimensions as they were |
| Board.EmptyRow | logic/game.py:166 | A fresh row has `cols` cells, all empty |
| Board.EmptyRows | logic/game.py:165-166 | `n` fresh rows, each empty |
| Board.EmptyRowsWellFormed | logic/game.py:106 | A fresh grid is `rows` x `cols` |
| Board.KeptCount | logic/game.py:163-164 | Every row is either kept (it has a gap) or counted as cleared |
| Board.KeptAppend | logic/game.py:163 | Filtering and counting distribute over concatenation of row blocks |
| Board.KeptRowsHaveGaps | logic/game.py:163 | Every kept row has an empty cell and comes from the grid |
| Board.CompactedShape | logic/game.py:162-167 | A clear keeps the grid `rows` x `cols` |
| Board.CompactedHasNoFullRow | logic/game.py:163-166 | With at least one column, no full row remains after a clear |
| Board.CompactedTopIsEmpty | logic/game.py:165-166 | The top rows of the cleared grid, one per removed row, are empty |
| Board.RowFallsByClearedBelow | logic/game.py:163-167 | A surviving row moves down by exactly the number of full rows beneath it |
| Board.FullRowsBound | logic/game.py:164 | No more rows are cleared than the grid has |
| Board.CompactionKeepsOrder | logic/game.py:163 | Surviving rows keep their relative order |
| Board.NoFullRowIsFixed | logic/game.py:162-167 | A grid without full rows is unchanged by a clear, which counts zero rows |
| Board.ClearIsIdempotent | logic/game.py:162-167 | Clearing an already cleared grid changes nothing, for any number of columns |
| Board.EmptyRowsCleared | logic/game.py:163-166 | Inserted empty rows survive a later clear when rows have cells; with zero columns they all count as full again |
| Board.ScoreFor | logic/game.py:171-173 | Points are positive exactly for 1 to 4 rows; otherwise (0, negative, more than 4) they are 0; between 100 and 200 per row |
| Board.ScoreGrowsWithRows | logic/game.py:172 | The table strictly increases from 0 to 4 rows |
| Board.Dropped | logic/game.py:248-249 | The drop target keeps kind, column and rotation; every row on the way down is free; one row further collides |
| Board.DroppedPath | logic/game.py:191-192 | A free path from one row below extends to the starting row |
| Board.FirstFit | logic/game.py:224-229 | The index of the first kick whose candidate does not collide: all earlier candidates collide; 5 when none fits |
| Board.RowSettledExact | logic/game.py:235-238 | The listing of one row names exactly its filled cells with their kinds |
| Board.SettledExact | logic/game.py:234-238 | The settled listing names exactly the grid's filled cells, each with its kind |
| Board.Tagged | logic/game.py:240-241 | The falling piece contributes one entry per cell: entry i is cell i of the piece with the piece's kind |
| Bags.Reversed | logic/game.py:120 | The draw order of a bag popped from its end has the bag's length |
| Bags.ReversedAt | logic/game.py:120 | The i-th draw is the element i places from the end |
| Bags.ReversedKeepsMultiset | logic/game.py:120 | Drawing a bag out yields the same kinds, with multiplicity |
| Bags.AllKindsIsFullBag | logic/game.py:114 | The seven kinds in fill order form a full bag |
| Bags.OnceEach | logic/game.py:114 | The fill list holds every kind exactly once |
| Bags.FullBagIsPermutation | logic/game.py:113-115 | Seven draws covering every kind are exactly the permutations of the fill list, in both directions |
| Bags.FullBagCounts | logic/game.py:113-115 | A full bag holds every kind exactly once |
| Bags.CountedTwice | logic/game.py:113-115 | A kind at two positions is counted twice |
| Bags.FullBagHasNoDuplicates | logic/game.py:113-115 | A shuffled bag never holds the same kind twice |
| Bags.IndexIn | logic/game.py:113-115 | Every kind has a position in a full bag |
| Bags.BagSequenceLength | logic/game.py:117-120 | A run of whole bags ends on a bag boundary |
| Bags.AppendBag | logic/game.py:118-119 | A refill extends a run of whole bags by one more bag |
| Bags.PopKeepsDealt | logic/game.py:120 | Popping from the bag keeps drawn-plus-remaining a run of whole bags and leaves the dealing unchanged |
| Bags.DrawsPopBagEnd | logic/game.py:117-120 | When the dealing (the draws so far, then the bag in pop order) only grows, each draw made meanwhile is the kind at the old bag's end, in pop order |
| Bags.RefillKeepsDealt | logic/game.py:117-119 | A refill after whole bags restores the randomizer's invariant with seven kinds in the bag |
| Bags.DealtBagHasNoDuplicates | logic/game.py:117-120 | Whatever remains in the bag between draws holds no kind twice |
| Bags.TailOfLastBlock | logic/game.py:117-120 | The remaining bag is duplicate-free when the last whole bag is |
| Bags.BagIsLastBlockTail | logic/game.py:120 | The remaining bag, read from its end, is the tail of the last whole bag |
| Bags.FindInBlock | logic/game.py:113-115 | Every whole bag in the dealt run holds every kind |
| Bags.FairGap | logic/game.py:117-120 | In a run of whole bags, two consecutive occurrences of a kind have at most 12 draws between them |
| Bags.FairPrefixGap | logic/game.py:117-120 | The same bound holds for every prefix of what was dealt |
| Engine.Game.constructor | logic/game.py:104-110 | A new game: empty `rows` x `cols` grid, zero counters, one piece spawned at the anchor, game over exactly when that spawn collides, and the invariant established |
| Engine.Game.QueueOpening | logic/game.py:108-109 | Four draws fill the empty queue, keeping the bag and queue invariants; the dealing only grows, so they are the bag's last kinds in pop order |
| Engine.Game.RefillBag | logic/game.py:113-115 | The bag becomes a full bag, any permutation of the seven kinds |
| Engine.Game.DrawBag | logic/game.py:117-120 | Returns the bag's last element and removes it; an empty bag is refilled first, leaving six; the draw is recorded, the bag invariant kept, and the dealing only grows |
| Engine.Game.PushNext | logic/game.py:122-123 | Appends the kind to the queue |
| Engine.Game.PopNext | logic/game.py:125-128 | Returns the queue's head; with fewer than four queued it draws one first, from the bag's end (the dealing only grows); with four or more it takes only the head and leaves the bag alone |
| Engine.Game.Spawn | logic/game.py:131-136 | The piece is placed at the spawn anchor, the queue is topped up to four with draws from the bag's end, and the game ends exactly when the new piece collides |
| Engine.Game.TopUpQueue | logic/game.py:133-134 | Draws until the queue holds four, extending it at the back; the dealing only grows, so the appended kinds are the bag's, popped from its end |
| Engine.Game.SpawnNext | logic/game.py:138-140 | The queue's head spawns and is recorded as spawned; the queue again holds at least four; any draw pops the bag's end |
| Engine.Game.TryMove | logic/game.py:213-219 | Moves exactly when the shifted piece does not collide, and reports it |
| Engine.Game.TryRotate | logic/game.py:221-229 | Commits the first kick candidate, in table order, that does not collide; otherwise leaves the piece |
| Engine.Game.ClearLines | logic/game.py:162-169 | The grid becomes its compaction, the result is the number of full rows, and `lines_cleared` grows by it |
| Engine.Game.UpdateScore | logic/game.py:171-173 | Score grows by the table value |
| Engine.Game.StampActive | logic/game.py:154-156 | The grid becomes the grid with the piece written in |
| Engine.Game.LockActive | logic/game.py:152-160 | Write in, clear, score, spawn the next piece (queued draws pop the bag's end), reset the lock counter; the invariant is kept |
| Engine.Game.Step | logic/game.py:176-197 | Per action: try-move, first-fit rotation, hard drop locking once at the drop target, or tick; no change at all once the game is over; the invariant is kept |
| Engine.Game.DropAndLock | logic/game.py:190-193 | Falls to the drop target, then locks exactly once there |
| Engine.Game.DoTick | logic/game.py:199-211 | Counts the frame; on a gravity frame it falls and resets the lock counter, or advances it and locks once it reaches the delay |
| Engine.Game.GetCells | logic/game.py:232-242 | The settled cells in row-major order, then the piece's cells, each with its kind |
| Engine.Game.GhostCells | logic/game.py:244-250 | The piece's footprint at its drop target; the state is untouched |
| Engine.Game.NextQueue | logic/game.py:252-253 | The whole queue, which holds four kinds |
| Engine.Game.BagHasNoDuplicates | logic/game.py:113-120 | The bag never holds a kind twice |
| Engine.Game.SpawnOrderIsFair | logic/game.py:113-140 | Between two consecutive spawns of a kind come at most 12 other pieces |

The defining functions carry no contract of their own; their meaning is stated by the members above.
`Pieces.Cells` (logic/game.py:74-81) is described by `Pieces.CellsScanShape`, and `Board.Collides` (logic/game.py:143-149) by `Board.CollidesExact`.
`Board.Place` (logic/game.py:152-156) is described by `Board.PlaceExact`, and `Board.Compacted` (logic/game.py:162-167) by the line-clearing lemmas.
`Board.Settled` (logic/game.py:232-238) is described by `Board.SettledExact`.
`Pieces.KickTable` (logic/game.py:51) and `Pieces.Rotated` (logic/game.py:225) are described by `Pieces.KickCandidateCells` and `Board.FirstFit`.

## Left out

- Rendering, keyboard and camera input, and the configuration constants
  (`gui/`, `input/`, `config.py`) are outside the engine and are not part of
  this model.
- The random generator: `rng.shuffle` is a nondeterministic choice of any
  full bag, that is, of any permutation of the seven kinds. A seeded
  generator and its exact sequence are not modelled.
- The optional `grid` argument of construction is not modelled: a game always
  starts on an empty grid. The other fields are at their defaults.
- `rows` and `cols` are natural numbers. Negative dimensions, which Python
  would silently turn into an empty grid, are not modelled.
- Engine.Game.constructor: requires a positive gravity period. With 0 the
  source fails with a division by zero on the first tick. A negative period
  (Python's floored `%`) is not modelled. Construction does not reject any
  other parameter, and neither does the model.
- The falling piece is never `None` once construction has finished, so the
  `active is None` branches are dead code. The piece is a plain field.
- `soft_drop_frames` is stored but never read by the engine, as in the source.
- The lock counter is reset only by a successful gravity fall on a tick and by
  a lock. A soft drop or a move does not reset it, as in the code.
- Engine.Game.NextQueue: returns the whole queue. There is no preview-length
  parameter, because `get_next_queue` takes none.
- Engine.Game.DrawBag: after a refill, the contract does not say which kind
  comes out, because the shuffle is a nondeterministic choice.
- Engine.Game.TopUpQueue: the contract says the dealing only grows. It does
  not say whether a bag emptied by the last draw is refilled at once or at
  the next draw. Either way the possible future draws are the same.
- Engine.Game.PopNext: the same holds as for TopUpQueue.
- Engine.Game.Spawn: the same holds as for TopUpQueue.
- Engine.Game.SpawnNext: the same holds as for TopUpQueue.
- Engine.Game.QueueOpening: the same holds as for TopUpQueue.
- Engine.Game.LockActive: the same holds as for TopUpQueue.
- Engine.Game.Step: the same holds when it locks, as for TopUpQueue.
- Engine.Game.DropAndLock: the same holds as for TopUpQueue.
- Engine.Game.DoTick: the same holds when it locks, as for TopUpQueue.
- Python integers are unbounded, so the counters and the score are `nat`s.
  There is no overflow to model.
- The `while` loop in the hard drop ends because a piece that does not
  collide lies above the floor. The termination measure comes from that fact,
  not from the source.
