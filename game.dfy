/**
  The game engine: a `rows` x `cols` grid of settled cells, the falling piece,
  the 7-bag randomizer and the next-queue, the score, line, frame and lock
  counters, and the run state. Every change goes through `Step`.
 */
module Engine {
  import opened Pieces
  import opened Board
  import opened Bags

  /** The commands a driver feeds to `Step`. */
  datatype Action = MoveLeft | MoveRight | SoftDrop | HardDrop | RotateCw | RotateCcw | Tick

  datatype GameState = Running | GameOver

  /** The whole mutable state of a game, as one value. */
  datatype Snapshot = Snapshot(
    grid: Grid, state: GameState, active: Piece, nextQueue: seq<Kind>, bag: seq<Kind>,
    score: nat, linesCleared: nat, frameCounter: nat, lockCounter: nat,
    drawn: seq<Kind>, spawned: seq<Kind>)

  class Game {
    const rows: nat
    const cols: nat
    /** Frames per automatic one-row fall. */
    const gravityFrames: int
    /** Stored by the constructor; the engine never reads it. */
    const softDropFrames: int
    /** Failed gravity steps after which the resting piece locks. */
    const lockDelayFrames: int

    var grid: Grid
    var state: GameState
    var active: Piece
    var nextQueue: seq<Kind>
    var bag: seq<Kind>
    var score: nat
    var linesCleared: nat
    var frameCounter: nat
    var lockCounter: nat

    /** Every kind drawn from the bag so far, in draw order. */
    ghost var drawn: seq<Kind>
    /** Every kind spawned so far, in spawn order. */
    ghost var spawned: seq<Kind>

    ghost function Snap(): Snapshot
      reads this
    {
      Snapshot(grid, state, active, nextQueue, bag, score, linesCleared, frameCounter, lockCounter, drawn, spawned)
    }

    ghost predicate BagInv()
      reads this`drawn, this`bag
    {
      Dealt(drawn, bag)
    }

    /** Drawn kinds are spawned in order; those not yet spawned wait in the next-queue. */
    ghost predicate QueueInv()
      reads this`drawn, this`spawned, this`nextQueue
    {
      drawn == spawned + nextQueue
    }

    ghost predicate Valid()
      reads this
    {
      && WellFormed(grid, rows, cols)
      && gravityFrames > 0
      && BagInv() && QueueInv() && |nextQueue| == 4
      && |spawned| > 0 && active.kind == spawned[|spawned| - 1]
      && (state == Running ==> !Collides(grid, rows, cols, active))
      && (state == GameOver ==> Collides(grid, rows, cols, active) && active == SpawnPiece(active.kind))
    }

    // ----- Effects of one step, relative to the state `s0` before it -----

    /** The try-then-commit rule: the piece moves by (`dr`, `dc`) if that does not collide; nothing else changes. */
    ghost predicate MovedFrom(s0: Snapshot, dr: int, dc: int)
      reads this
    {
      && WellFormed(s0.grid, rows, cols)
      && var q := Shifted(s0.active, dr, dc);
         Snap() == s0.(active := if Collides(s0.grid, rows, cols, q) then s0.active else q)
    }

    /** The piece takes the first kick candidate that fits, or stays; nothing else changes. */
    ghost predicate RotatedFrom(s0: Snapshot, dr: int)
      reads this
    {
      && WellFormed(s0.grid, rows, cols)
      && var j := FirstFit(s0.grid, rows, cols, s0.active, dr, 0);
         Snap() == s0.(active := if j < |KickTable| then KickCandidate(s0.active, dr, j) else s0.active)
    }

    /**
      Piece `p` was written into the grid, full rows were cleared and counted,
      the score grew by the table value, and the head of the next-queue spawned.
     */
    ghost predicate LockedFrom(s0: Snapshot, p: Piece)
      reads this
    {
      && WellFormed(s0.grid, rows, cols) && |s0.nextQueue| == 4 && WellFormed(grid, rows, cols)
      && var placed := Place(s0.grid, rows, cols, p);
         && grid == Compacted(placed, cols)
         && linesCleared == s0.linesCleared + FullRows(placed)
         && score == s0.score + ScoreFor(FullRows(placed))
         && frameCounter == s0.frameCounter && lockCounter == 0
         && active == SpawnPiece(s0.nextQueue[0])
         && spawned == s0.spawned + [s0.nextQueue[0]]
         && s0.nextQueue[1..] <= nextQueue
         && Dealing(s0.drawn, s0.bag) <= Dealing(drawn, bag)
         && state == (if Collides(grid, rows, cols, active) then GameOver else Running)
    }

    /**
      A frame passed; on a gravity frame the piece fell one row, or the lock
      counter advanced and, once it reached the lock delay, the piece locked.
     */
    ghost predicate TickedFrom(s0: Snapshot)
      reads this
    {
      && WellFormed(s0.grid, rows, cols) && gravityFrames > 0
      && frameCounter == s0.frameCounter + 1
      && var s1 := s0.(frameCounter := s0.frameCounter + 1);
         var below := Shifted(s0.active, 1, 0);
         if s1.frameCounter % gravityFrames != 0 then Snap() == s1
         else if !Collides(s0.grid, rows, cols, below) then Snap() == s1.(active := below, lockCounter := 0)
         else if s0.lockCounter + 1 < lockDelayFrames then Snap() == s1.(lockCounter := s0.lockCounter + 1)
         else LockedFrom(s1.(lockCounter := s0.lockCounter + 1), s0.active)
    }

    // ----- Construction -----

    /** A game on an empty `rows` x `cols` grid with the first piece spawned. */
    constructor (rows: nat, cols: nat, gravityFrames: int, softDropFrames: int, lockDelayFrames: int)
      requires gravityFrames > 0
      ensures Valid()
      ensures this.rows == rows && this.cols == cols && this.gravityFrames == gravityFrames
      ensures this.softDropFrames == softDropFrames && this.lockDelayFrames == lockDelayFrames
      ensures grid == EmptyRows(rows, cols)
      ensures score == 0 && linesCleared == 0 && frameCounter == 0 && lockCounter == 0
      ensures |spawned| == 1 && active == SpawnPiece(spawned[0])
      ensures state == (if Collides(grid, rows, cols, active) then GameOver else Running)
    {
      this.rows := rows;
      this.cols := cols;
      this.gravityFrames := gravityFrames;
      this.softDropFrames := softDropFrames;
      this.lockDelayFrames := lockDelayFrames;
      grid := EmptyRows(rows, cols);
      state := Running;
      nextQueue, bag := [], [];
      score, linesCleared, frameCounter, lockCounter := 0, 0, 0, 0;
      drawn, spawned := [], [];
      new;
      EmptyRowsWellFormed(rows, cols);
      RefillBag();
      RefillKeepsDealt(drawn, bag);
      QueueOpening();
      SpawnNext();
    }

    /** Draws four kinds from the bag into the (empty) next-queue, in draw order. */
    method QueueOpening()
      requires BagInv() && QueueInv() && nextQueue == []
      modifies this`bag, this`drawn, this`nextQueue
      ensures BagInv() && QueueInv() && |nextQueue| == 4
      ensures Dealing(old(drawn), old(bag)) <= Dealing(drawn, bag)
    {
      for n := 0 to 4
        invariant BagInv() && QueueInv() && |nextQueue| == n
        invariant Dealing(old(drawn), old(bag)) <= Dealing(drawn, bag)
      {
        var k := DrawBag();
        PushNext(k);
      }
    }

    // ----- Random bag -----

    /** Refills the bag with the seven kinds in a shuffled order (any permutation may come out). */
    method RefillBag()
      modifies this`bag
      ensures IsFullBag(bag)
    {
      AllKindsIsFullBag();
      var shuffled :| IsFullBag(shuffled);
      bag := shuffled;
    }

    /** Takes the last kind from the bag, refilling it first only when it is empty. */
    method DrawBag() returns (k: Kind)
      requires BagInv()
      modifies this`bag, this`drawn
      ensures BagInv()
      ensures drawn == old(drawn) + [k]
      ensures old(bag) != [] ==> k == old(bag)[|old(bag)| - 1] && bag == old(bag)[..|old(bag)| - 1]
      ensures old(bag) == [] ==> |bag| == 6
      ensures Dealing(old(drawn), old(bag)) <= Dealing(drawn, bag)
    {
      if bag == [] {
        assert drawn + Reversed(bag) == drawn;
        RefillBag();
        RefillKeepsDealt(drawn, bag);
      }
      PopKeepsDealt(drawn, bag);
      k := bag[|bag| - 1];
      bag := bag[..|bag| - 1];
      drawn := drawn + [k];
    }

    method PushNext(k: Kind)
      modifies this`nextQueue
      ensures nextQueue == old(nextQueue) + [k]
    {
      nextQueue := nextQueue + [k];
    }

    /** Takes the head of the next-queue, first topping it up by one draw if it holds fewer than four. */
    method PopNext() returns (k: Kind)
      requires BagInv() && QueueInv()
      modifies this`bag, this`drawn, this`nextQueue
      ensures BagInv()
      ensures drawn == spawned + [k] + nextQueue
      ensures |old(nextQueue)| > 0 ==> k == old(nextQueue)[0] && old(nextQueue)[1..] <= nextQueue
      ensures |nextQueue| == if |old(nextQueue)| < 4 then |old(nextQueue)| else |old(nextQueue)| - 1
      ensures |old(nextQueue)| >= 4 ==> nextQueue == old(nextQueue)[1..] && bag == old(bag) && drawn == old(drawn)
      ensures |old(nextQueue)| < 4 ==> |drawn| == |old(drawn)| + 1
      ensures Dealing(old(drawn), old(bag)) <= Dealing(drawn, bag)
    {
      if |nextQueue| < 4 {
        var d := DrawBag();
        PushNext(d);
        assert drawn == spawned + nextQueue;
      }
      ghost var full := nextQueue;
      k := nextQueue[0];
      nextQueue := nextQueue[1..];
      assert full == [k] + nextQueue;
      assert |old(nextQueue)| > 0 ==> old(nextQueue)[1..] <= nextQueue by {
        if 0 < |old(nextQueue)| < 4 {
          assert full == old(nextQueue) + [full[|full| - 1]];
          assert nextQueue == old(nextQueue)[1..] + [full[|full| - 1]];
        }
      }
    }

    // ----- Spawning -----

    /**
      Places `kind` at the spawn anchor, tops the next-queue up to four, and
      ends the game if the new piece already collides.
     */
    method Spawn(kind: Kind)
      requires WellFormed(grid, rows, cols) && BagInv() && QueueInv()
      modifies this`active, this`bag, this`drawn, this`nextQueue, this`state
      ensures active == SpawnPiece(kind)
      ensures BagInv() && QueueInv()
      ensures old(nextQueue) <= nextQueue
      ensures |nextQueue| == if |old(nextQueue)| < 4 then 4 else |old(nextQueue)|
      ensures |old(nextQueue)| >= 4 ==> bag == old(bag) && drawn == old(drawn)
      ensures state == if Collides(grid, rows, cols, active) then GameOver else old(state)
      ensures Dealing(old(drawn), old(bag)) <= Dealing(drawn, bag)
    {
      active := SpawnPiece(kind);
      TopUpQueue();
      if Collides(grid, rows, cols, active) {
        state := GameOver;
      }
    }

    /** Draws from the bag into the next-queue until it holds four kinds. */
    method TopUpQueue()
      requires BagInv() && QueueInv()
      modifies this`bag, this`drawn, this`nextQueue
      ensures BagInv() && QueueInv()
      ensures old(nextQueue) <= nextQueue
      ensures |nextQueue| == if |old(nextQueue)| < 4 then 4 else |old(nextQueue)|
      ensures |old(nextQueue)| >= 4 ==> bag == old(bag) && drawn == old(drawn)
      ensures Dealing(old(drawn), old(bag)) <= Dealing(drawn, bag)
    {
      ghost var added: seq<Kind> := [];
      while |nextQueue| < 4
        invariant BagInv() && QueueInv()
        invariant nextQueue == old(nextQueue) + added
        invariant added != [] ==> |old(nextQueue)| < 4 && |nextQueue| <= 4
        invariant added == [] ==> bag == old(bag) && drawn == old(drawn)
        invariant Dealing(old(drawn), old(bag)) <= Dealing(drawn, bag)
        decreases 4 - |nextQueue|
      {
        var k := DrawBag();
        PushNext(k);
        added := added + [k];
      }
    }

    /** Spawns the head of the next-queue. */
    method SpawnNext()
      requires WellFormed(grid, rows, cols) && BagInv() && QueueInv()
      modifies this`active, this`bag, this`drawn, this`nextQueue, this`state, this`spawned
      ensures BagInv() && QueueInv()
      ensures spawned == old(spawned) + [active.kind]
      ensures active == SpawnPiece(active.kind)
      ensures |old(nextQueue)| > 0 ==> active.kind == old(nextQueue)[0] && old(nextQueue)[1..] <= nextQueue
      ensures |nextQueue| == if |old(nextQueue)| <= 5 then 4 else |old(nextQueue)| - 1
      ensures state == if Collides(grid, rows, cols, active) then GameOver else old(state)
      ensures Dealing(old(drawn), old(bag)) <= Dealing(drawn, bag)
    {
      var kind := PopNext();
      spawned := spawned + [kind];
      assert QueueInv();
      Spawn(kind);
    }

    // ----- Collision-checked moves -----

    /** Moves the piece by (`dr`, `dc`) if the moved piece does not collide. */
    method TryMove(dr: int, dc: int) returns (moved: bool)
      requires WellFormed(grid, rows, cols)
      modifies this`active
      ensures moved == !Collides(grid, rows, cols, Shifted(old(active), dr, dc))
      ensures active == if moved then Shifted(old(active), dr, dc) else old(active)
    {
      var p := Shifted(active, dr, dc);
      if !Collides(grid, rows, cols, p) {
        active := p;
        return true;
      }
      return false;
    }

    /**
      Rotates by `dr` quarter turns, trying the kick offsets in table order and
      committing the first candidate that does not collide.
     */
    method TryRotate(dr: int) returns (rotated: bool)
      requires WellFormed(grid, rows, cols)
      modifies this`active
      ensures rotated == (FirstFit(grid, rows, cols, old(active), dr, 0) < |KickTable|)
      ensures active == if rotated then KickCandidate(old(active), dr, FirstFit(grid, rows, cols, old(active), dr, 0))
                        else old(active)
    {
      var orig := active;
      for i := 0 to |KickTable|
        invariant active == orig
        invariant FirstFit(grid, rows, cols, orig, dr, 0) == FirstFit(grid, rows, cols, orig, dr, i)
      {
        var candidate := KickCandidate(orig, dr, i);
        if !Collides(grid, rows, cols, candidate) {
          active := candidate;
          return true;
        }
      }
      return false;
    }

    // ----- Locking -----

    /** Clears every full row, inserting as many empty rows at the top, and counts them. */
    method ClearLines() returns (cleared: nat)
      requires WellFormed(grid, rows, cols)
      modifies this`grid, this`linesCleared
      ensures WellFormed(grid, rows, cols)
      ensures grid == Compacted(old(grid), cols)
      ensures cleared == FullRows(old(grid))
      ensures linesCleared == old(linesCleared) + cleared
    {
      var newGrid := Kept(grid);
      KeptCount(grid);
      cleared := rows - |newGrid|;
      for n := 0 to cleared
        invariant newGrid == EmptyRows(n, cols) + Kept(old(grid))
      {
        assert [EmptyRow(cols)] + EmptyRows(n, cols) == EmptyRows(n + 1, cols);
        newGrid := [EmptyRow(cols)] + newGrid;
      }
      CompactedShape(grid, rows, cols);
      grid := newGrid;
      linesCleared := linesCleared + cleared;
    }

    method UpdateScore(cleared: int)
      modifies this`score
      ensures score == old(score) + ScoreFor(cleared)
    {
      score := score + ScoreFor(cleared);
    }

    /**
      Writes the piece into the grid, clears full rows, scores them, spawns
      the next piece and resets the lock counter.
     */
    method LockActive()
      requires Valid() && state == Running
      modifies this
      ensures Valid()
      ensures LockedFrom(old(Snap()), old(active))
    {
      ghost var s0 := Snap();
      StampActive();
      var cleared := ClearLines();
      UpdateScore(cleared);
      ghost var s1 := Snap();
      assert s1 == s0.(grid := grid, linesCleared := linesCleared, score := score);
      SpawnNext();
      lockCounter := 0;
      assert Snap() == s1.(active := active, state := state, nextQueue := nextQueue, bag := bag,
        drawn := drawn, spawned := spawned, lockCounter := 0);
    }

    /** Writes the falling piece's kind into each of its cells that lies on the board. */
    method StampActive()
      requires WellFormed(grid, rows, cols)
      modifies this`grid
      ensures WellFormed(grid, rows, cols)
      ensures grid == Place(old(grid), rows, cols, active)
    {
      var cells := Cells(active);
      for i := 0 to |cells|
        invariant WellFormed(grid, rows, cols)
        invariant grid == Stamp(old(grid), rows, cols, cells[..i], active.kind)
      {
        var t := cells[i];
        assert cells[..i + 1][..i] == cells[..i];
        if 0 <= t.0 < rows && 0 <= t.1 < cols {
          grid := grid[t.0 := grid[t.0][t.1 := Filled(active.kind)]];
        }
      }
      assert cells[..|cells|] == cells;
    }

    // ----- Stepping -----

    /** Applies one action; once the game is over nothing changes. */
    method Step(action: Action)
      requires Valid()
      modifies this
      ensures Valid()
      ensures old(state) == GameOver ==> Snap() == old(Snap())
      ensures old(state) == Running ==> match action
        case MoveLeft => MovedFrom(old(Snap()), 0, -1)
        case MoveRight => MovedFrom(old(Snap()), 0, 1)
        case SoftDrop => MovedFrom(old(Snap()), 1, 0)
        case RotateCw => RotatedFrom(old(Snap()), 1)
        case RotateCcw => RotatedFrom(old(Snap()), -1)
        case HardDrop => LockedFrom(old(Snap()), Dropped(old(grid), rows, cols, old(active)))
        case Tick => TickedFrom(old(Snap()))
    {
      if state != Running {
        return;
      }
      match action
      case Tick =>
        DoTick();
      case MoveLeft =>
        var _ := TryMove(0, -1);
      case MoveRight =>
        var _ := TryMove(0, 1);
      case SoftDrop =>
        var _ := TryMove(1, 0);
      case HardDrop =>
        DropAndLock();
      case RotateCw =>
        var _ := TryRotate(1);
      case RotateCcw =>
        var _ := TryRotate(-1);
    }

    /** Moves the piece down until one more row would collide, then locks it once. */
    method DropAndLock()
      requires Valid() && state == Running
      modifies this
      ensures Valid()
      ensures LockedFrom(old(Snap()), Dropped(old(grid), rows, cols, old(active)))
    {
      ghost var s0 := Snap();
      while true
        invariant Valid() && state == Running
        invariant Snap() == s0.(active := active)
        invariant Dropped(grid, rows, cols, active) == Dropped(grid, rows, cols, s0.active)
        decreases rows - active.r
      {
        var moved := TryMove(1, 0);
        if !moved {
          break;
        }
        FitsAboveFloor(grid, rows, cols, active);
      }
      LockActive();
    }

    /** One frame of gravity and lock delay. */
    method DoTick()
      requires Valid() && state == Running
      modifies this
      ensures Valid()
      ensures TickedFrom(old(Snap()))
    {
      ghost var s0 := Snap();
      frameCounter := frameCounter + 1;
      if frameCounter % gravityFrames == 0 {
        var moved := TryMove(1, 0);
        if !moved {
          lockCounter := lockCounter + 1;
          if lockCounter >= lockDelayFrames {
            assert Snap() == s0.(frameCounter := s0.frameCounter + 1, lockCounter := s0.lockCounter + 1);
            LockActive();
          }
        } else {
          lockCounter := 0;
        }
      }
    }

    // ----- Queries for rendering -----

    /** The settled cells in row-major order, then the cells of the falling piece, each with its kind. */
    method GetCells() returns (out: seq<(int, int, Kind)>)
      requires WellFormed(grid, rows, cols)
      ensures out == Settled(grid) + Tagged(Cells(active), active.kind)
    {
      var g, piece := grid, active;
      out := [];
      for r := 0 to rows
        invariant out == Settled(g[..r])
      {
        var row := g[r];
        for c := 0 to cols
          invariant out == Settled(g[..r]) + RowSettled(row[..c], r)
        {
          assert row[..c + 1][..c] == row[..c];
          if row[c].Filled? {
            out := out + [(r, c, row[c].kind)];
          }
        }
        assert row[..cols] == row;
        assert g[..r + 1][..r] == g[..r];
      }
      assert g[..rows] == g;
      var cells := Cells(piece);
      for i := 0 to |cells|
        invariant out == Settled(g) + Tagged(cells[..i], piece.kind)
      {
        assert cells[..i + 1][..i] == cells[..i];
        out := out + [(cells[i].0, cells[i].1, piece.kind)];
      }
      assert cells[..|cells|] == cells;
    }

    /** Where the falling piece would come to rest if dropped straight down; the state is untouched. */
    method GhostCells() returns (cells: seq<(int, int)>)
      requires WellFormed(grid, rows, cols)
      ensures cells == Cells(Dropped(grid, rows, cols, active))
    {
      var shadow := active;
      while !Collides(grid, rows, cols, Shifted(shadow, 1, 0))
        invariant Dropped(grid, rows, cols, shadow) == Dropped(grid, rows, cols, active)
        decreases rows - shadow.r
      {
        FitsAboveFloor(grid, rows, cols, Shifted(shadow, 1, 0));
        shadow := Shifted(shadow, 1, 0);
      }
      cells := Cells(shadow);
    }

    /** The whole next-queue, untruncated. */
    function NextQueue(): (q: seq<Kind>)
      reads this
      requires Valid()
      ensures |q| == 4 && q == nextQueue
    {
      nextQueue
    }

    /** The bag never holds the same kind twice. */
    lemma BagHasNoDuplicates()
      requires BagInv()
      ensures NoDuplicates(bag)
    {
      DealtBagHasNoDuplicates(drawn, bag);
    }

    /** 7-bag fairness of the spawn order: between two spawns of a kind come at most 12 other pieces. */
    lemma SpawnOrderIsFair(i: nat, j: nat)
      requires Valid()
      requires i < j < |spawned| && spawned[i] == spawned[j]
      requires forall m :: i < m < j ==> spawned[m] != spawned[i]
      ensures j - i - 1 <= 12
    {
      assert spawned <= drawn;
      FairPrefixGap(drawn, bag, spawned, i, j);
    }
  }
}
