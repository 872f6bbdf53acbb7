/**
 * `Arrow` of src/game/arrow.rs: a shot that climbs from the gun line towards
 * the row of the invader it was fired at.
 */
module ArrowEntity {
  import opened InvaderEntity

  /** The part of an arrow the game reads: its row, its visibility and its target snapshot. */
  datatype ArrowState = ArrowState(currentRow: int, visible: bool, target: InvaderState)

  /** The flight state after `move_forward`. */
  function Flown(a: ArrowState): ArrowState
  {
    a.(currentRow := a.currentRow - 1)
  }

  /** The arrival test of `arrow_move_forward`, `current_row + 1 == target.row`. */
  predicate ArrivedAt(a: ArrowState)
  {
    a.currentRow + 1 == a.target.row
  }

  class Arrow {
    const totalRows: int
    var currentRow: int
    var visible: bool
    /** A copy of the invader taken when the arrow was fired; later moves of that invader do not reach it. */
    const target: InvaderState

    function State(): ArrowState
      reads this
    {
      ArrowState(currentRow, visible, target)
    }

    /** `Arrow::new(total_rows, target)`: a visible arrow on the gun line, `total_rows - 3` (a `u16` subtraction). */
    constructor (totalRows: int, target: InvaderState)
      requires 3 <= totalRows <= U16_MAX
      ensures this.totalRows == totalRows && this.target == target
      ensures currentRow == totalRows - 3 && visible
    {
      this.totalRows := totalRows;
      this.currentRow := totalRows - 3;
      this.visible := true;
      this.target := target;
    }

    /** `move_forward`: one row up; `current_row` is a `u16`, so it must be positive. */
    method MoveForward()
      requires currentRow > 0
      modifies this`currentRow
      ensures currentRow == old(currentRow) - 1
      ensures State() == Flown(old(State()))
    {
      currentRow := currentRow - 1;
    }

    /** The state effect of `remove`: the arrow is hidden where it stands. */
    method Remove()
      modifies this`visible
      ensures !visible
      ensures State() == old(State()).(visible := false)
    {
      visible := false;
    }
  }

  /**
   * The flight of one arrow fired at an invader on row `target.row`: starting
   * from `Arrow::new`, it moves until the arrival test holds. The test first
   * holds after exactly `total_rows - 2 - target.row` moves, and no move
   * underflows `current_row`.
   */
  method FlightLength(totalRows: int, target: InvaderState) returns (moves: nat)
    requires 4 <= totalRows <= U16_MAX
    requires 1 <= target.row <= totalRows - 3
    ensures moves == totalRows - 2 - target.row
  {
    var arrow := new Arrow(totalRows, target);
    arrow.MoveForward();
    moves := 1;
    while !ArrivedAt(arrow.State())
      invariant arrow.currentRow == totalRows - 3 - moves
      invariant arrow.target == target
      invariant 1 <= moves <= totalRows - 2 - target.row
      decreases arrow.currentRow
    {
      arrow.MoveForward();
      moves := moves + 1;
    }
  }
}
