/**
 * `Invader` of src/game/invader.rs: a labelled box that walks down the game
 * pane one row per macro step.
 */
module InvaderEntity {
  /** Largest `u16`: `row` is a `u16`, so `row += 1` at this value panics. */
  const U16_MAX: int := 0xFFFF

  /**
   * The value of an invader. `Invader` derives `Copy`, so `to_shoot` hands out
   * copies and an arrow keeps the copy it was fired at: a snapshot of this type.
   */
  datatype InvaderState = InvaderState(value: int, row: int, col: int, visible: bool)

  /** The state after `move_forward`. */
  function Moved(s: InvaderState): InvaderState
  {
    if s.visible then s.(row := s.row + 1) else s
  }

  class Invader {
    const value: int
    var row: int
    const col: int
    var visible: bool

    function State(): InvaderState
      reads this
    {
      InvaderState(value, row, col, visible)
    }

    /** `Invader::new(row, col, value)`: a visible invader at (row, col). */
    constructor (row: int, col: int, value: int)
      ensures this.row == row && this.col == col && this.value == value && visible
    {
      this.value := value;
      this.row := row;
      this.col := col;
      this.visible := true;
    }

    /** `move_forward`: one row down while visible; an invisible invader stays put. */
    method MoveForward()
      requires visible ==> row < U16_MAX
      modifies this`row
      ensures visible ==> row == old(row) + 1
      ensures !visible ==> row == old(row)
      ensures State() == Moved(old(State()))
    {
      if visible {
        row := row + 1;
      }
    }

    /**
     * The state effect of the asynchronous `remove`: it hides the invader and
     * leaves its place and label alone. The effect only happens when the future
     * is awaited, which the game never does.
     */
    method Remove()
      modifies this`visible
      ensures !visible
      ensures State() == old(State()).(visible := false)
    {
      visible := false;
    }
  }
}
