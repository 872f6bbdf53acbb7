/**
 * The first `Invader`, of src/invader.rs: the same record as the final one,
 * but its only move, `proceed`, ignores `visible`.
 */
module InvaderDraft {
  import opened InvaderEntity

  /** The state after `proceed`: one row down, visible or not. */
  function Proceeded(s: InvaderState): (r: InvaderState)
    requires s.row < U16_MAX
    ensures r.row == s.row + 1 && r.row <= U16_MAX
    ensures r.value == s.value && r.col == s.col && r.visible == s.visible
  {
    s.(row := s.row + 1)
  }

  /**
   * `proceed` and the final `move_forward` agree on a visible invader; on a
   * hidden one `move_forward` stays put while `proceed` still moves it.
   */
  lemma ProceedVersusMoveForward(s: InvaderState)
    requires s.row < U16_MAX
    ensures s.visible <==> Proceeded(s) == Moved(s)
  {
  }

  class Invader {
    const value: int
    var row: int
    const col: int
    /** Set by `new` and never assigned again in this version. */
    const visible: bool

    function State(): InvaderState
      reads this
    {
      InvaderState(value, row, col, visible)
    }

    /** `Invader::new(row, col, value)`: a visible invader at (row, col). */
    constructor (row: int, col: int, value: int)
      ensures this.row == row && this.col == col && this.value == value && visible
    {
      this.value := value;
      this.row := row;
      this.col := col;
      this.visible := true;
    }

    /** `proceed`: `row += 1` on a `u16`, which panics at 65535. */
    method Proceed()
      requires row < U16_MAX
      modifies this`row
      ensures row == old(row) + 1
      ensures State() == Proceeded(old(State()))
    {
      row := row + 1;
    }
  }
}
