/**
 * The draft `Game` of src/game.rs. Its state and most of its operations
 * (`zero_input`, `to_shoot`, `shoot`, `generate_invader`,
 * `invaders_move_forward`, `arrow_move_forward`, `remove_invader`) are the
 * same code as the final `Game` of src/game/game.rs, so a draft game is a
 * final one with no score board, and those operations are the final model's.
 * What differs is modelled here: keys arrive as bit indices, the invaders
 * move every 800th iteration, and game over panics instead of starting over.
 */
module GameDraft {
  import opened Wrappers
  import opened InputBits
  import opened LabelRegistry
  import opened InvaderEntity
  import opened Rules
  import opened GameCore

  /** The invaders move on every 800th iteration of the loop of `start`. */
  const DRAFT_MACRO_PERIOD: nat := 800

  class DraftGame {
    /** The fields `screen_rows`, `screen_cols` (here `gameCols`), the accumulator, score, arrows and invaders. */
    const game: Game

    ghost predicate Valid()
      reads this, game
    {
      game.Valid() && game.scoreBoardCols == 0
    }

    /** `Game::new(screen_rows, screen_cols, kb_rx, invader_distance)`: a cleared game. */
    constructor (screenRows: int, screenCols: int, invaderDistance: int)
      requires 10 <= screenRows <= U16_MAX && 80 <= screenCols <= U16_MAX
      requires 0 <= invaderDistance && invaderDistance + 4 <= U16_MAX
      ensures Valid() && game.Cleared() && fresh(game)
      ensures game.screenRows == screenRows && game.gameCols == screenCols
      ensures game.invaderDistance == invaderDistance
    {
      game := new Game(screenRows, screenCols, 0, invaderDistance);
    }

    /**
     * `update_input`: the input thread sends `raw_key - b'1'` for b'1' ..= b'8'
     * only, so an index below 8 arrives; it flips that bit. Then the byte is
     * recomposed from all eight bits.
     */
    method UpdateInput(key: Option<nat>)
      requires Valid()
      requires key.Some? ==> key.value < WIDTH
      modifies game`inputBuf, game`inputValue
      ensures Valid()
      ensures game.inputBuf == Flip(old(game.inputBuf), key)
      ensures key.Some? ==> var k := key.value;
        game.inputValue == old(game.inputValue) + (1 - 2 * old(game.inputBuf)[k]) * Pow2(WIDTH - 1 - k)
      ensures key.None? ==> game.inputBuf == old(game.inputBuf) && game.inputValue == old(game.inputValue)
    {
      if key.Some? {
        var k := key.value;
        game.inputBuf := game.inputBuf[k := 1 - game.inputBuf[k]];
        ToggleChangesValue(old(game.inputBuf), k);
      }
      game.Recompose();
    }

    /**
     * The input part of an iteration: `update_input` flips the received bit,
     * and the fire check then acts on the byte that update composed.
     */
    method InputStep(key: Option<nat>)
      requires Valid()
      requires key.Some? ==> key.value < WIDTH
      modifies game`arrows, game`inputBuf, game`inputValue, game`currentScore
      ensures Valid()
      ensures game.FiredOn(Flip(old(game.inputBuf), key), old(game.arrows), old(game.currentScore))
    {
      UpdateInput(key);
      var _ := game.FireCheck();
    }

    /**
     * The arrows' part of an iteration, when `due`, then the input part;
     * `false` when the removal of an arrived label panics, before the input.
     */
    method ShootStep(due: bool, key: Option<nat>) returns (survived: bool)
      requires Valid()
      requires key.Some? ==> key.value < WIDTH
      modifies game
      ensures Valid()
      ensures survived <==> !HitPanics(old(game.invaders), HitLabel(due, old(game.arrows)))
      ensures survived ==> var hit := HitLabel(due, old(game.arrows));
        && game.invaders == AfterHit(old(game.invaders), hit)
        && game.hexValues == FreedBy(old(game.hexValues), hit)
        && game.FiredOn(Flip(old(game.inputBuf), key), FlownArrows(due, old(game.arrows)), old(game.currentScore))
    {
      survived := game.ArrowStep(due);
      if survived {
        InputStep(key);
      }
    }

    /**
     * One iteration of the loop of `start`: every 800th the invaders move and a
     * crossing panics with "GAME OVER"; every 25th the arrows move and a hit
     * removes an invader, which panics on an empty list; then the input is
     * read and a matching invader is shot for one point. `alive == false` is a
     * panic, after which the game thread is gone.
     */
    method Tick(counter: nat, key: Option<nat>, draws: seq<Draw>) returns (alive: bool, nextCounter: nat)
      requires Valid()
      requires key.Some? ==> key.value < WIDTH
      requires ValidDraws(draws, game.gameCols)
      requires counter % DRAFT_MACRO_PERIOD == 0 && SpawnDue(game.invaders, game.invaderDistance) ==>
        HasAvailable(draws, game.hexValues)
      modifies game
      ensures alive ==> Valid()
      ensures !alive <==>
        || old(game.CrossesOn(counter % DRAFT_MACRO_PERIOD == 0, draws))
        || HitPanics(old(game.MarchedInvaders(counter % DRAFT_MACRO_PERIOD == 0, draws)),
                     HitLabel(counter % ARROW_PERIOD == 0, old(game.arrows)))
      ensures nextCounter == if alive then counter + 1 else counter
      ensures alive ==> var hit := HitLabel(counter % ARROW_PERIOD == 0, old(game.arrows));
        && game.invaders == AfterHit(old(game.MarchedInvaders(counter % DRAFT_MACRO_PERIOD == 0, draws)), hit)
        && game.hexValues == FreedBy(old(game.MarchedRegistry(counter % DRAFT_MACRO_PERIOD == 0, draws)), hit)
      ensures alive ==>
        game.FiredOn(Flip(old(game.inputBuf), key), FlownArrows(counter % ARROW_PERIOD == 0, old(game.arrows)),
                     old(game.currentScore))
    {
      var notOver := game.MacroStep(counter % DRAFT_MACRO_PERIOD == 0, draws);
      if !notOver {
        return false, counter;
      }
      var survived := ShootStep(counter % ARROW_PERIOD == 0, key);
      if !survived {
        return false, counter;
      }
      return true, counter + 1;
    }
  }
}
