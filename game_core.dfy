/**
 * `Game` of src/game/game.rs without its drawing: the input accumulator, the
 * score, the arrows in flight, the invaders on screen and the label registry,
 * and one iteration of the loop in `start` as a step of a small state machine.
 */
module GameCore {
  import opened Wrappers
  import opened InputBits
  import opened LabelRegistry
  import opened InvaderEntity
  import opened ArrowEntity
  import opened Rules

  /** The invaders move on every 650th iteration of the inner loop of `start`. */
  const MACRO_PERIOD: nat := 650
  /** The arrows move on every 25th iteration. */
  const ARROW_PERIOD: nat := 25

  /**
   * Where `start` is: blocked on the channel waiting for the space key, inside
   * the inner loop of a round, or stopped because the game thread panicked.
   */
  datatype Phase = AwaitingStart | Running | Panicked

  class Game {
    const screenRows: int
    const gameCols: int
    const scoreBoardCols: int
    const invaderDistance: int
    var inputBuf: seq<int>
    var inputValue: int
    var currentScore: nat
    /** `Vec<Arrow>`; an arrow's flight state, element by element. */
    var arrows: seq<ArrowState>
    var hexValues: Registry
    /** `Vec<Invader>`; `Invader` is `Copy`, so the list holds values. */
    var invaders: seq<InvaderState>

    /**
     * The sizes the model admits, as `u16` values: at least 80 game columns and
     * 10 rows, as src/game/main.rs demands. This is a superset of what main.rs
     * produces (its score board has at least 35 columns, and the two widths add
     * up to the terminal's); the draft game needs a score board of 0 columns.
     */
    predicate Config()
      reads this
    {
      && 10 <= screenRows <= U16_MAX
      && 80 <= gameCols <= U16_MAX
      && 0 <= scoreBoardCols <= U16_MAX
      && 0 <= invaderDistance && invaderDistance + 4 <= U16_MAX
    }

    /** The last row an invader may reach; one row further ends the round. */
    function Limit(): int
      reads this
    {
      screenRows - 4
    }

    /** A well-formed accumulator: eight 0/1 bits, and the byte they spell. */
    ghost predicate InputValid()
      reads this
    {
      IsBuffer(inputBuf) && inputValue == Compose(inputBuf)
    }

    /**
     * Listed invaders are visible, on rows 1 ..= screen_rows - 4, with
     * distinct labels in 1..=0xFF that the registry maps to true.
     */
    ghost predicate InvadersValid()
      reads this
    {
      && LabelsUnique(invaders) && Registered(invaders, hexValues) && LabelsInRange(invaders)
      && (forall i :: 0 <= i < |invaders| ==> invaders[i].visible && 1 <= invaders[i].row <= Limit())
    }

    /** Each visible arrow is still below or level with its target's row, which is at least 1. */
    ghost predicate ArrowsValid()
      reads this
    {
      forall i :: 0 <= i < |arrows| && arrows[i].visible ==>
        1 <= arrows[i].target.row <= arrows[i].currentRow
    }

    /** The invariant of the game between two steps. */
    ghost predicate Valid()
      reads this
    {
      Config() && InputValid() && InvadersValid() && ArrowsValid()
    }

    /** A cleared game: no invaders, arrows or registered labels, zero bits, value and score. */
    ghost predicate Cleared()
      reads this
    {
      inputBuf == Zeros() && inputValue == 0 && currentScore == 0
      && arrows == [] && hexValues == map[] && invaders == []
    }

    /** `Game::new`: a cleared game on a screen of the given size. */
    constructor (screenRows: int, gameCols: int, scoreBoardCols: int, invaderDistance: int)
      requires 10 <= screenRows <= U16_MAX && 80 <= gameCols <= U16_MAX && 0 <= scoreBoardCols <= U16_MAX
      requires 0 <= invaderDistance && invaderDistance + 4 <= U16_MAX
      ensures Valid() && Cleared()
      ensures this.screenRows == screenRows && this.gameCols == gameCols
      ensures this.scoreBoardCols == scoreBoardCols && this.invaderDistance == invaderDistance
    {
      this.screenRows := screenRows;
      this.gameCols := gameCols;
      this.scoreBoardCols := scoreBoardCols;
      this.invaderDistance := invaderDistance;
      inputBuf := Zeros();
      inputValue := 0;
      ZeroValueIffCleared(Zeros());
      currentScore := 0;
      arrows := [];
      hexValues := map[];
      invaders := [];
    }

    /**
     * `clear_data`, run on game over: everything but the screen geometry and
     * the invader spacing (constants here) is reset.
     */
    method ClearData()
      requires Config()
      modifies this
      ensures Valid() && Cleared()
    {
      inputBuf := Zeros();
      inputValue := 0;
      ZeroValueIffCleared(Zeros());
      currentScore := 0;
      arrows := [];
      hexValues := map[];
      invaders := [];
    }

    /** `zero_input`: all eight bits and the composed byte become 0. */
    method ZeroInput()
      requires Valid()
      modifies this`inputBuf, this`inputValue
      ensures Valid()
      ensures inputBuf == Zeros() && inputValue == 0
    {
      inputBuf := Zeros();
      inputValue := 0;
      ZeroValueIffCleared(Zeros());
    }

    /**
     * The loop that ends `update_input`: `input_value = (input_value << 1) | bit`
     * for each bit, in `u8`. Eight shifts push every old bit out, so the byte
     * is the big-endian value of the eight bits, whatever it was before.
     */
    method Recompose()
      requires IsBuffer(inputBuf)
      modifies this`inputValue
      ensures inputValue == ShiftIn(old(inputValue), inputBuf) == Compose(inputBuf)
    {
      ghost var v0 := inputValue;
      var i := 0;
      while i < |inputBuf|
        invariant 0 <= i <= |inputBuf|
        invariant ShiftIn(inputValue, inputBuf[i..]) == ShiftIn(v0, inputBuf)
      {
        assert inputBuf[i..][1..] == inputBuf[i + 1..];
        inputValue := ShiftStep(inputValue, inputBuf[i]);
        i := i + 1;
      }
      ShiftInForgetsOldValue(v0, inputBuf);
    }

    /**
     * `update_input` with the result of one `try_recv` (None when nothing
     * arrived). A key flips one bit, `input_buf[raw_key - b'1'] ^= 1`; a key
     * outside b'1' ..= b'8' (the input thread also forwards b' ') panics before
     * any change, reported as `ok == false`. Then the byte is recomposed from
     * all eight bits.
     */
    method UpdateInput(key: Option<int>) returns (ok: bool)
      requires Valid()
      requires key.Some? ==> 0 <= key.value < BYTE
      modifies this`inputBuf, this`inputValue
      ensures Valid()
      ensures ok <==> ReadsKey(key)
      ensures ok ==> inputBuf == Flip(old(inputBuf), KeyBit(key))
      ensures ok && key.Some? ==> inputBuf == Toggle(old(inputBuf), key.value - KEY_ONE)
      ensures ok && key.Some? ==> var k := key.value - KEY_ONE;
        inputValue == old(inputValue) + (1 - 2 * old(inputBuf)[k]) * Pow2(WIDTH - 1 - k)
      ensures ok && key.None? ==> inputBuf == old(inputBuf) && inputValue == old(inputValue)
      ensures !ok ==> inputBuf == old(inputBuf) && inputValue == old(inputValue)
    {
      if key.Some? {
        var index := KeyIndex(key.value);
        if index.None? {
          return false;
        }
        var k := index.value;
        inputBuf := inputBuf[k := 1 - inputBuf[k]];
        ToggleChangesValue(old(inputBuf), k);
      }
      Recompose();
      return true;
    }

    /**
     * `to_shoot`: a copy of the first visible invader whose label equals
     * `input_value`, or None when no visible invader carries that label.
     */
    function ToShoot(): (r: Option<InvaderState>)
      reads this
      ensures r.Some? ==> Shootable(r.value, inputValue)
      ensures r.Some? ==>
        exists k :: 0 <= k < |invaders| && invaders[k] == r.value && forall j :: 0 <= j < k ==> !Shootable(invaders[j], inputValue)
      ensures r.None? <==> forall i :: 0 <= i < |invaders| ==> !Shootable(invaders[i], inputValue)
    {
      match FirstShootable(invaders, inputValue)
      case None => None
      case Some(k) => Some(invaders[k])
    }

    /** `shoot`: one new arrow, built by `Arrow::new` on the gun line, aimed at a copy of `target`. */
    method Shoot(target: InvaderState)
      requires Valid()
      requires target in invaders
      modifies this`arrows
      ensures Valid()
      ensures arrows == old(arrows) + [ArrowState(screenRows - 3, true, target)]
    {
      var arrow := new Arrow(screenRows, target);
      arrows := arrows + [arrow.State()];
    }

    /**
     * The check after `update_input` in the loop of `start`: when `to_shoot`
     * finds a target, `shoot` at it, `zero_input`, and add one to the score.
     * Since no invader carries label 0, nothing is shootable right after.
     */
    method FireCheck() returns (fired: bool)
      requires Valid()
      modifies this`arrows, this`inputBuf, this`inputValue, this`currentScore
      ensures Valid()
      ensures fired <==> old(ToShoot()).Some?
      ensures fired ==> arrows == old(arrows) + [ArrowState(screenRows - 3, true, old(ToShoot()).value)]
      ensures fired ==> inputBuf == Zeros() && inputValue == 0 && currentScore == old(currentScore) + 1
      ensures fired ==> ToShoot().None?
      ensures FiredOn(old(inputBuf), old(arrows), old(currentScore))
      ensures !fired ==> arrows == old(arrows) && inputBuf == old(inputBuf)
      ensures !fired ==> inputValue == old(inputValue) && currentScore == old(currentScore)
    {
      var invaderToShoot := ToShoot();
      fired := invaderToShoot.Some?;
      if fired {
        Shoot(invaderToShoot.value);
        ZeroInput();
        currentScore := currentScore + 1;
        ZeroNeverShootable(invaders);
      }
    }

    /**
     * `generate_invader`: the retry loop runs through the draws until one has a
     * label the registry does not map to true, registers that label and appends
     * a visible invader, built by `Invader::new`, on row 1 at the drawn column.
     * Labels stay unique.
     */
    method GenerateInvader(draws: seq<Draw>) returns (used: nat)
      requires Valid()
      requires ValidDraws(draws, gameCols) && HasAvailable(draws, hexValues)
      modifies this`hexValues, this`invaders
      ensures Valid()
      ensures used == FirstAvailable(draws, old(hexValues))
      ensures hexValues == old(hexValues)[draws[used].val := true]
      ensures invaders == old(invaders) + [InvaderState(draws[used].val, 1, draws[used].col, true)]
    {
      used := 0;
      while true
        invariant used <= FirstAvailable(draws, hexValues)
        invariant hexValues == old(hexValues) && invaders == old(invaders)
        decreases FirstAvailable(draws, hexValues) - used
      {
        var d := draws[used];
        var valIsUnique := (d.val in hexValues && !hexValues[d.val]) || d.val !in hexValues;
        if valIsUnique {
          var invader := new Invader(1, d.col, d.val);
          AddingFreeLabelKeepsRegistry(invaders, hexValues, invader.State());
          hexValues := hexValues[d.val := true];
          invaders := invaders + [invader.State()];
          break;
        }
        used := used + 1;
      }
    }

    /** The invaders the movement pass starts from: the current list, plus the invader `generate_invader` appends when a spawn is due. */
    function WithSpawn(s: seq<InvaderState>, reg: Registry, draws: seq<Draw>): (r: seq<InvaderState>)
      reads this
      requires SpawnDue(s, invaderDistance) ==> HasAvailable(draws, reg)
      ensures SpawnDue(s, invaderDistance) ==> |r| == |s| + 1 && r[..|s|] == s && r[|s|].row == 1
      ensures !SpawnDue(s, invaderDistance) ==> r == s
    {
      if SpawnDue(s, invaderDistance) then
        var d := draws[FirstAvailable(draws, reg)];
        s + [InvaderState(d.val, 1, d.col, true)]
      else s
    }

    /**
     * The first part of `invaders_move_forward`: `generate_invader` when the
     * list is empty or its last invader is on row `invader_distance + 4`.
     */
    method SpawnIfDue(draws: seq<Draw>)
      requires Valid()
      requires ValidDraws(draws, gameCols)
      requires SpawnDue(invaders, invaderDistance) ==> HasAvailable(draws, hexValues)
      modifies this`hexValues, this`invaders
      ensures Valid()
      ensures invaders == WithSpawn(old(invaders), old(hexValues), draws)
      ensures hexValues == if SpawnDue(old(invaders), invaderDistance)
        then old(hexValues)[draws[FirstAvailable(draws, old(hexValues))].val := true]
        else old(hexValues)
    {
      if |invaders| > 0 {
        if invaders[|invaders| - 1].row == invaderDistance + 4 {
          var _ := GenerateInvader(draws);
        }
      } else {
        var _ := GenerateInvader(draws);
      }
    }

    /**
     * The second part of `invaders_move_forward`: each invader in turn moves
     * down one row, and the pass stops with `false` at the first one past row
     * `screen_rows - 4`; the ones after it do not move.
     */
    method MoveInvaders() returns (ok: bool)
      modifies this`invaders
      ensures invaders == AdvanceInvaders(old(invaders), Limit())
      ensures ok == FirstOver(old(invaders), Limit()).None?
    {
      ghost var pre := invaders;
      var i := 0;
      while i < |invaders|
        invariant 0 <= i <= |invaders| == |pre|
        invariant forall j :: 0 <= j < i ==> invaders[j] == Moved(pre[j]) && Moved(pre[j]).row <= Limit()
        invariant forall j :: i <= j < |invaders| ==> invaders[j] == pre[j]
      {
        invaders := invaders[i := Moved(invaders[i])];
        if invaders[i].row > Limit() {
          InvaderPassStops(pre, invaders, Limit(), i);
          return false;
        }
        i := i + 1;
      }
      InvaderPassCompletes(pre, invaders, Limit());
      return true;
    }

    /**
     * `invaders_move_forward`: spawn when due, then move. Returns `true`, and
     * keeps the game invariant, exactly when every invader moved and none is
     * past row `screen_rows - 4`.
     */
    method InvadersMoveForward(draws: seq<Draw>) returns (ok: bool)
      requires Valid()
      requires ValidDraws(draws, gameCols)
      requires SpawnDue(invaders, invaderDistance) ==> HasAvailable(draws, hexValues)
      modifies this`hexValues, this`invaders
      ensures ok ==> Valid()
      ensures var pre := WithSpawn(old(invaders), old(hexValues), draws);
        && invaders == AdvanceInvaders(pre, Limit())
        && ok == FirstOver(pre, Limit()).None?
      ensures hexValues == if SpawnDue(old(invaders), invaderDistance)
        then old(hexValues)[draws[FirstAvailable(draws, old(hexValues))].val := true]
        else old(hexValues)
    {
      SpawnIfDue(draws);
      ghost var pre := invaders;
      ok := MoveInvaders();
      if ok {
        AdvanceKeepsInvariant(pre, hexValues, Limit());
      }
    }

    /**
     * `arrow_move_forward`: each visible arrow in turn moves up one row; the
     * first one whose row is then just below its target's (`current_row + 1 ==
     * target.row`) is hidden and its target's label returned, and the arrows
     * after it keep their rows. None when no arrow arrives.
     */
    method ArrowMoveForward() returns (hit: Option<int>)
      requires Valid()
      modifies this`arrows
      ensures Valid()
      ensures arrows == AdvanceArrows(old(arrows))
      ensures hit == ArrivedLabel(old(arrows))
    {
      ghost var pre := arrows;
      var i := 0;
      while i < |arrows|
        invariant 0 <= i <= |arrows| == |pre|
        invariant forall j :: 0 <= j < i ==> arrows[j] == StepArrow(pre[j]) && !ArrivesNow(pre[j])
        invariant forall j :: i <= j < |arrows| ==> arrows[j] == pre[j]
        invariant ArrowsValid()
      {
        var arrow := arrows[i];
        if arrow.visible {
          arrow := Flown(arrow);
          if arrow.currentRow + 1 == arrow.target.row {
            arrows := arrows[i := arrow.(visible := false)];
            ArrowPassStops(pre, arrows, i);
            return Some(arrow.target.value);
          }
          arrows := arrows[i := arrow];
        }
        i := i + 1;
      }
      ArrowPassCompletes(pre, arrows);
      return None;
    }

    /**
     * The index `remove_invader(val)` deletes, found by its `enumerate` loop:
     * the last invader labelled `val`, or 0 when none is.
     */
    method IndexToRemove(val: int) returns (index: nat)
      ensures index == RemovalIndex(invaders, val)
      ensures index > 0 ==> index < |invaders| && invaders[index].value == val
    {
      index := 0;
      var i := 0;
      while i < |invaders|
        invariant 0 <= i <= |invaders|
        invariant index == RemovalIndex(invaders[..i], val)
      {
        assert invaders[..i + 1][..i] == invaders[..i];
        if invaders[i].value == val {
          index := i;
        }
        i := i + 1;
      }
      assert invaders[..i] == invaders;
    }

    /**
     * `remove_invader(val)`: frees `val` in the registry and deletes one
     * element, the last invader labelled `val`, or the first invader when none
     * is. `Vec::remove(0)` on an empty list panics: `ok == false`.
     * (`Invader::remove` is an `async fn` called without `.await`: its future is
     * dropped and the invader is not touched.)
     */
    method RemoveInvader(val: int) returns (ok: bool)
      requires Valid()
      modifies this`hexValues, this`invaders
      ensures Valid()
      ensures hexValues == old(hexValues)[val := false]
      ensures ok <==> |old(invaders)| > 0
      ensures ok ==> invaders == RemoveAt(old(invaders), RemovalIndex(old(invaders), val))
      ensures ok ==> forall i :: 0 <= i < |invaders| ==> invaders[i].value != val
      ensures !ok ==> invaders == old(invaders)
    {
      if |invaders| > 0 {
        RemovalKeepsRegistry(invaders, hexValues, val);
      }
      hexValues := hexValues[val := false];
      var indexToRemove := IndexToRemove(val);
      if |invaders| == 0 {
        return false;
      }
      invaders := invaders[..indexToRemove] + invaders[indexToRemove + 1..];
      return true;
    }

    /**
     * `game_over` places its text at rows `(screen_rows / 2) - 6 + c`, computed
     * in `u16`: on fewer than 12 rows the subtraction underflows and panics.
     */
    predicate GameOverFits()
    {
      screenRows / 2 >= 6
    }

    /** The movement pass of an iteration, run when `due`, finds an invader past the limit: game over. */
    ghost predicate CrossesOn(due: bool, draws: seq<Draw>)
      reads this
      requires due && SpawnDue(invaders, invaderDistance) ==> HasAvailable(draws, hexValues)
    {
      due && FirstOver(WithSpawn(invaders, hexValues, draws), Limit()).Some?
    }

    /** The invaders after the invaders' part of an iteration: spawned and moved when `due`. */
    ghost function MarchedInvaders(due: bool, draws: seq<Draw>): seq<InvaderState>
      reads this
      requires due && SpawnDue(invaders, invaderDistance) ==> HasAvailable(draws, hexValues)
    {
      if due then AdvanceInvaders(WithSpawn(invaders, hexValues, draws), Limit()) else invaders
    }

    /** The registry after the invaders' part of an iteration: the spawned label registered. */
    ghost function MarchedRegistry(due: bool, draws: seq<Draw>): Registry
      reads this
      requires due && SpawnDue(invaders, invaderDistance) ==> HasAvailable(draws, hexValues)
    {
      if due && SpawnDue(invaders, invaderDistance)
      then hexValues[draws[FirstAvailable(draws, hexValues)].val := true]
      else hexValues
    }

    /**
     * What the fire check left, when it ran on the buffer `buf` with the arrows
     * `flown` and the score `score`: if the byte of `buf` labels a visible
     * invader, one arrow at the first such invader, a zeroed buffer and one
     * point more; otherwise `buf`, `flown` and `score` as they were.
     */
    ghost predicate FiredOn(buf: seq<int>, flown: seq<ArrowState>, score: nat)
      reads this
      requires AllBits(buf)
    {
      var target := FirstShootable(invaders, Compose(buf));
      if target.Some?
      then arrows == flown + [ArrowState(screenRows - 3, true, invaders[target.value])]
        && inputBuf == Zeros() && currentScore == score + 1
      else arrows == flown && inputBuf == buf && currentScore == score
    }

    /** The invaders' part of an iteration: `invaders_move_forward` when `due`. */
    method MacroStep(due: bool, draws: seq<Draw>) returns (alive: bool)
      requires Valid()
      requires ValidDraws(draws, gameCols)
      requires due && SpawnDue(invaders, invaderDistance) ==> HasAvailable(draws, hexValues)
      modifies this`hexValues, this`invaders
      ensures alive ==> Valid()
      ensures alive <==> !old(CrossesOn(due, draws))
      ensures invaders == old(MarchedInvaders(due, draws))
      ensures hexValues == old(MarchedRegistry(due, draws))
    {
      alive := true;
      if due {
        alive := InvadersMoveForward(draws);
      }
    }

    /**
     * The arrows' part of an iteration: `arrow_move_forward` when `due`, and
     * `remove_invader` of the label it returns; `false` when that removal panics.
     */
    method ArrowStep(due: bool) returns (survived: bool)
      requires Valid()
      modifies this`arrows, this`hexValues, this`invaders
      ensures Valid()
      ensures arrows == FlownArrows(due, old(arrows))
      ensures var hit := HitLabel(due, old(arrows));
        && invaders == AfterHit(old(invaders), hit)
        && hexValues == FreedBy(old(hexValues), hit)
        && (survived <==> !HitPanics(old(invaders), hit))
      ensures survived && HitLabel(due, old(arrows)).Some? ==>
        forall i :: 0 <= i < |invaders| ==> invaders[i].value != HitLabel(due, old(arrows)).value
    {
      survived := true;
      if due {
        var shotInvader := ArrowMoveForward();
        if shotInvader.Some? {
          survived := RemoveInvader(shotInvader.value);
        }
      }
    }

    /**
     * The input part of an iteration: `update_input` reads `key`, and the fire
     * check then acts on the byte that update composed. A key outside
     * b'1' ..= b'8' panics in `update_input`: `ok == false`, nothing changed.
     */
    method InputStep(key: Option<int>) returns (ok: bool)
      requires Valid()
      requires key.Some? ==> 0 <= key.value < BYTE
      modifies this`arrows, this`inputBuf, this`inputValue, this`currentScore
      ensures Valid()
      ensures ok <==> ReadsKey(key)
      ensures ok ==> FiredOn(Flip(old(inputBuf), KeyBit(key)), old(arrows), old(currentScore))
      ensures !ok ==> unchanged(this)
    {
      ok := UpdateInput(key);
      if ok {
        var _ := FireCheck();
      }
    }

    /**
     * The arrows' part of an iteration, when `due`, then the input part.
     * `false` when either panics: the removal of an arrived label from an
     * empty list, or a key outside b'1' ..= b'8'.
     */
    method ShootStep(due: bool, key: Option<int>) returns (survived: bool)
      requires Valid()
      requires key.Some? ==> 0 <= key.value < BYTE
      modifies this`arrows, this`hexValues, this`invaders, this`inputBuf, this`inputValue, this`currentScore
      ensures Valid()
      ensures survived <==> !HitPanics(old(invaders), HitLabel(due, old(arrows))) && ReadsKey(key)
      ensures survived ==> var hit := HitLabel(due, old(arrows));
        && invaders == AfterHit(old(invaders), hit)
        && hexValues == FreedBy(old(hexValues), hit)
        && FiredOn(Flip(old(inputBuf), KeyBit(key)), FlownArrows(due, old(arrows)), old(currentScore))
    {
      survived := ArrowStep(due);
      if survived {
        survived := InputStep(key);
      }
    }

    /**
     * One iteration of the inner loop of `start`, during a round. Every 650th
     * iteration the invaders move, and a crossing ends the round:
     * `game_over`, `clear_data`, back to waiting, the counter kept. Every 25th
     * iteration the arrows move, and a hit removes an invader. Then the input
     * is read, and a matching invader is shot for one point. A panic ends the
     * game for good; the state it leaves is valid unless `game_over` panicked.
     */
    method RoundTick(counter: nat, key: Option<int>, draws: seq<Draw>) returns (next: Phase, nextCounter: nat)
      requires Valid()
      requires key.Some? ==> 0 <= key.value < BYTE
      requires ValidDraws(draws, gameCols)
      requires counter % MACRO_PERIOD == 0 && SpawnDue(invaders, invaderDistance) ==> HasAvailable(draws, hexValues)
      modifies this
      ensures !(next == Panicked && old(CrossesOn(counter % MACRO_PERIOD == 0, draws))) ==> Valid()
      ensures next == AwaitingStart <==> old(CrossesOn(counter % MACRO_PERIOD == 0, draws)) && GameOverFits()
      ensures next == AwaitingStart ==> Cleared() && nextCounter == counter
      ensures next == Panicked <==>
        if old(CrossesOn(counter % MACRO_PERIOD == 0, draws)) then !GameOverFits()
        else (HitPanics(old(MarchedInvaders(counter % MACRO_PERIOD == 0, draws)), HitLabel(counter % ARROW_PERIOD == 0, old(arrows)))
              || !ReadsKey(key))
      ensures next == Panicked ==> nextCounter == counter
      ensures next == Running ==> nextCounter == counter + 1
      ensures next == Running ==> var hit := HitLabel(counter % ARROW_PERIOD == 0, old(arrows));
        && invaders == AfterHit(old(MarchedInvaders(counter % MACRO_PERIOD == 0, draws)), hit)
        && hexValues == FreedBy(old(MarchedRegistry(counter % MACRO_PERIOD == 0, draws)), hit)
      ensures next == Running ==>
        FiredOn(Flip(old(inputBuf), KeyBit(key)), FlownArrows(counter % ARROW_PERIOD == 0, old(arrows)), old(currentScore))
    {
      var alive := MacroStep(counter % MACRO_PERIOD == 0, draws);
      if !alive {
        if !GameOverFits() {
          return Panicked, counter;
        }
        ClearData();
        return AwaitingStart, counter;
      }
      var survived := ShootStep(counter % ARROW_PERIOD == 0, key);
      if !survived {
        return Panicked, counter;
      }
      return Running, counter + 1;
    }

    /**
     * One turn of `start`. Waiting for a round, a space key or a closed channel
     * (`recv` failing, `key == None`) starts the round and any other key is
     * ignored; in a round, one `RoundTick`; after a panic nothing happens.
     */
    method Step(phase: Phase, counter: nat, key: Option<int>, draws: seq<Draw>)
      returns (next: Phase, nextCounter: nat)
      requires phase != Panicked ==> Valid()
      requires key.Some? ==> 0 <= key.value < BYTE
      requires ValidDraws(draws, gameCols)
      requires phase == Running && counter % MACRO_PERIOD == 0 && SpawnDue(invaders, invaderDistance) ==>
        HasAvailable(draws, hexValues)
      modifies this
      ensures next != Panicked ==> Valid()
      ensures phase == Panicked ==> next == Panicked && nextCounter == counter && unchanged(this)
      ensures phase == AwaitingStart ==> nextCounter == counter && unchanged(this)
      ensures phase == AwaitingStart ==>
        next == if key.None? || key.value == KEY_SPACE then Running else AwaitingStart
      ensures phase == Running && next == AwaitingStart ==>
        counter % MACRO_PERIOD == 0 && Cleared() && nextCounter == counter
      ensures phase == Running && next == Running ==> nextCounter == counter + 1
      ensures phase == Running && next == Panicked ==> nextCounter == counter
      ensures phase == Running ==>
        (next == AwaitingStart <==> old(CrossesOn(counter % MACRO_PERIOD == 0, draws)) && GameOverFits())
      ensures phase == Running ==>
        (next == Panicked <==>
          if old(CrossesOn(counter % MACRO_PERIOD == 0, draws)) then !GameOverFits()
          else (HitPanics(old(MarchedInvaders(counter % MACRO_PERIOD == 0, draws)), HitLabel(counter % ARROW_PERIOD == 0, old(arrows)))
                || !ReadsKey(key)))
      ensures phase == Running && next == Running ==> var hit := HitLabel(counter % ARROW_PERIOD == 0, old(arrows));
        && invaders == AfterHit(old(MarchedInvaders(counter % MACRO_PERIOD == 0, draws)), hit)
        && hexValues == FreedBy(old(MarchedRegistry(counter % MACRO_PERIOD == 0, draws)), hit)
        && FiredOn(Flip(old(inputBuf), KeyBit(key)), FlownArrows(counter % ARROW_PERIOD == 0, old(arrows)), old(currentScore))
    {
      next, nextCounter := phase, counter;
      match phase
      case Panicked =>
      case AwaitingStart =>
        if key.None? || key.value == KEY_SPACE {
          next := Running;
        }
      case Running =>
        next, nextCounter := RoundTick(counter, key, draws);
    }
  }
}
