/**
 * `Scene` of src/scene.rs, the draft of the invaders' half of the game: a
 * `VecDeque` of invaders with the newest at the front (index 0) and the
 * oldest at the back, the label registry, and the screen size. `march` spawns
 * at the front, moves everybody down one row, frees the label of every
 * invader that left the screen, and pops at most one from the back.
 */
module SceneDraft {
  import opened LabelRegistry
  import opened InvaderEntity
  import opened Rules

  /** Rows strictly increase from the newest invader to the oldest. */
  predicate FrontToBack(s: seq<InvaderState>)
  {
    forall i, j :: 0 <= i < j < |s| ==> s[i].row < s[j].row
  }

  /**
   * The shape `march` keeps: visible invaders on rows 1 ..= `rows`, ordered
   * from the front, with distinct labels in range that `reg` maps to true.
   */
  predicate SceneShape(s: seq<InvaderState>, reg: Registry, rows: int)
  {
    && LabelsUnique(s) && Registered(s, reg) && LabelsInRange(s)
    && (forall i :: 0 <= i < |s| ==> s[i].visible && 1 <= s[i].row <= rows)
    && FrontToBack(s)
  }

  /** `march` spawns when the deque is empty or its front invader is on row `distance + 4`. */
  predicate FrontSpawnDue(s: seq<InvaderState>, distance: int)
  {
    s == [] || s[0].row == distance + 4
  }

  /** The deque after the spawn of `march`: a new invader on row 1 at the front, when due. */
  function FrontSpawned(s: seq<InvaderState>, reg: Registry, draws: seq<Draw>, distance: int): (r: seq<InvaderState>)
    requires FrontSpawnDue(s, distance) ==> HasAvailable(draws, reg)
    ensures FrontSpawnDue(s, distance) ==> |r| == |s| + 1 && r[1..] == s && r[0].row == 1 && r[0].visible
    ensures !FrontSpawnDue(s, distance) ==> r == s
  {
    if FrontSpawnDue(s, distance) then
      var d := draws[FirstAvailable(draws, reg)];
      [InvaderState(d.val, 1, d.col, true)] + s
    else s
  }

  /** The registry after the spawn of `march`: the new invader's label is registered, when due. */
  function SpawnedRegistry(s: seq<InvaderState>, reg: Registry, draws: seq<Draw>, distance: int): (r: Registry)
    requires FrontSpawnDue(s, distance) ==> HasAvailable(draws, reg)
    ensures FrontSpawnDue(s, distance) ==> Available(reg, FrontSpawned(s, reg, draws, distance)[0].value)
    ensures FrontSpawnDue(s, distance) ==> r == reg[FrontSpawned(s, reg, draws, distance)[0].value := true]
    ensures !FrontSpawnDue(s, distance) ==> r == reg
  {
    if FrontSpawnDue(s, distance) then reg[draws[FirstAvailable(draws, reg)].val := true] else reg
  }

  /** Every invader after its `move_forward`. */
  function Marched(s: seq<InvaderState>): (r: seq<InvaderState>)
    ensures |r| == |s|
  {
    seq(|s|, i requires 0 <= i < |s| => Moved(s[i]))
  }

  /** Some invader of `m` is past row `rows`. */
  function Crossed(m: seq<InvaderState>, rows: int): (r: bool)
    ensures r <==> exists j :: 0 <= j < |m| && m[j].row > rows
  {
    if m == [] then false
    else Crossed(m[..|m| - 1], rows) || m[|m| - 1].row > rows
  }

  /** The registry after the loop of `march` has set the label of every invader of `m` past row `rows` to `false`. */
  function Freed(reg: Registry, m: seq<InvaderState>, rows: int): Registry
  {
    if m == [] then reg
    else
      var r := Freed(reg, m[..|m| - 1], rows);
      if m[|m| - 1].row > rows then r[m[|m| - 1].value := false] else r
  }

  /**
   * The loop of `march` maps the label of every invader past row `rows` to
   * `false`, and leaves every label no such invader carries as it was.
   */
  lemma {:induction false} FreedExactly(reg: Registry, m: seq<InvaderState>, rows: int)
    ensures forall j :: 0 <= j < |m| && m[j].row > rows ==>
      m[j].value in Freed(reg, m, rows) && !Freed(reg, m, rows)[m[j].value]
    ensures forall v :: (forall j :: 0 <= j < |m| && m[j].row > rows ==> m[j].value != v) ==>
      (v in Freed(reg, m, rows) <==> v in reg) && (v in reg ==> Freed(reg, m, rows)[v] == reg[v])
  {
    if m != [] {
      var k := |m| - 1;
      FreedExactly(reg, m[..k], rows);
      forall j | 0 <= j < k && m[j].row > rows
        ensures m[j].value in Freed(reg, m, rows) && !Freed(reg, m, rows)[m[j].value]
      {
        assert m[..k][j] == m[j];
      }
      forall v | forall j :: 0 <= j < |m| && m[j].row > rows ==> m[j].value != v
        ensures (v in Freed(reg, m, rows) <==> v in reg) && (v in reg ==> Freed(reg, m, rows)[v] == reg[v])
      {
        assert forall j :: 0 <= j < k && m[..k][j].row > rows ==> m[..k][j].value != v;
      }
    }
  }

  /** Freeing the labels of a list in which nobody crossed changes nothing. */
  lemma {:induction false} FreedNoneCrossed(reg: Registry, m: seq<InvaderState>, rows: int)
    requires forall j :: 0 <= j < |m| ==> m[j].row <= rows
    ensures Freed(reg, m, rows) == reg
  {
    if m != [] {
      FreedNoneCrossed(reg, m[..|m| - 1], rows);
    }
  }

  /**
   * On an ordered deque of visible invaders within rows 1 ..= `rows`, one
   * march moves only the oldest invader, and only from row `rows`, past the
   * screen; so only its label is freed.
   */
  lemma MarchCrossesOnlyTheBack(s: seq<InvaderState>, reg: Registry, rows: int)
    requires FrontToBack(s)
    requires forall i :: 0 <= i < |s| ==> s[i].visible && s[i].row <= rows
    ensures Crossed(Marched(s), rows) <==> s != [] && s[|s| - 1].row == rows
    ensures forall i :: 0 <= i < |s| - 1 ==> Marched(s)[i].row <= rows
    ensures Freed(reg, Marched(s), rows) ==
      if Crossed(Marched(s), rows) then reg[s[|s| - 1].value := false] else reg
  {
    var m := Marched(s);
    if s != [] {
      var k := |s| - 1;
      assert forall i :: 0 <= i < k ==> m[i].row <= rows by {
        forall i | 0 <= i < k
          ensures m[i].row <= rows
        {
          assert s[i].row < s[k].row;
        }
      }
      FreedNoneCrossed(reg, m[..k], rows);
    }
  }

  class Scene {
    var hexValues: Registry
    /** `VecDeque<Invader>`, front first; `Invader` is a plain record, so the deque holds values. */
    var invaders: seq<InvaderState>
    const rows: int
    const cols: int

    /**
     * The invariant `march` keeps: the invaders are visible, on rows
     * 1 ..= `rows`, ordered from the front, with distinct registered labels.
     */
    ghost predicate Valid()
      reads this
    {
      1 <= rows < U16_MAX && SceneShape(invaders, hexValues, rows)
    }

    /** `Scene::new` with the terminal size given: an empty scene. */
    constructor (rows: int, cols: int)
      requires 1 <= rows < U16_MAX
      ensures Valid() && invaders == [] && hexValues == map[]
      ensures this.rows == rows && this.cols == cols
    {
      this.rows := rows;
      this.cols := cols;
      hexValues := map[];
      invaders := [];
    }

    /**
     * `generate_invader`: the retry loop runs through the draws until one has a
     * label the registry does not map to true, registers it and pushes a
     * visible invader on row 1 at the front. The order is kept when the front
     * invader had left row 1.
     */
    method GenerateInvader(draws: seq<Draw>) returns (used: nat)
      requires Valid()
      requires ValidDraws(draws, cols) && HasAvailable(draws, hexValues)
      modifies this
      ensures used == FirstAvailable(draws, old(hexValues))
      ensures hexValues == old(hexValues)[draws[used].val := true]
      ensures invaders == [InvaderState(draws[used].val, 1, draws[used].col, true)] + old(invaders)
      ensures old(invaders) == [] || old(invaders)[0].row > 1 ==> Valid()
    {
      used := 0;
      while true
        invariant used <= FirstAvailable(draws, hexValues)
        invariant hexValues == old(hexValues) && invaders == old(invaders)
        decreases FirstAvailable(draws, hexValues) - used
      {
        var d := draws[used];
        var valIsUnique := (d.val in hexValues && !hexValues[d.val]) || d.val !in hexValues;
        if valIsUnique {
          var invader := new Invader(1, d.col, d.val);
          AddingFreeLabelKeepsRegistry(invaders, hexValues, invader.State());
          hexValues := hexValues[d.val := true];
          invaders := [invader.State()] + invaders;
          break;
        }
        used := used + 1;
      }
    }

    /**
     * `generate_invader` first draws a column with `gen_range(3..=cols - 5)`
     * on a `u16`: below 5 columns the subtraction underflows, and from 5 to 7
     * the range is empty; both panic.
     */
    predicate ColumnDrawPanics()
    {
      cols < 8
    }

    /**
     * The first part of `march` panics: with a front invader, the `u16` sum
     * `with_distance + 4` overflows; or a spawn is due on a terminal too
     * narrow for the column draw.
     */
    ghost predicate SpawnPanics(withDistance: int)
      reads this
    {
      || (invaders != [] && withDistance + 4 > U16_MAX)
      || (FrontSpawnDue(invaders, withDistance) && ColumnDrawPanics())
    }

    /**
     * The first part of `march`: `generate_invader` when the deque is empty or
     * its front is on row `with_distance + 4`. A panic on the way, the overflow
     * or the column draw, is `ok == false` with nothing changed.
     */
    method SpawnIfDue(withDistance: int, draws: seq<Draw>) returns (ok: bool)
      requires Valid()
      requires 0 <= withDistance <= U16_MAX
      requires ValidDraws(draws, cols)
      requires FrontSpawnDue(invaders, withDistance) && !SpawnPanics(withDistance) ==> HasAvailable(draws, hexValues)
      modifies this
      ensures Valid()
      ensures ok <==> !old(SpawnPanics(withDistance))
      ensures ok ==> invaders == FrontSpawned(old(invaders), old(hexValues), draws, withDistance)
      ensures ok ==> hexValues == SpawnedRegistry(old(invaders), old(hexValues), draws, withDistance)
      ensures !ok ==> invaders == old(invaders) && hexValues == old(hexValues)
    {
      if |invaders| > 0 {
        if withDistance + 4 > U16_MAX {
          return false;
        }
        if invaders[0].row != withDistance + 4 {
          return true;
        }
      }
      if ColumnDrawPanics() {
        return false;
      }
      var _ := GenerateInvader(draws);
      return true;
    }

    /**
     * The loop of `march`: each invader moves, and each one then past row
     * `rows` has its label set to `false`; `deq` records whether any was.
     */
    method MoveAll() returns (deq: bool)
      modifies this`invaders, this`hexValues
      ensures invaders == Marched(old(invaders))
      ensures hexValues == Freed(old(hexValues), invaders, rows)
      ensures deq == Crossed(invaders, rows)
    {
      ghost var pre, reg := invaders, hexValues;
      ghost var m := Marched(pre);
      deq := false;
      var i := 0;
      while i < |invaders|
        invariant 0 <= i <= |invaders| == |pre|
        invariant invaders[..i] == m[..i] && invaders[i..] == pre[i..]
        invariant hexValues == Freed(reg, m[..i], rows)
        invariant deq == Crossed(m[..i], rows)
      {
        assert m[..i + 1][..i] == m[..i];
        assert pre[i + 1..] == pre[i..][1..] == invaders[i..][1..];
        invaders := invaders[i := Moved(invaders[i])];
        assert invaders[i + 1..] == pre[i + 1..];
        if invaders[i].row > rows {
          hexValues := hexValues[invaders[i].value := false];
          deq := true;
        }
        assert invaders[..i + 1] == m[..i + 1];
        i := i + 1;
      }
      assert invaders == invaders[..i] && m == m[..i];
    }

    /**
     * `march(with_distance)`: spawn when due, move every invader, free the
     * label of each one past row `rows`, and pop one from the back if any
     * was. On a valid scene only the oldest invader can leave, so exactly
     * the invader that left is popped and only its label is freed. A spawn
     * on a terminal too narrow for the column draw panics: `ok == false`.
     */
    method March(withDistance: int, draws: seq<Draw>) returns (popped: bool, ok: bool)
      requires Valid()
      requires 0 <= withDistance <= U16_MAX
      requires ValidDraws(draws, cols)
      requires FrontSpawnDue(invaders, withDistance) && !SpawnPanics(withDistance) ==> HasAvailable(draws, hexValues)
      modifies this
      ensures Valid()
      ensures ok <==> !old(SpawnPanics(withDistance))
      ensures !ok ==> !popped && invaders == old(invaders) && hexValues == old(hexValues)
      ensures ok ==> var s := FrontSpawned(old(invaders), old(hexValues), draws, withDistance);
        var reg := SpawnedRegistry(old(invaders), old(hexValues), draws, withDistance);
        && (popped <==> s != [] && s[|s| - 1].row == rows)
        && invaders == (if popped then Marched(s)[..|s| - 1] else Marched(s))
        && hexValues == (if popped then reg[s[|s| - 1].value := false] else reg)
      ensures -1 <= |invaders| - |old(invaders)| <= 1
    {
      popped := false;
      ok := SpawnIfDue(withDistance, draws);
      if !ok {
        return;
      }
      ghost var s, reg := invaders, hexValues;
      MarchCrossesOnlyTheBack(s, reg, rows);
      popped := MoveAll();
      if popped {
        invaders := invaders[..|invaders| - 1];
        RegistryAfterPop(s, reg, rows);
      } else {
        MarchKeepsShape(s, reg, rows);
      }
    }
  }

  /** When nobody leaves, a march keeps the deque ordered, within the rows, and registered. */
  lemma MarchKeepsShape(s: seq<InvaderState>, reg: Registry, rows: int)
    requires SceneShape(s, reg, rows)
    requires !Crossed(Marched(s), rows)
    ensures SceneShape(Marched(s), reg, rows)
  {
  }

  /**
   * Popping the oldest invader, the one that left, and freeing its label
   * keeps the rest of an ordered deque ordered, within the rows, and
   * registered.
   */
  lemma RegistryAfterPop(s: seq<InvaderState>, reg: Registry, rows: int)
    requires s != [] && SceneShape(s, reg, rows)
    requires s[|s| - 1].row == rows
    ensures SceneShape(Marched(s)[..|s| - 1], reg[s[|s| - 1].value := false], rows)
  {
    var k := |s| - 1;
    forall i | 0 <= i < k
      ensures s[i].row < rows && s[i].value != s[k].value
    {
      assert s[i].row < s[k].row;
    }
  }
}
