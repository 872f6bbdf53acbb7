# HEXvaders, the game state in Dafny

HEXvaders is a terminal shooter. Invaders labelled with a byte (`01`..`FF`) walk
down the game pane. The player composes a byte by toggling the eight bits of
an input buffer with the keys `1`..`8`. When the composed byte equals the label
of a visible invader, an arrow is fired at it and the score goes up by one. An
arrow that reaches its target's row deletes an invader and frees its label. The
round ends when an invader reaches the gun line (row `screen_rows - 3`).

This project models the game's state and the operations that change it,
without the drawing, the threads or the clock:

- `GameCore.Game` (game_core.dfy) is the final `Game` of src/game/game.rs:
  - the bit buffer and its byte;
  - the score;
  - the arrows and the invaders;
  - the label registry `hex_values`;
  - every state-changing operation;
  - one turn of `start` as a step of a three-phase machine (waiting for the
    space key, in a round, panicked).
- `InvaderEntity.Invader` (invader_entity.dfy) and `ArrowEntity.Arrow`
  (arrow_entity.dfy) are the entities of src/game/invader.rs and
  src/game/arrow.rs, as classes updated in place.
- `InputBits` (input_bits.dfy) is the `u8` arithmetic of the accumulator: the
  shift-in loop, the big-endian value of the bits, the key filter.
- `LabelRegistry` (label_registry.dfy) is the registry and the retry loop of
  `generate_invader`. Its random draws are a sequence supplied by the caller.
- `Rules` (rules.dfy) holds the value-level specifications the methods are
  proved against: the first shootable invader, the movement pass, the
  arrow pass, the removal index, and the lemmas about them.
- The drafts:
  - `GameDraft.DraftGame` (draft_game.dfy) is the draft `Game` of src/game.rs.
  - `SceneDraft.Scene` (draft_scene.dfy) is the `Scene` of src/scene.rs.
  - `InvaderDraft.Invader` (draft_invader.dfy) is the first `Invader`, of
    src/invader.rs.

The invariant `GameCore.Game.Valid` holds between steps, as long as the game has not panicked. It says:

- the buffer holds eight 0/1 bits, and `input_value` is exactly their
  big-endian byte;
- the listed invaders are visible, on rows 1 ..= `screen_rows - 4`, and carry
  pairwise distinct labels in 1..=0xFF, each mapped to `true`;
- every visible arrow is still at or below its target's row, so `current_row`
  never underflows.

The methods that change the game keep this invariant, with these exceptions:

- `Recompose` and `MoveInvaders` are the bare loops; they state their result
  and leave the invariant to their callers.
- A movement pass in which an invader crosses (`InvadersMoveForward` and
  `MacroStep` returning false) leaves that invader past the last row. The
  round then ends and `clear_data` restores the invariant, unless `game_over`
  panics first and leaves that state behind.

Panics that the source can reach are results, not preconditions:

- `update_input` on a space byte: src/game/main.rs:71 forwards b' ', and
  `raw_key - b'1'` then underflows.
- `Vec::remove(0)` on an empty list in `remove_invader`.
- `game_over` on fewer than 12 rows: it places its text at row
  `(screen_rows / 2) - 6 + c` in `u16`, which underflows for 10 or 11 rows,
  sizes that src/game/main.rs:48 accepts.
- the scene's column draw `gen_range(3..=cols - 5)` on a terminal narrower
  than 8 columns (src/scene.rs:37): `Scene::new` takes the terminal width
  with no minimum, and the first `march` always spawns.
- the scene's spawn test `with_distance + 4` in `u16` (src/scene.rs:65) when
  the deque has a front and `with_distance` is 65532 or more.

`Invader` derives `Copy`, so a `Vec<Invader>` holds values. The game therefore
keeps its invaders as a sequence of `InvaderState` values and its arrows as a
sequence of `ArrowState` values. The loops replace element `i` by `Moved` or
`Flown` of it. These are the functions the classes' `MoveForward` methods are
proved to implement.

An arrow's target is the copy taken when it was fired. `Invader::remove` is an
`async fn` that the game calls without `.await`, so it never changes the
invader. Only `Vec::remove` deletes one.

Two behaviours of the source are proved rather than corrected:

- A second arrow that arrives for a label already removed deletes the first
  invader in the list instead (`Rules.RemovalKeepsRegistry`). Its label stays
  registered as on screen, or the call panics when the list is empty.
- `iter_counter` is not reset between rounds. A round that ends does not count
  its last iteration.

## Model

| member | source | states |
|---|---|---|
| InputBits.KeyIndex | src/game/game.rs:194-201 | a byte gives a bit index exactly when it is b'1'..=b'8', and the index is `raw_key - b'1'` in 0..8; every other byte, b' ' included, gives none (the panic) |
| InputBits.ShiftInValue | src/game/game.rs:203-205 | folding n bits into a `u8` with `(v << 1) \| bit` gives `(v * 2^n + value of the bits) mod 256` |
| InputBits.ShiftInForgetsOldValue | src/game/game.rs:203-205 | after the eight shifts the byte is the big-endian value of the eight bits, whatever it was before |
| InputBits.ToggleChangesValue | src/game/game.rs:196-198 | flipping bit k keeps a 0/1 buffer and moves its value by exactly +2^(7-k) (bit was 0) or -2^(7-k) (bit was 1) |
| InputBits.ComposeInjective | src/game/game.rs:203-205 | two bit buffers with the same byte are equal, so the displayed byte determines the buffer |
| InputBits.ZeroValueIffCleared | src/game/game.rs:257-260 | the byte is 0 exactly when all eight bits are 0 |
| LabelRegistry.FirstAvailable | src/game/game.rs:323-343 | the retry loop stops at the first draw whose label is absent from the registry or mapped to false; every earlier draw was rejected |
| LabelRegistry.AvailableIffNotActive | src/game/game.rs:328-333 | `val_is_unique` holds exactly when the label is not mapped to true |
| Rules.FirstShootable | src/game/game.rs:308-315 | the index found is the first visible invader whose label equals the byte; None exactly when no invader qualifies |
| Rules.ZeroNeverShootable | src/game/game.rs:308-315 | with labels drawn from 1..=0xFF, byte 0 never shoots |
| Rules.FirstOver | src/game/game.rs:356-363 | the index of the first invader past the limit once moved, all before it within; None exactly when none passes |
| Rules.AdvanceInvadersSpec | src/game/game.rs:356-365 | the movement pass moves the invaders up to the first one past the limit and leaves the later ones unmoved; when none passes, all moved and are within the limit |
| Rules.AdvanceKeepsLabels | src/game/invader.rs:53-57 | moving keeps every label and column |
| Rules.AdvanceKeepsInvariant | src/game/game.rs:346-366 | a pass in which nobody crosses keeps labels unique, registered and in range, and every row in 1 ..= limit |
| Rules.InvaderPassStops | src/game/game.rs:356-364 | a loop that returned false at invader i stopped at the first crossing and produced the specified list |
| Rules.InvaderPassCompletes | src/game/game.rs:356-365 | a loop that moved all invaders without a crossing produced the specified list and returns true |
| Rules.LastMatch | src/game/game.rs:371-377 | the `enumerate` loop keeps the last index whose label matches; none exactly when no label matches |
| Rules.RemovalKeepsRegistry | src/game/game.rs:368-380 | with unique labels, removal leaves unique labels, all registered with `val` freed, none equal to `val`; with no match it deletes the first invader, whose label stays mapped to true |
| Rules.AddingFreeLabelKeepsRegistry | src/game/game.rs:335-340 | appending (or, for the scene, prepending) an invader with a free label and registering it keeps labels unique and registered |
| Rules.FirstArrival | src/game/game.rs:293-301 | the index of the first visible arrow that passes the arrival test once moved; None exactly when no arrow does |
| Rules.ArrivedLabel | src/game/game.rs:298-301 | a label is returned exactly when some arrow arrives |
| Rules.AdvanceArrowsSpec | src/game/game.rs:292-305 | invisible arrows never move; up to the first arrival visible arrows move one row; the arriving one is hidden and its target's label returned; later arrows are untouched |
| Rules.ArrowPassStops | src/game/game.rs:293-301 | a loop that returned at arrow i stopped at the first arrival and produced the specified arrows |
| Rules.ArrowPassCompletes | src/game/game.rs:293-304 | a loop that found no arrival moved every visible arrow and returns None |
| InvaderEntity.Invader.constructor | src/game/invader.rs:15-22 | stores row, column and label and makes the invader visible |
| InvaderEntity.Invader.MoveForward | src/game/invader.rs:53-57 | a visible invader moves one row down, a hidden one stays; label, column and visibility never change |
| InvaderEntity.Invader.Remove | src/game/invader.rs:59-60 | the state effect of `remove`: hidden, everything else unchanged |
| ArrowEntity.Arrow.constructor | src/game/arrow.rs:11-18 | a visible arrow on row `total_rows - 3` carrying the target snapshot |
| ArrowEntity.Arrow.MoveForward | src/game/arrow.rs:42-44 | one row up; `current_row` must be positive (`u16`) |
| ArrowEntity.Arrow.Remove | src/game/arrow.rs:34-36 | hidden, row and target unchanged |
| ArrowEntity.FlightLength | src/game/arrow.rs:11-44 | from `new`, the arrival test first holds after exactly `total_rows - 2 - target.row` moves, with no underflow on the way |
| GameCore.Game.constructor | src/game/game.rs:33-54 | a cleared game of the given size that satisfies the invariant |
| GameCore.Game.ClearData | src/game/game.rs:56-63 | bits, byte, score, arrows, invaders and registry reset; sizes kept; the invariant holds |
| GameCore.Game.ZeroInput | src/game/game.rs:257-260 | all bits and the byte become 0, keeping the invariant |
| GameCore.Game.Recompose | src/game/game.rs:203-205 | the loop leaves the byte equal to the shift-in of the bits, which is their big-endian value |
| GameCore.Game.UpdateInput | src/game/game.rs:194-206 | no key: nothing changes; b'1'..=b'8': exactly bit `key - b'1'` flips and the byte moves by the matching power of two; any other byte: panic with no change |
| GameCore.Game.ToShoot | src/game/game.rs:308-315 | returns the first visible listed invader carrying the byte, or None exactly when there is none |
| GameCore.Game.Shoot | src/game/game.rs:317-320 | exactly one arrow is appended, on the gun line and aimed at the copy of the target |
| GameCore.Game.FireCheck | src/game/game.rs:422-427 | fires exactly when `to_shoot` finds a target: one arrow at the first visible invader carrying the byte, bits and byte zeroed, score +1, and nothing shootable afterwards; otherwise nothing changes |
| GameCore.Game.GenerateInvader | src/game/game.rs:322-343 | consumes draws up to the first free label, registers it and appends one visible invader on row 1 at the drawn column, keeping the invariant |
| GameCore.Game.WithSpawn | src/game/game.rs:347-354 | the list after the spawn check: one invader more, on row 1, exactly when the list is empty or its last invader is on row `invader_distance + 4` |
| GameCore.Game.SpawnIfDue | src/game/game.rs:347-354 | spawns exactly when due, and the registry gains exactly that label |
| GameCore.Game.MoveInvaders | src/game/game.rs:356-365 | the list becomes the specified movement pass; returns true exactly when no invader crosses row `screen_rows - 4` |
| GameCore.Game.InvadersMoveForward | src/game/game.rs:346-366 | spawn then move; returns true exactly when nobody crosses, and then the invariant still holds |
| GameCore.Game.ArrowMoveForward | src/game/game.rs:292-305 | the arrows become the specified arrow pass and the returned label is the first arrival's target, keeping the invariant |
| GameCore.Game.IndexToRemove | src/game/game.rs:371-377 | the index deleted is the last one carrying `val`, or 0 |
| GameCore.Game.RemoveInvader | src/game/game.rs:368-380 | `val` is freed; one element, the last labelled `val` or else the first, is deleted; panics exactly on an empty list; the invariant holds |
| GameCore.Game.MacroStep | src/game/game.rs:401-409 | on a due iteration the invaders become the spawn-then-move pass and the registry gains the spawned label, and the round ends exactly when that pass finds a crossing; on other iterations nothing changes |
| GameCore.Game.ArrowStep | src/game/game.rs:411-416 | on a due iteration the arrows become the arrow pass; the label of the first arrival is freed and one invader deleted, and the step panics exactly when that label arrives on an empty list; with no arrival, or off a due iteration, the invaders and registry are unchanged |
| GameCore.Game.InputStep | src/game/game.rs:418-427 | a key outside b'1'..=b'8' panics with no change; otherwise the toggled buffer is kept, and the fire check acts on its byte: one arrow at the first visible invader carrying it, zeroed buffer and score +1, or nothing more |
| GameCore.Game.ShootStep | src/game/game.rs:411-427 | the arrow step then the input step; panics exactly when the arrived label meets an empty list or the key is outside b'1'..=b'8', and otherwise leaves the invaders, registry, arrows, buffer and score the two steps define |
| GameCore.Game.RoundTick | src/game/game.rs:400-435 | the round ends exactly on a 650th iteration whose pass finds a crossing, leaving a cleared game and the counter unchanged, or panicking in `game_over` on fewer than 12 rows; otherwise it panics exactly when the removal or the key does; a running iteration adds one to the counter, applies the invaders' and the arrows' step, and fires on the byte after the key's toggle, against the list after the arrow step, for score +1 exactly when that byte is shootable |
| GameCore.Game.Step | src/game/game.rs:388-438 | waiting: space or a closed channel starts a round, any other key is ignored and nothing changes; running: exactly one `RoundTick`, with its round-end and panic conditions and its new invaders, registry, arrows, buffer and score; a panicked game stays as it is; the invariant holds whenever the game has not panicked |
| GameDraft.DraftGame.constructor | src/game.rs:26-46 | a cleared draft game of the given size |
| GameDraft.DraftGame.UpdateInput | src/game.rs:77-86 | an index below 8 flips exactly that bit and the byte moves by the matching power of two; no key changes nothing |
| GameDraft.DraftGame.InputStep | src/game.rs:279-288 | the flipped buffer is kept, and the fire check acts on its byte: one arrow at the first visible invader carrying it, zeroed buffer and score +1, or nothing more |
| GameDraft.DraftGame.ShootStep | src/game.rs:272-288 | the arrow step then the input step; panics exactly when the arrived label meets an empty list, and otherwise leaves the invaders, registry, arrows, buffer and score the two steps define |
| GameDraft.DraftGame.Tick | src/game.rs:263-296 | panics exactly when an 800th iteration's pass finds a crossing or the arrived label meets an empty list; otherwise the counter grows by one, the invaders' and the arrows' step apply, and the fire check acts on the byte after the flip, for score +1 exactly when that byte is shootable |
| InvaderDraft.Proceeded | src/invader.rs:31-33 | one row down whatever the visibility, label and column kept, staying a `u16` |
| InvaderDraft.ProceedVersusMoveForward | src/invader.rs:31-33 | `proceed` and the final `move_forward` agree exactly on visible invaders |
| InvaderDraft.Invader.constructor | src/invader.rs:9-16 | stores row, column and label and makes the invader visible |
| InvaderDraft.Invader.Proceed | src/invader.rs:31-33 | `row` grows by exactly 1 and must be below 65535; nothing else changes |
| SceneDraft.Crossed | src/scene.rs:78-82 | true exactly when some invader of the list is past row `rows` |
| SceneDraft.FrontSpawned | src/scene.rs:64-71 | one invader more, at the front on row 1, exactly when the deque is empty or its front is on row `with_distance + 4` |
| SceneDraft.SpawnedRegistry | src/scene.rs:64-71 | when a spawn is due the new label was free and is now mapped to true; otherwise the registry is unchanged |
| SceneDraft.FreedExactly | src/scene.rs:75-83 | after the loop every invader past row `rows` has its label mapped to false, and every other label keeps its entry |
| SceneDraft.FreedNoneCrossed | src/scene.rs:75-83 | when nobody crosses the registry is unchanged |
| SceneDraft.MarchCrossesOnlyTheBack | src/scene.rs:73-87 | on an ordered deque within the rows only the oldest invader can cross, and only from row `rows`, so only its label is freed |
| SceneDraft.MarchKeepsShape | src/scene.rs:75-83 | when nobody crosses, the deque stays ordered, within the rows and registered |
| SceneDraft.RegistryAfterPop | src/scene.rs:78-87 | popping the invader that crossed and freeing its label keeps the rest ordered, within the rows and registered |
| SceneDraft.Scene.constructor | src/scene.rs:20-28 | an empty scene of the given size |
| SceneDraft.Scene.GenerateInvader | src/scene.rs:34-55 | consumes draws up to the first free label, registers it and pushes one visible invader on row 1 at the front; order kept when the front had left row 1 |
| SceneDraft.Scene.SpawnIfDue | src/scene.rs:34-71 | spawns at the front exactly when due; panics, changing nothing, exactly when the deque has a front and `with_distance + 4` overflows the `u16`, or a spawn is due on fewer than 8 columns |
| SceneDraft.Scene.MoveAll | src/scene.rs:73-83 | every invader moved, every crossing label freed, and `deq` true exactly when one crossed |
| SceneDraft.Scene.March | src/scene.rs:34-88 | panics, changing nothing, exactly when the spawn check does (the `with_distance + 4` overflow with a front invader, or a due spawn on fewer than 8 columns); otherwise one pop from the back exactly when the oldest invader was on row `rows`; the deque becomes the moved list without it, and only its label is freed; the length changes by at most one; the invariant holds |

## Left out

- Rendering is not modelled: every `draw_*`, `print_start_message`, `game_over`, `flush_stdout`, `Invader::draw`, `Arrow::draw`, and the printing and `tokio` sleeps inside `Invader::remove`. They write to the terminal; the one panic among them that the sizes src/game/main.rs produces can reach, the `u16` underflow in the final `game_over` on fewer than 12 rows, is modelled as a panic of `RoundTick`. That is the behaviour of a build with overflow checks; a release build wraps the row and the round ends normally.
- Threads, channels, `termios` and `ctrlc` are not modelled. A key read with `try_recv` (or `recv` while waiting) is an `Option` parameter of the step; `None` also stands for a closed channel.
- `thread::sleep` and timing are not modelled; one call of `Step` or `Tick` is one iteration of the loop.
- `rand::thread_rng` is replaced by a caller-supplied sequence of draws, each a column in `3..=cols-5` and a label in `1..=0xFF`. The retry loop has no cap, so the model requires that some draw carries a free label. Once all 255 labels are mapped to true the source would spin forever. That need not take 255 invaders on screen: a bystander deleted by a second arrival keeps its label mapped to true, so leaked labels add up.
- `Game::new`'s channel argument and `Scene::new`'s terminal-size query: the sizes are constructor parameters.
- `Scene::start` is not modelled; it only repeats `march` with sleeps.
- `iter_counter` and `current_score` are `usize` in the source and unbounded `nat` here; the wrap-around after 2^64 iterations is not modelled.
- `Invader::remove` called without `.await` has no effect in the model of the game; `InvaderEntity.Invader.Remove` gives the effect it would have if awaited.
- The `Vec<Invader>` and `Vec<Arrow>` of the game and the `VecDeque` of the scene are sequences of values. The per-element `move_forward` of `iter_mut` is modelled by replacing the element with `Moved`/`Flown` of it, which the class methods are proved to compute. Arrows keep `total_rows` only in the class, since only drawing reads it afterwards.
- src/arrow.rs is not part of this model. The draft game is modelled with the `Arrow` of src/game/arrow.rs.
- The Invader of src/invader.rs has neither `move_forward`, `remove` nor `Copy`, all of which src/game.rs and src/scene.rs use. Those drafts are modelled with the `Invader` of src/game/invader.rs, and `InvaderDraft` models src/invader.rs on its own.
- GameDraft.DraftGame.Tick: after a panic the game state is constrained only by the counter and the cause, since the thread is gone.
- GameCore.Game.RoundTick: after a panic the state is constrained only by the counter, the cause and, unless `game_over` panicked, the invariant.
- SceneDraft.Scene.constructor: requires `rows < 65535`. With 65535 rows the oldest invader's `move_forward` on row 65535 would overflow the `u16`; this edge is not modelled.
