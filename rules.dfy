/**
 * What the loops of the game do to the invader and arrow lists, stated on
 * their values. Both versions of `Game` and the draft `Scene` are proved
 * against these functions.
 */
module Rules {
  import opened Wrappers
  import opened InvaderEntity
  import opened ArrowEntity
  import opened LabelRegistry

  /** No two listed invaders carry the same label. */
  predicate LabelsUnique(s: seq<InvaderState>)
  {
    forall i, j :: 0 <= i < j < |s| ==> s[i].value != s[j].value
  }

  /** Every listed invader's label is registered as on screen. */
  predicate Registered(s: seq<InvaderState>, reg: Registry)
  {
    forall i :: 0 <= i < |s| ==> s[i].value in reg && reg[s[i].value]
  }

  /** Labels come from `1..=0xFF`. */
  predicate LabelsInRange(s: seq<InvaderState>)
  {
    forall i :: 0 <= i < |s| ==> MIN_LABEL <= s[i].value <= MAX_LABEL
  }

  function RemoveAt<T>(s: seq<T>, k: nat): seq<T>
    requires k < |s|
  {
    s[..k] + s[k + 1..]
  }

  // ---------------------------------------------------------------- to_shoot

  /** The test of `to_shoot`: a visible invader whose label equals the input byte. */
  predicate Shootable(inv: InvaderState, v: int)
  {
    inv.visible && inv.value == v
  }

  /** The index `to_shoot` stops at: the first shootable invader, if any. */
  function FirstShootable(s: seq<InvaderState>, v: int): (r: Option<nat>)
    ensures r.Some? ==> r.value < |s| && Shootable(s[r.value], v)
    ensures r.Some? ==> forall j :: 0 <= j < r.value ==> !Shootable(s[j], v)
    ensures r.None? <==> forall j :: 0 <= j < |s| ==> !Shootable(s[j], v)
  {
    if s == [] then None
    else if Shootable(s[0], v) then Some(0)
    else match FirstShootable(s[1..], v)
      case None => None
      case Some(k) => Some(k + 1)
  }

  /** Labels are never 0, so an all-zero input never fires. */
  lemma ZeroNeverShootable(s: seq<InvaderState>)
    requires LabelsInRange(s)
    ensures FirstShootable(s, 0) == None
  {
  }

  // --------------------------------------------------- invaders_move_forward

  /** `invaders_move_forward` spawns when the list is empty or its last invader is on row `distance + 4`. */
  predicate SpawnDue(s: seq<InvaderState>, distance: int)
  {
    s == [] || s[|s| - 1].row == distance + 4
  }

  /** The first invader whose row, once moved, exceeds `limit` (the game-over test). */
  function FirstOver(s: seq<InvaderState>, limit: int): (r: Option<nat>)
    ensures r.Some? ==> r.value < |s| && Moved(s[r.value]).row > limit
    ensures r.Some? ==> forall j :: 0 <= j < r.value ==> Moved(s[j]).row <= limit
    ensures r.None? <==> forall j :: 0 <= j < |s| ==> Moved(s[j]).row <= limit
  {
    if s == [] then None
    else if Moved(s[0]).row > limit then Some(0)
    else match FirstOver(s[1..], limit)
      case None => None
      case Some(k) => Some(k + 1)
  }

  /** How many invaders the loop moves before it stops: all, or up to and including the first one over. */
  function MovedCount(s: seq<InvaderState>, limit: int): (n: nat)
    ensures n <= |s|
  {
    match FirstOver(s, limit)
    case None => |s|
    case Some(k) => k + 1
  }

  /** The list after the movement loop: a prefix moved, the rest untouched. */
  function AdvanceInvaders(s: seq<InvaderState>, limit: int): (r: seq<InvaderState>)
    ensures |r| == |s|
  {
    var n := MovedCount(s, limit);
    seq(|s|, i requires 0 <= i < |s| => if i < n then Moved(s[i]) else s[i])
  }

  /**
   * The movement loop returns `false` exactly when some moved invader is past
   * `limit`; then it has moved the invaders up to the first such one and left
   * the later ones where they were. Otherwise every invader has moved.
   */
  lemma AdvanceInvadersSpec(s: seq<InvaderState>, limit: int)
    ensures FirstOver(s, limit).None? ==> forall i :: 0 <= i < |s| ==>
      AdvanceInvaders(s, limit)[i] == Moved(s[i]) && AdvanceInvaders(s, limit)[i].row <= limit
    ensures FirstOver(s, limit).Some? ==>
      var k := FirstOver(s, limit).value;
      && AdvanceInvaders(s, limit)[k].row > limit
      && (forall i :: 0 <= i <= k ==> AdvanceInvaders(s, limit)[i] == Moved(s[i]))
      && (forall i :: k < i < |s| ==> AdvanceInvaders(s, limit)[i] == s[i])
  {
  }

  /** Moving keeps every label and every column. */
  lemma AdvanceKeepsLabels(s: seq<InvaderState>, limit: int)
    ensures forall i :: 0 <= i < |s| ==>
      AdvanceInvaders(s, limit)[i].value == s[i].value && AdvanceInvaders(s, limit)[i].col == s[i].col
  {
  }

  /**
   * A pass in which no invader crosses `limit` keeps the labels unique,
   * registered and in range, every invader visible, and every row in
   * 1 ..= `limit`.
   */
  lemma AdvanceKeepsInvariant(s: seq<InvaderState>, reg: Registry, limit: int)
    requires LabelsUnique(s) && Registered(s, reg) && LabelsInRange(s)
    requires forall i :: 0 <= i < |s| ==> s[i].visible && 1 <= s[i].row
    requires FirstOver(s, limit).None?
    ensures var r := AdvanceInvaders(s, limit);
      && LabelsUnique(r) && Registered(r, reg) && LabelsInRange(r)
      && forall i :: 0 <= i < |r| ==> r[i].visible && 1 <= r[i].row <= limit
  {
    AdvanceInvadersSpec(s, limit);
  }

  /** A movement pass that stopped at invader `i`, the first one past `limit`, produced `AdvanceInvaders`. */
  lemma InvaderPassStops(pre: seq<InvaderState>, post: seq<InvaderState>, limit: int, i: nat)
    requires |post| == |pre| && i < |pre|
    requires forall j :: 0 <= j < i ==> post[j] == Moved(pre[j]) && Moved(pre[j]).row <= limit
    requires post[i] == Moved(pre[i]) && Moved(pre[i]).row > limit
    requires forall j :: i < j < |pre| ==> post[j] == pre[j]
    ensures FirstOver(pre, limit) == Some(i)
    ensures post == AdvanceInvaders(pre, limit)
  {
  }

  /** A movement pass that moved every invader without passing `limit` produced `AdvanceInvaders`. */
  lemma InvaderPassCompletes(pre: seq<InvaderState>, post: seq<InvaderState>, limit: int)
    requires |post| == |pre|
    requires forall j :: 0 <= j < |pre| ==> post[j] == Moved(pre[j]) && Moved(pre[j]).row <= limit
    ensures FirstOver(pre, limit).None?
    ensures post == AdvanceInvaders(pre, limit)
  {
  }

  // ---------------------------------------------------------- remove_invader

  /** The last index whose label is `val`, if any. */
  function LastMatch(s: seq<InvaderState>, val: int): (r: Option<nat>)
    ensures r.Some? ==> r.value < |s| && s[r.value].value == val
    ensures r.Some? ==> forall j :: r.value < j < |s| ==> s[j].value != val
    ensures r.None? <==> forall j :: 0 <= j < |s| ==> s[j].value != val
  {
    if s == [] then None
    else if s[|s| - 1].value == val then Some(|s| - 1)
    else LastMatch(s[..|s| - 1], val)
  }

  /** The index `remove_invader` deletes: the last match, or 0 when nothing matches. */
  function RemovalIndex(s: seq<InvaderState>, val: int): nat
  {
    match LastMatch(s, val)
    case None => 0
    case Some(k) => k
  }

  /**
   * With unique labels, `remove_invader(val)` of a listed label deletes that
   * invader, and the registry, with `val` freed, still registers every
   * remaining invader. For a label no longer listed it deletes the first
   * invader, a bystander whose label stays registered as on screen.
   */
  lemma {:induction false} RemovalKeepsRegistry(s: seq<InvaderState>, reg: Registry, val: int)
    requires |s| > 0 && LabelsUnique(s) && Registered(s, reg)
    ensures var r := RemoveAt(s, RemovalIndex(s, val));
      && LabelsUnique(r)
      && Registered(r, reg[val := false])
      && (forall i :: 0 <= i < |r| ==> r[i].value != val)
    ensures LastMatch(s, val).None? ==>
      RemovalIndex(s, val) == 0 && s[0].value in reg && reg[s[0].value] && s[0].value != val
  {
    var k := RemovalIndex(s, val);
    var r := RemoveAt(s, k);
    assert forall i :: 0 <= i < |r| ==> r[i] == if i < k then s[i] else s[i + 1];
    forall i | 0 <= i < |r|
      ensures r[i].value != val
    {
      match LastMatch(s, val)
      case None =>
      case Some(m) =>
        assert s[m].value == val;
        if i < k { assert s[i].value != s[m].value; } else { assert s[i + 1].value != s[m].value; }
    }
  }

  // ---------------------------------------------------------- generate_invader

  /**
   * Appending an invader with a free label and then registering it keeps the
   * labels unique and registered.
   */
  lemma {:induction false} AddingFreeLabelKeepsRegistry(s: seq<InvaderState>, reg: Registry, inv: InvaderState)
    requires LabelsUnique(s) && Registered(s, reg)
    requires Available(reg, inv.value)
    ensures LabelsUnique(s + [inv]) && Registered(s + [inv], reg[inv.value := true])
    ensures LabelsUnique([inv] + s) && Registered([inv] + s, reg[inv.value := true])
  {
    forall i | 0 <= i < |s|
      ensures s[i].value != inv.value
    {
      assert s[i].value in reg && reg[s[i].value];
    }
  }

  // ------------------------------------------------------ arrow_move_forward

  /** A visible arrow that, once moved, passes the arrival test. */
  predicate ArrivesNow(a: ArrowState)
  {
    a.visible && ArrivedAt(Flown(a))
  }

  /** The arrow `arrow_move_forward` stops at: the first visible arrow that arrives. */
  function FirstArrival(a: seq<ArrowState>): (r: Option<nat>)
    ensures r.Some? ==> r.value < |a| && ArrivesNow(a[r.value])
    ensures r.Some? ==> forall j :: 0 <= j < r.value ==> !ArrivesNow(a[j])
    ensures r.None? <==> forall j :: 0 <= j < |a| ==> !ArrivesNow(a[j])
  {
    if a == [] then None
    else if ArrivesNow(a[0]) then Some(0)
    else match FirstArrival(a[1..])
      case None => None
      case Some(k) => Some(k + 1)
  }

  /** One arrow's turn in the loop: visible arrows move, and an arriving one is hidden. */
  function StepArrow(a: ArrowState): ArrowState
  {
    if !a.visible then a
    else if ArrivedAt(Flown(a)) then Flown(a).(visible := false)
    else Flown(a)
  }

  /** The arrows after the loop: those up to the first arrival had their turn, the rest are untouched. */
  function AdvanceArrows(a: seq<ArrowState>): (r: seq<ArrowState>)
    ensures |r| == |a|
  {
    var n := match FirstArrival(a) case None => |a| case Some(k) => k + 1;
    seq(|a|, i requires 0 <= i < |a| => if i < n then StepArrow(a[i]) else a[i])
  }

  /** The label `arrow_move_forward` returns: the target snapshot of the first arriving arrow. */
  function ArrivedLabel(a: seq<ArrowState>): (r: Option<int>)
    ensures r.Some? <==> FirstArrival(a).Some?
  {
    match FirstArrival(a)
    case None => None
    case Some(k) => Some(a[k].target.value)
  }

  /**
   * `arrow_move_forward` moves each visible arrow up one row, in order; the
   * first one that arrives is hidden, its target's label is returned, and the
   * arrows after it are not touched in that call. Invisible arrows never move.
   */
  lemma AdvanceArrowsSpec(a: seq<ArrowState>)
    ensures forall i :: 0 <= i < |a| && !a[i].visible ==> AdvanceArrows(a)[i] == a[i]
    ensures FirstArrival(a).None? ==> forall i :: 0 <= i < |a| && a[i].visible ==>
      AdvanceArrows(a)[i] == Flown(a[i])
    ensures FirstArrival(a).Some? ==>
      var k := FirstArrival(a).value;
      && AdvanceArrows(a)[k] == Flown(a[k]).(visible := false)
      && ArrivedLabel(a) == Some(a[k].target.value)
      && (forall i :: 0 <= i < k && a[i].visible ==> AdvanceArrows(a)[i] == Flown(a[i]))
      && (forall i :: k < i < |a| ==> AdvanceArrows(a)[i] == a[i])
  {
  }

  /** A pass over the arrows that stopped at arrow `i`, the first to arrive, produced `AdvanceArrows`. */
  lemma ArrowPassStops(pre: seq<ArrowState>, post: seq<ArrowState>, i: nat)
    requires |post| == |pre| && i < |pre|
    requires forall j :: 0 <= j < i ==> post[j] == StepArrow(pre[j]) && !ArrivesNow(pre[j])
    requires ArrivesNow(pre[i]) && post[i] == StepArrow(pre[i])
    requires forall j :: i < j < |pre| ==> post[j] == pre[j]
    ensures FirstArrival(pre) == Some(i)
    ensures post == AdvanceArrows(pre)
  {
  }

  /** A pass over the arrows in which none arrived produced `AdvanceArrows`. */
  lemma ArrowPassCompletes(pre: seq<ArrowState>, post: seq<ArrowState>)
    requires |post| == |pre|
    requires forall j :: 0 <= j < |pre| ==> post[j] == StepArrow(pre[j]) && !ArrivesNow(pre[j])
    ensures FirstArrival(pre).None?
    ensures post == AdvanceArrows(pre)
  {
  }

  // ------------------------------------------------- one iteration of `start`

  /** The label the arrows' part of an iteration hands to `remove_invader`: an arrival's, when the arrows move. */
  function HitLabel(due: bool, a: seq<ArrowState>): Option<int>
  {
    if due then ArrivedLabel(a) else None
  }

  /** The arrows after the arrows' part of an iteration. */
  function FlownArrows(due: bool, a: seq<ArrowState>): seq<ArrowState>
  {
    if due then AdvanceArrows(a) else a
  }

  /** `remove_invader(val)` of an arrived label panics: `Vec::remove(0)` on an empty list. */
  predicate HitPanics(s: seq<InvaderState>, hit: Option<int>)
  {
    hit.Some? && |s| == 0
  }

  /** The list after `remove_invader` of an arrived label deleted one element; unchanged when nothing arrived or it panicked. */
  function AfterHit(s: seq<InvaderState>, hit: Option<int>): seq<InvaderState>
  {
    if hit.Some? && |s| > 0 then RemoveAt(s, RemovalIndex(s, hit.value)) else s
  }

  /** The registry after `remove_invader` of an arrived label: that label freed. */
  function FreedBy(reg: Registry, hit: Option<int>): Registry
  {
    if hit.Some? then reg[hit.value := false] else reg
  }
}
