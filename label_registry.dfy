/**
 * The label registry `hex_values: HashMap<u8, bool>` and the random draws of
 * `generate_invader`. The random number generator is replaced by the stream of
 * draws it would produce, supplied by the caller.
 */
module LabelRegistry {
  /** `hex_values`: true means "on screen", false means "used before, free now". */
  type Registry = map<int, bool>

  /** Labels are drawn from `1..=0xFF`, so 0 never labels an invader. */
  const MIN_LABEL: int := 1
  const MAX_LABEL: int := 0xFF

  /** The guard of `generate_invader`: `(contains_key && !get) || !contains_key`. */
  predicate Available(reg: Registry, val: int)
  {
    (val in reg && !reg[val]) || val !in reg
  }

  /** One iteration's draws: `gen_range(3..=cols - 5)` and `gen_range(1..=0xFF)`. */
  datatype Draw = Draw(col: int, val: int)

  predicate ValidDraw(d: Draw, cols: int)
  {
    3 <= d.col <= cols - 5 && MIN_LABEL <= d.val <= MAX_LABEL
  }

  predicate ValidDraws(draws: seq<Draw>, cols: int)
  {
    forall i :: 0 <= i < |draws| ==> ValidDraw(draws[i], cols)
  }

  /** The retry loop terminates on this stream: some draw has a free label. */
  predicate HasAvailable(draws: seq<Draw>, reg: Registry)
  {
    exists i :: 0 <= i < |draws| && Available(reg, draws[i].val)
  }

  /** The draw `generate_invader` keeps: the first one whose label is free. */
  function FirstAvailable(draws: seq<Draw>, reg: Registry): (k: nat)
    requires HasAvailable(draws, reg)
    ensures k < |draws| && Available(reg, draws[k].val)
    ensures forall j :: 0 <= j < k ==> !Available(reg, draws[j].val)
  {
    if Available(reg, draws[0].val) then 0
    else
      assert HasAvailable(draws[1..], reg) by {
        var i :| 0 <= i < |draws| && Available(reg, draws[i].val);
        assert i > 0 && draws[1..][i - 1] == draws[i];
      }
      1 + FirstAvailable(draws[1..], reg)
  }

  /** A label is free exactly when the registry does not map it to true. */
  lemma AvailableIffNotActive(reg: Registry, val: int)
    ensures Available(reg, val) <==> !(val in reg && reg[val])
  {
  }
}
