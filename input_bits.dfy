/**
 * The input accumulator shared by both versions of `Game`: eight toggle bits
 * (`input_buf`, a `Vec<u8>` created as `vec![0; 8]`) and the byte they compose
 * (`input_value: u8`), recomputed by `update_input` with eight `(v << 1) | bit`
 * steps on a `u8`.
 */
module InputBits {
  import opened Wrappers

  /** Number of entries of `input_buf`. */
  const WIDTH: nat := 8
  /** 2^8: `u8` arithmetic is taken modulo this. */
  const BYTE: nat := 256
  /** The key bytes the input thread forwards: b'1' ..= b'8' and b' '. */
  const KEY_ONE: int := 0x31
  const KEY_EIGHT: int := 0x38
  const KEY_SPACE: int := 0x20

  predicate IsBit(b: int) { b == 0 || b == 1 }

  predicate AllBits(bits: seq<int>) { forall i :: 0 <= i < |bits| ==> IsBit(bits[i]) }

  /** A well-formed `input_buf`: eight entries, each 0 or 1. */
  predicate IsBuffer(bits: seq<int>) { |bits| == WIDTH && AllBits(bits) }

  /** `vec![0; 8]`. */
  function Zeros(): seq<int> { [0, 0, 0, 0, 0, 0, 0, 0] }

  function Pow2(n: nat): (r: nat)
    ensures r >= 1
  {
    if n == 0 then 1 else 2 * Pow2(n - 1)
  }

  /**
   * The big-endian value of a bit string: `bits[i]` is worth 2^(|bits| - 1 - i),
   * so for the eight-entry buffer `input_value` should be Σ bits[i]·2^(7 - i).
   */
  function Compose(bits: seq<int>): (r: int)
    requires AllBits(bits)
    ensures 0 <= r < Pow2(|bits|)
  {
    if bits == [] then 0 else bits[0] * Pow2(|bits| - 1) + Compose(bits[1..])
  }

  /**
   * One iteration of `update_input`'s loop, `(input_value << 1) | bit` on a `u8`:
   * the shift drops the top bit, and or-ing a 0/1 bit into the cleared low bit
   * adds it.
   */
  function ShiftStep(v: int, bit: int): int
  {
    (v * 2) % BYTE + bit
  }

  /** The whole loop of `update_input`: the bits shifted into `v` from first to last. */
  function ShiftIn(v: int, bits: seq<int>): int
    decreases |bits|
  {
    if bits == [] then v else ShiftIn(ShiftStep(v, bits[0]), bits[1..])
  }

  /** The entry of `input_buf` after `input_buf[k] ^ 1` on a 0/1 bit. */
  function Toggle(bits: seq<int>, k: int): seq<int>
    requires 0 <= k < |bits|
  {
    bits[k := 1 - bits[k]]
  }

  /**
   * The bit index `update_input` derives from a received key byte: `raw_key - b'1'`
   * on a `u8`, then used to index the eight-entry buffer. A byte below b'1'
   * underflows and one above b'8' indexes out of bounds; both panic, shown as None.
   */
  function KeyIndex(raw: int): (r: Option<int>)
    requires 0 <= raw < BYTE
    ensures r.Some? <==> KEY_ONE <= raw <= KEY_EIGHT
    ensures r.Some? ==> 0 <= r.value < WIDTH && r.value + KEY_ONE == raw
  {
    if raw < KEY_ONE then None
    else if raw - KEY_ONE >= WIDTH as int then None
    else Some(raw - KEY_ONE)
  }

  /** `update_input` gets through a `try_recv` result without panicking: nothing arrived, or b'1' ..= b'8'. */
  predicate ReadsKey(key: Option<int>)
    requires key.Some? ==> 0 <= key.value < BYTE
  {
    key.None? || KeyIndex(key.value).Some?
  }

  /** The bit a received key selects, `raw_key - b'1'`; None when nothing arrived or the key panics. */
  function KeyBit(key: Option<int>): Option<int>
    requires key.Some? ==> 0 <= key.value < BYTE
  {
    if key.Some? then KeyIndex(key.value) else None
  }

  /** The buffer once `update_input` flipped bit `k`, or left alone when no bit was selected. */
  function Flip(bits: seq<int>, k: Option<int>): (r: seq<int>)
    requires AllBits(bits)
    requires k.Some? ==> 0 <= k.value < |bits|
    ensures AllBits(r) && |r| == |bits|
  {
    if k.Some? then Toggle(bits, k.value) else bits
  }

  lemma ModShift(x: int, q: int)
    ensures (x + q * BYTE) % BYTE == x % BYTE
  {
  }

  /** Values congruent modulo 256 stay congruent after `* p + c`. */
  lemma ModMulAdd(a: int, b: int, p: int, c: int)
    requires a % BYTE == b % BYTE
    ensures (a * p + c) % BYTE == (b * p + c) % BYTE
  {
    var k := a / BYTE - b / BYTE;
    assert a == b + k * BYTE;
    calc {
      a * p + c;
      (b + k * BYTE) * p + c;
      { assert (b + k * BYTE) * p == b * p + (k * p) * BYTE; }
      (b * p + c) + (k * p) * BYTE;
    }
    ModShift(b * p + c, k * p);
  }

  /** Euclidean division by 256 has one quotient and remainder. */
  lemma ModUnique(x: int, q: int, r: int)
    requires x == q * BYTE + r && 0 <= r < BYTE
    ensures x % BYTE == r
  {
    ModShift(r, q);
  }

  /** A shift step is the wrapping `2v + bit` of an unbounded integer. */
  lemma ShiftStepWraps(v: int, bit: int)
    requires IsBit(bit)
    ensures ShiftStep(v, bit) % BYTE == ShiftStep(v, bit)
    ensures ShiftStep(v, bit) == (2 * v + bit) % BYTE
  {
    var q := (v * 2) / BYTE;
    var h := (v * 2) % BYTE;
    assert v * 2 == q * BYTE + h;
    var m := v - 128 * q;
    assert h == 2 * m;
    assert h <= BYTE - 2;
    ModUnique(2 * v + bit, q, h + bit);
    ModUnique(h + bit, 0, h + bit);
  }

  /** The arithmetic of one shift step inside `ShiftInValue`. */
  lemma ShiftArith(v: int, b: int, w: int, p: int, c: int)
    requires w % BYTE == (2 * v + b) % BYTE
    ensures (w * p + c) % BYTE == (v * (2 * p) + (b * p + c)) % BYTE
  {
    ModMulAdd(w, 2 * v + b, p, c);
    assert (2 * v + b) * p + c == v * (2 * p) + (b * p + c);
  }

  /** Shifting bits into a byte keeps only the low eight bits of `v·2^n + Compose(bits)`. */
  lemma {:induction false} ShiftInValue(v: int, bits: seq<int>)
    requires AllBits(bits) && bits != []
    ensures ShiftIn(v, bits) == (v * Pow2(|bits|) + Compose(bits)) % BYTE
    decreases |bits|
  {
    var rest := bits[1..];
    var w := ShiftStep(v, bits[0]);
    ShiftStepWraps(v, bits[0]);
    assert ShiftIn(v, bits) == ShiftIn(w, rest);
    var p := Pow2(|rest|);
    assert Pow2(|bits|) == 2 * p;
    assert Compose(bits) == bits[0] * p + Compose(rest);
    if rest == [] {
      assert ShiftIn(w, rest) == w;
      assert p == 1 && Compose(rest) == 0;
    } else {
      ShiftInValue(w, rest);
      ShiftArith(v, bits[0], w, p, Compose(rest));
    }
  }

  /**
   * Eight `(v << 1) | bit` steps on a `u8` discard every old bit: whatever
   * `input_value` held before, `update_input` leaves exactly the big-endian
   * value of the buffer.
   */
  lemma ShiftInForgetsOldValue(v: int, bits: seq<int>)
    requires IsBuffer(bits)
    ensures ShiftIn(v, bits) == Compose(bits)
  {
    ShiftInValue(v, bits);
    assert Pow2(|bits|) == BYTE;
    ModShift(Compose(bits), v);
    assert v * Pow2(|bits|) + Compose(bits) == Compose(bits) + v * BYTE;
  }

  /** Toggling bit `k` changes the composed value by exactly its weight 2^(|bits| - 1 - k). */
  lemma {:induction false} ToggleChangesValue(bits: seq<int>, k: int)
    requires AllBits(bits) && 0 <= k < |bits|
    ensures AllBits(Toggle(bits, k))
    ensures Compose(Toggle(bits, k)) == Compose(bits) + (1 - 2 * bits[k]) * Pow2(|bits| - 1 - k)
  {
    var t := Toggle(bits, k);
    if k > 0 {
      assert t[1..] == Toggle(bits[1..], k - 1);
      ToggleChangesValue(bits[1..], k - 1);
    } else {
      assert t[1..] == bits[1..];
    }
  }

  /** The leading bit decides whether the value reaches its weight 2^(|bits| - 1). */
  lemma ComposeHead(bits: seq<int>)
    requires AllBits(bits) && bits != []
    ensures bits[0] == 0 ==> Compose(bits) < Pow2(|bits| - 1)
    ensures bits[0] == 1 ==> Compose(bits) >= Pow2(|bits| - 1)
  {
    var p, rest := Pow2(|bits| - 1), bits[1..];
    assert |rest| == |bits| - 1;
    assert 0 <= Compose(rest) < p;
    if bits[0] == 0 {
      assert Compose(bits) == Compose(rest);
    } else {
      assert Compose(bits) == p + Compose(rest);
    }
  }

  /** The composed byte determines the buffer: distinct bit patterns have distinct values. */
  lemma {:induction false} ComposeInjective(a: seq<int>, b: seq<int>)
    requires AllBits(a) && AllBits(b) && |a| == |b|
    requires Compose(a) == Compose(b)
    ensures a == b
  {
    if a != [] {
      ComposeHead(a);
      ComposeHead(b);
      assert a[0] == b[0];
      ComposeInjective(a[1..], b[1..]);
      assert a == [a[0]] + a[1..];
      assert b == [b[0]] + b[1..];
    }
  }

  /** The cleared buffer composes to 0, and only it does. */
  lemma ZeroValueIffCleared(bits: seq<int>)
    requires IsBuffer(bits)
    ensures Compose(bits) == 0 <==> bits == Zeros()
  {
    assert Compose(Zeros()) == 0;
    if Compose(bits) == 0 {
      ComposeInjective(bits, Zeros());
    }
  }
}
