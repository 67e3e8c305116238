/** The host-side input of the parallel-minimum example: a multiplicative
    generator fills the source array with `cl_uint` values and keeps the
    running minimum that the device result is later compared with.
 */
module SourceData {
  import opened Machine

  /** `NUM_SRC_ITEMS`, the length of the source array */
  const NUM_SRC_ITEMS: usize := 4096 * 4096

  /** `a` in the host program */
  const MULTIPLIER: u32 := 21341
  /** the initial value of `b` */
  const SEED: u32 := 23458
  /** The largest state the generator can reach: 21341 * 65535. */
  const MAX_STATE: int := 1398582435
  /** The largest cell the generator can write: MAX_STATE + (MAX_STATE >> 16). */
  const MAX_CELL: int := 1398603775
  /** Above this state `b + (b >> 16)` no longer fits in a u32. */
  const MIX_LIMIT: int := 0xFFFF_0000

  /** One step `b = a.wrapping_mul(b & 65535)`: the product of the multiplier
      and a 16-bit value never reaches 2^32, so the wrapping multiply is exact. */
  function NextState(b: u32): (b': u32)
    ensures b' == MULTIPLIER * Low16(b)
    ensures b' <= MAX_STATE
  {
    WrappingMul32(MULTIPLIER, Low16(b))
  }

  /** The cell value `b + (b >> 16)`, with the panicking addition of a debug
      build. It panics exactly for states above MIX_LIMIT, so never for a state
      the generator produces. */
  function Mix(b: u32): (r: Result<u32>)
    ensures r.Ok? <==> b <= MIX_LIMIT
    ensures r.Ok? ==> b <= r.value
    ensures b <= MAX_STATE ==> r.Ok? && r.value <= MAX_CELL
  {
    CheckedAdd32(b, High16(b))
  }

  /** The value of `b` after `k` steps of the generator. */
  function StateAt(k: nat): (b: u32)
    ensures b <= MAX_STATE
  {
    if k == 0 then SEED else NextState(StateAt(k - 1))
  }

  /** The value the generator writes into cell `k` (0-based): the state is
      advanced first, then mixed. */
  function CellAt(k: nat): (c: u32)
    ensures c <= MAX_CELL
  {
    Mix(StateAt(k + 1)).value
  }

  /** `m` is the least element of `s`. */
  ghost predicate IsMinimumOf(m: u32, s: seq<u32>)
  {
    (forall i :: 0 <= i < |s| ==> m <= s[i]) && m in s
  }

  /** The loop of the host program over an array of `n` zero-initialised
      cells: every cell gets the generator's next value and `min` tracks the
      smallest value written so far, starting from `u32::MAX`. */
  method Generate(n: nat) returns (src: seq<u32>, min: u32)
    ensures |src| == n
    ensures forall k :: 0 <= k < n ==> src[k] == CellAt(k)
    ensures forall k :: 0 <= k < n ==> min <= src[k]
    ensures n == 0 ==> min == U32_MAX
    ensures n > 0 ==> min in src
  {
    src := seq(n, _ => 0);
    var b: u32 := SEED;
    min := U32_MAX;
    var k := 0;
    ghost var at := 0;
    while k < n
      invariant 0 <= k <= n
      invariant |src| == n
      invariant b == StateAt(k)
      invariant forall i :: 0 <= i < k ==> src[i] == CellAt(i)
      invariant forall i :: 0 <= i < k ==> min <= src[i]
      invariant k == 0 ==> min == U32_MAX
      invariant k > 0 ==> at < k && src[at] == min
    {
      b := NextState(b);
      assert b == StateAt(k + 1);
      var cell := Mix(b).value;
      assert cell == CellAt(k);
      src := src[k := cell];
      if cell < min {
        at := k;
      }
      min := if cell < min then cell else min;
      k := k + 1;
    }
    if n > 0 {
      assert src[at] == min;
    }
  }

  /** The running minimum is characterised by its two properties: any value
      that is a lower bound of `s` and occurs in `s` is that minimum. */
  lemma MinimumIsUnique(s: seq<u32>, m: u32, m': u32)
    requires IsMinimumOf(m, s)
    requires IsMinimumOf(m', s)
    ensures m == m'
  {
  }
}
