/** The host's choice of NDRange sizes for the `minp` kernel: start from seven
    64-wide wavefronts per compute unit and step by one wavefront until the
    global size divides a quarter of the source length; the group count and
    every buffer and launch size follow from that.
 */
module WorkSize {
  import opened Machine
  import opened SourceData

  /** the divisor 4 in `NUM_SRC_ITEMS / 4` of the loop guard */
  const QUARTER_DIVISOR: usize := 4
  /** `NUM_SRC_ITEMS / 4`, the value the global size must divide: 2^22 */
  const QUARTER: usize := NUM_SRC_ITEMS / QUARTER_DIVISOR
  /** `ws`, the wavefront width, used as the local work size */
  const WAVEFRONT: usize := 64
  /** wavefronts per SIMD */
  const WAVES_PER_UNIT: usize := 7
  /** The largest compute-unit count for which the search succeeds:
      2^22 / (7 * 64), see StartInRange. */
  const MAX_COMPUTE_UNITS: nat := 9362

  function Pow2(k: nat): (p: nat)
    ensures p >= 1
  {
    if k == 0 then 1 else 2 * Pow2(k - 1)
  }

  /** The least power of two that is at least `x`. */
  function NextPow2(x: nat): (p: nat)
    ensures p >= 1
  {
    if x <= 1 then 1 else 2 * NextPow2((x + 1) / 2)
  }

  /** `g` is an admissible global work size: the `%` in the loop guard does
      not panic and leaves no remainder. */
  predicate Fits(g: int)
  {
    g > 0 && QUARTER % g == 0
  }

  /** `g` is where the search from `start` stops: the first multiple of the
      wavefront width at or above `start` that fits. */
  ghost predicate IsLeastFit(start: nat, g: nat)
  {
    && g % WAVEFRONT == 0
    && start <= g
    && Fits(g)
    && forall h :: start <= h < g && h % WAVEFRONT == 0 ==> !Fits(h)
  }

  /** `g` is one of the sizes the search can return: a power of two from
      2^6, one wavefront, to 2^22. */
  ghost predicate IsLaunchSize(g: int)
  {
    exists j :: 6 <= j <= 22 && g == Pow2(j)
  }

  /** `compute_units * 7 * ws` on usize: `compute_units` comes from a
      `cl_uint`, so the product never overflows. */
  function StartSize(computeUnits: u32): (r: Result<usize>)
    ensures r.Ok?
    ensures r.value == computeUnits * (7 * 64)
    ensures r.value % WAVEFRONT == 0
  {
    var byUnits := CheckedMulUsize(computeUnits, WAVES_PER_UNIT);
    assert computeUnits * (WAVES_PER_UNIT * WAVEFRONT) == WAVEFRONT * (computeUnits * WAVES_PER_UNIT);
    MultipleModZero(WAVEFRONT, computeUnits * WAVES_PER_UNIT);
    if byUnits.Err? then byUnits else CheckedMulUsize(byUnits.value, WAVEFRONT)
  }

  /** The outcome of the `while` loop that picks `global_work_size`, from a start that is a
      multiple of the wavefront width, as `compute_units * 7 * ws` always
      is, in closed form: a zero start makes the first `%` panic, a start
      above 2^22 never fits so the `+=` eventually overflows, and any other
      start stops at the next power of two at or above it, which lies below
      twice the start. */
  function SearchResult(start: usize): (r: Result<usize>)
    requires start % WAVEFRONT == 0
    ensures r.Ok? ==> start <= r.value < 2 * start
  {
    if start == 0 then Err(RemainderByZero)
    else if start > QUARTER then Err(AddOverflow)
    else
      NextPow2Bounds(start);
      Ok(NextPow2(start))
  }

  /** The start `compute_units * 7 * ws` followed by the `while` loop that
      picks `global_work_size`. Zero compute units panic with a zero
      divisor, more than 9362 with an overflowing addition, and any other
      count yields the next power of two at or above the start. */
  method GlobalWorkSize(computeUnits: u32) returns (r: Result<usize>)
    ensures r == SearchResult(StartSize(computeUnits).value)
    ensures r.Ok? <==> 1 <= computeUnits <= MAX_COMPUTE_UNITS
    ensures computeUnits == 0 ==> r == Err(RemainderByZero)
    ensures computeUnits > MAX_COMPUTE_UNITS ==> r == Err(AddOverflow)
  {
    var start: usize := StartSize(computeUnits).value;
    StartInRange(computeUnits);
    r := Search(start);
  }

  /** The `while` loop that picks `global_work_size`, from a start that is a multiple of the
      wavefront width: it computes SearchResult, and a value it returns is
      the least fitting multiple of 64 at or above the start. */
  method Search(start: usize) returns (r: Result<usize>)
    requires start % WAVEFRONT == 0
    ensures r == SearchResult(start)
    ensures r.Ok? ==> IsLeastFit(start, r.value)
  {
    ghost var target := NextPow2(start);
    ghost var last: int := target / WAVEFRONT;
    if 0 < start <= QUARTER {
      TargetFits(start);
      assert target == WAVEFRONT * last;
    }
    var g: usize := start;
    ghost var m: int := start / WAVEFRONT;
    var rem: Result<usize> := CheckedRem(QUARTER, g);
    while rem != Ok(0)
      invariant start <= g == WAVEFRONT * m
      invariant start == 0 ==> g == 0
      invariant rem == CheckedRem(QUARTER, g)
      invariant 0 < start <= QUARTER ==> m <= last
      decreases USIZE_LIMIT - g
    {
      if rem.Err? {
        return Err(rem.panic);
      }
      var next: Result<usize> := CheckedAddUsize(g, WAVEFRONT);
      if next.Err? {
        return Err(next.panic);
      }
      g := next.value;
      m := m + 1;
      rem := CheckedRem(QUARTER, g);
    }
    assert Fits(g);
    FitIsAtMostQuarter(g);
    NextPow2LeastFit(start, g);
    NextPow2IsLeastFit(start);
    return Ok(g);
  }

  /** What the closed form means for a start the program can compute: a
      result, when there is one, is the least fitting multiple of 64 at or
      above the start. */
  lemma SearchResultIsLeastFit(start: usize)
    requires start % WAVEFRONT == 0
    ensures SearchResult(start).Ok? ==> IsLeastFit(start, SearchResult(start).value)
  {
    if 0 < start <= QUARTER {
      NextPow2IsLeastFit(start);
    }
  }

  /** A result of the search from a multiple of 64 is a launch size. */
  lemma SearchResultIsLaunchSize(start: usize)
    requires start % WAVEFRONT == 0
    ensures SearchResult(start).Ok? ==> IsLaunchSize(SearchResult(start).value)
  {
    if 0 < start <= QUARTER {
      TargetFits(start);
    }
  }

  /** The start is positive and at most 2^22 exactly for 1 to 9362
      compute units. */
  lemma StartInRange(computeUnits: u32)
    ensures StartSize(computeUnits).value == 0 <==> computeUnits == 0
    ensures StartSize(computeUnits).value <= QUARTER <==> computeUnits <= MAX_COMPUTE_UNITS
  {
    assert 9362 * (7 * 64) <= QUARTER < 9363 * (7 * 64);
  }

  /** The value the search is heading for when the start is in range: a
      multiple of 64 at or above the start that fits, a power of two from
      2^6 to 2^22. */
  lemma TargetFits(start: nat)
    requires 0 < start <= QUARTER && start % WAVEFRONT == 0
    ensures NextPow2(start) % WAVEFRONT == 0
    ensures start <= NextPow2(start) <= QUARTER
    ensures Fits(NextPow2(start))
    ensures exists j :: 6 <= j <= 22 && NextPow2(start) == Pow2(j)
  {
    var j := NextPow2IsPow2(start);
    NextPow2AtLeast(start);
    QuarterIsPow2();
    NextPow2Least(start, 22);
    Pow2Monotone(22, j);
    Pow2Fits(j);
    MultiplesApart(0, start);
    assert Pow2(6) == WAVEFRONT;
    Pow2Monotone(j, 6);
    Pow2MultipleOfWavefront(j);
  }

  /** The loop's own stopping rule picks out the next power of two: it is
      the first multiple of 64 at or above the start that divides 2^22. */
  lemma NextPow2IsLeastFit(start: nat)
    requires 0 < start <= QUARTER && start % WAVEFRONT == 0
    ensures IsLeastFit(start, NextPow2(start))
  {
    TargetFits(start);
    forall h | start <= h < NextPow2(start) && h % WAVEFRONT == 0
      ensures !Fits(h)
    {
      NextPow2LeastFit(start, h);
    }
  }

  /** No fitting size at or above `x` lies below the next power of two. */
  lemma NextPow2LeastFit(x: nat, h: int)
    ensures Fits(h) && x <= h ==> NextPow2(x) <= h
  {
    if Fits(h) && x <= h {
      var j := FitExponent(h);
      NextPow2Least(x, j);
    }
  }

  /** The next power of two is at least `x` and less than `2 * x`. */
  lemma NextPow2Bounds(x: nat)
    requires x >= 1
    ensures x <= NextPow2(x) < 2 * x
  {
    NextPow2AtLeast(x);
    var j := NextPow2IsPow2(x);
    if j > 0 {
      NextPow2Least(x, j - 1);
    }
  }

  lemma {:induction false} NextPow2IsPow2(x: nat) returns (j: nat)
    ensures NextPow2(x) == Pow2(j)
  {
    if x <= 1 {
      j := 0;
    } else {
      var i := NextPow2IsPow2((x + 1) / 2);
      j := i + 1;
    }
  }

  lemma {:induction false} NextPow2AtLeast(x: nat)
    ensures x <= NextPow2(x)
  {
    if x > 1 {
      NextPow2AtLeast((x + 1) / 2);
    }
  }

  /** The next power of two is below every power of two that is at least `x`. */
  lemma {:induction false} NextPow2Least(x: nat, j: nat)
    ensures x <= Pow2(j) ==> NextPow2(x) <= Pow2(j)
  {
    if x > 1 && j > 0 {
      NextPow2Least((x + 1) / 2, j - 1);
    }
  }

  lemma {:induction false} Pow2Monotone(i: nat, j: nat)
    ensures i < j ==> Pow2(i) < Pow2(j)
    decreases j
  {
    if i < j - 1 {
      Pow2Monotone(i, j - 1);
    }
  }

  lemma {:induction false} Pow2Add(a: nat, b: nat)
    ensures Pow2(a + b) == Pow2(a) * Pow2(b)
    decreases b
  {
    if b > 0 {
      Pow2Add(a, b - 1);
      assert Pow2(a + b) == 2 * Pow2(a + b - 1);
      assert Pow2(a) * Pow2(b) == Pow2(a) * (2 * Pow2(b - 1));
    }
  }

  /** Every power of two up to 2^22 fits. */
  lemma Pow2Fits(j: nat)
    ensures j <= 22 ==> Fits(Pow2(j))
  {
    if j <= 22 {
      QuarterIsPow2();
      Pow2Add(j, 22 - j);
      MultipleModZero(Pow2(j), Pow2(22 - j));
    }
  }

  /** Every fitting size is a power of two up to 2^22. */
  lemma FitExponent(g: int) returns (j: nat)
    requires Fits(g)
    ensures j <= 22 && g == Pow2(j)
  {
    QuarterIsPow2();
    FitQuotient(g);
    FactorOfPow2(22, g, QUARTER / g);
    j :| 0 <= j <= 22 && g == Pow2(j);
  }

  /** Two distinct multiples of the wavefront width are at least one
      wavefront apart. */
  lemma MultiplesApart(a: int, b: int)
    requires a % WAVEFRONT == 0 && b % WAVEFRONT == 0
    ensures a < b ==> a + WAVEFRONT <= b
  {
    assert a == WAVEFRONT * (a / WAVEFRONT);
    assert b == WAVEFRONT * (b / WAVEFRONT);
  }

  /** No global size above 2^22 fits. */
  lemma FitIsAtMostQuarter(g: int)
    requires Fits(g)
    ensures g <= QUARTER
  {
  }

  /** A fitting size times its cofactor is 2^22. */
  lemma FitQuotient(g: int)
    requires Fits(g)
    ensures QUARTER == g * (QUARTER / g)
  {
    assert QUARTER == g * (QUARTER / g) + QUARTER % g;
  }

  /** Every factor of a power of two is itself a smaller or equal power of
      two. */
  lemma {:induction false} FactorOfPow2(k: nat, d: nat, q: nat)
    requires Pow2(k) == d * q
    ensures exists j :: 0 <= j <= k && d == Pow2(j)
    decreases k
  {
    if d == 1 {
      assert d == Pow2(0);
    } else {
      assert d >= 2;
      ProductAtLeastFactor(d, q);
      assert k > 0;
      assert Pow2(k) == 2 * Pow2(k - 1);
      if d % 2 == 0 {
        HalveFactor(Pow2(k - 1), d / 2, q);
        FactorOfPow2(k - 1, d / 2, q);
        var j :| 0 <= j <= k - 1 && d / 2 == Pow2(j);
        assert d == Pow2(j + 1);
      } else {
        OddFactor(Pow2(k - 1), d, q);
        FactorOfPow2(k - 1, d, q / 2);
      }
    }
  }

  lemma ProductAtLeastFactor(d: nat, q: nat)
    requires d * q >= 1 && d >= 2
    ensures d * q >= 2
  {
  }

  lemma HalveFactor(p: nat, d': nat, q: nat)
    requires 2 * p == (2 * d') * q
    ensures p == d' * q
  {
  }

  /** An odd factor of an even number leaves an even cofactor. */
  lemma OddFactor(p: nat, d: nat, q: nat)
    requires 2 * p == d * q && d % 2 == 1
    ensures q % 2 == 0 && p == d * (q / 2)
  {
    var a := d / 2;
    var b := q / 2;
    var r := q % 2;
    assert d * q == (2 * a + 1) * (2 * b + r);
    assert (2 * a + 1) * (2 * b + r) == 2 * (2 * a * b + a * r + b) + r;
  }

  lemma QuarterIsPow2()
    ensures QUARTER == Pow2(22)
  {
    assert Pow2(6) == 64;
    assert Pow2(12) == 4096;
    assert Pow2(18) == 262144;
  }

  lemma MultipleModZero(y: nat, m: nat)
    requires y > 0
    ensures (y * m) % y == 0
  {
    var x := y * m;
    var t := m - x / y;
    assert x == y * (x / y) + x % y;
    assert y * t == y * m - y * (x / y);
    SmallMultiple(y, t);
  }

  lemma SmallMultiple(y: int, t: int)
    requires y > 0 && 0 <= y * t < y
    ensures t == 0
  {
  }

  /** Exactly the powers of two from 2^6 on are multiples of 64. */
  lemma {:induction false} Pow2MultipleOfWavefront(j: nat)
    ensures Pow2(j) % WAVEFRONT == 0 <==> j >= 6
  {
    if j < 6 {
      assert Pow2(0) == 1 && Pow2(1) == 2 && Pow2(2) == 4;
      assert Pow2(3) == 8 && Pow2(4) == 16 && Pow2(5) == 32;
    } else if j == 6 {
      assert Pow2(6) == WAVEFRONT;
    } else {
      Pow2MultipleOfWavefront(j - 1);
      var x := Pow2(j - 1);
      assert x == WAVEFRONT * (x / WAVEFRONT);
      assert Pow2(j) == WAVEFRONT * (2 * (x / WAVEFRONT));
      MultipleModZero(WAVEFRONT, 2 * (x / WAVEFRONT));
    }
  }

  /** The sizes the host passes to OpenCL once the global size is chosen. */
  datatype LaunchPlan = LaunchPlan(
    /** global size of `minp` and length of the `dbg` buffer */
    globalWorkSize: usize,
    /** local size of `minp` */
    localWorkSize: usize,
    /** length of the `dst` buffer and global size of `reduce` */
    numGroups: usize,
    /** the `num_src_items` kernel argument, a `cl_int` */
    srcItemsArg: int,
    /** bytes mapped back from `dst` */
    dstMapBytes: usize,
    /** bytes mapped back from `dbg` */
    dbgMapBytes: usize)

  /** The size relations both kernel launches and the read-back rely on. */
  ghost predicate Consistent(p: LaunchPlan)
  {
    // the NDRange of `minp` is an exact number of 64-wide work-groups
    && p.localWorkSize == WAVEFRONT
    && p.numGroups * WAVEFRONT == p.globalWorkSize
    // `data[0]` and `debug[0..4]` are in bounds
    && p.numGroups >= 1
    && p.globalWorkSize >= 4
    // the mapped regions are exactly the `dst` and `dbg` buffers
    && p.dstMapBytes == p.numGroups * UINT_BYTES
    && p.dbgMapBytes == p.globalWorkSize * UINT_BYTES
    // the cast of `NUM_SRC_ITEMS` to `cl_int` keeps its value
    && p.srcItemsArg == NUM_SRC_ITEMS
    // the global size is one the search can return
    && IsLaunchSize(p.globalWorkSize)
  }

  /** In a consistent plan the source length is a whole multiple of four
      times the global size: the loop's test on a quarter of the source
      length carries over to the whole source. */
  lemma PlanSplitsSource(p: LaunchPlan)
    requires Consistent(p)
    ensures NUM_SRC_ITEMS % (QUARTER_DIVISOR * p.globalWorkSize) == 0
  {
    LaunchSizeFits(p.globalWorkSize);
    QuarterFitIsSourceFit(p.globalWorkSize);
    MultipleModZero(QUARTER_DIVISOR * p.globalWorkSize, QUARTER / p.globalWorkSize);
  }

  /** `local_work_size`, `num_groups` and the buffer, argument and mapping
      sizes derived from a launch size the loop has produced: the plan built
      from them is consistent. */
  function PlanFor(globalWorkSize: usize): (p: LaunchPlan)
    requires IsLaunchSize(globalWorkSize)
    ensures p.globalWorkSize == globalWorkSize
    ensures Consistent(p)
  {
    LaunchSizeFits(globalWorkSize);
    FitIsAtMostQuarter(globalWorkSize);
    MultiplesApart(0, globalWorkSize);
    var localWorkSize := WAVEFRONT;
    var numGroups := globalWorkSize / localWorkSize;
    LaunchPlan(globalWorkSize, localWorkSize, numGroups, AsI32(NUM_SRC_ITEMS),
               CheckedMulUsize(numGroups, UINT_BYTES).value,
               CheckedMulUsize(globalWorkSize, UINT_BYTES).value)
  }

  /** Everything from the compute-unit query to the mapped result buffers,
      as a function of the compute-unit count: the outcome of
      the search (which GlobalWorkSize computes) followed by the plan built
      from it. A plan exists exactly for the compute-unit counts for which
      the search succeeds, with the search's panics otherwise; it is
      consistent and its global size is the search result. */
  function PlanLaunch(computeUnits: u32): (r: Result<LaunchPlan>)
    ensures r.Ok? <==> 1 <= computeUnits <= MAX_COMPUTE_UNITS
    ensures r.Err? ==> r.panic == SearchResult(StartSize(computeUnits).value).panic
    ensures r.Ok? ==> Consistent(r.value)
    ensures r.Ok? ==> r.value.globalWorkSize == SearchResult(StartSize(computeUnits).value).value
  {
    var start := StartSize(computeUnits).value;
    StartInRange(computeUnits);
    var found := SearchResult(start);
    if found.Err? then
      Err(found.panic)
    else
      SearchResultIsLaunchSize(start);
      Ok(PlanFor(found.value))
  }

  /** A launch size fits and is a whole number of wavefronts. */
  lemma LaunchSizeFits(g: int)
    requires IsLaunchSize(g)
    ensures Fits(g) && g % WAVEFRONT == 0
  {
    var j :| 6 <= j <= 22 && g == Pow2(j);
    Pow2Fits(j);
    Pow2MultipleOfWavefront(j);
  }

  /** A global size that divides a quarter of the source length divides the
      source length four times over, with the same cofactor. */
  lemma QuarterFitIsSourceFit(g: nat)
    requires Fits(g)
    ensures (QUARTER / g) * (QUARTER_DIVISOR * g) == NUM_SRC_ITEMS
  {
    FitQuotient(g);
  }
}
