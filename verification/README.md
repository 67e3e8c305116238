# Host-side arithmetic of the OpenCL parallel-minimum example

The parallel-minimum example of opencl-learner-rs fills a source array of
`4096 * 4096` `cl_uint` values on the host and records their minimum. It then
picks NDRange sizes for a two-stage reduction: the `minp` kernel writes one
partial minimum per work-group into `dst`, and the `reduce` kernel collapses
`dst`. Finally it compares `dst[0]` with the host's minimum. This project
models the host-side integer arithmetic of that program and proves its
properties:

- **Machine** (`machine.dfy`): Rust's `u32` and 64-bit `usize` as bounded
  integers. It spells out `wrapping_mul`, `& 65535`, `>> 16`, the panicking
  `+`, `*` and `%` of a debug build, and the `as cl_int` cast.
- **SourceData** (`source_data.dfy`): the multiplicative generator
  `b = 21341.wrapping_mul(b & 65535)`, `cell = b + (b >> 16)`, and the fused
  fill-and-running-minimum loop over an abstract length `n`.
- **WorkSize** (`work_size.dfy`): the search that starts at
  `compute_units * 7 * 64` and steps by 64 until the value divides
  `NUM_SRC_ITEMS / 4 = 2^22`. `SearchResult` is the closed form of the loop's
  outcome: the panic, or the next power of two at or above the start. The
  loop (`Search`, called by `GlobalWorkSize`) is proved to compute it.
  `PlanLaunch` composes that outcome with the group count and the buffer,
  launch and mapping sizes that follow from it.
- **ParallelMin** (`parallel_min.dfy`): the generator instantiated at
  `n = 4096 * 4096`, and the final "result correct" comparison.

Main results:

- The generator's multiply never wraps. Every state is at most
  `21341 * 65535 = 1398582435`, and every cell is at most `1398603775`.
- The unchecked `+` on line 27 panics only for states above `0xFFFF0000`, so
  it never panics.
- The loop's `min` is a value of the array and a lower bound of it. For an
  empty array it is `u32::MAX`.
- The work-size search returns a value exactly when
  `1 <= compute_units <= 9362`.
  - With zero compute units, the first `%` divides by zero.
  - With more than 9362 units, no candidate divides `2^22`, so the `+= 64`
    steps run into the usize limit.
  - On success, the value is the least multiple of 64 at or above the start
    that divides `2^22`. It is a power of two between `2^6` and `2^22`, and it
    lies in `[start, 2 * start)`.
- The group count times 64 equals the global size. `dst[0]` and `debug[0..4]`
  are in bounds, and the mapped byte counts equal the buffer sizes.

## Model

| member | source | states |
|---|---|---|
| SourceData.NextState | src/bin/parallel_min.rs:22-26 | one generator step multiplies 21341 by the low 16 bits of `b` without wrapping; the new state is at most 1398582435 |
| SourceData.Mix | src/bin/parallel_min.rs:27 | `b + (b >> 16)` panics exactly when `b > 0xFFFF0000`; for every state the generator can reach it succeeds, with a value between `b` and 1398603775 |
| SourceData.StateAt | src/bin/parallel_min.rs:23-26 | every state the generator reaches, from the seed 23458 on, is at most 1398582435 |
| SourceData.CellAt | src/bin/parallel_min.rs:25-27 | every cell the generator writes is at most 1398603775, so writing it never overflows |
| SourceData.Generate | src/bin/parallel_min.rs:19-29 | after the loop over `n` zeroed cells, cell `k` holds the generator's `k`-th value; `min` is a lower bound of all cells; `min` is one of the cells when `n > 0` and is `u32::MAX` when `n = 0` |
| SourceData.MinimumIsUnique | src/bin/parallel_min.rs:24-29 | a value that is a lower bound of the array and occurs in it is unique, so the running minimum is fully determined by those two properties |
| ParallelMin.SourceItems | src/bin/parallel_min.rs:19-29 | with `NUM_SRC_ITEMS = 4096*4096` cells the array is non-empty, so the reference `min` is the least element of the array |
| ParallelMin.ReportsCorrect | src/bin/parallel_min.rs:120-125 | the comparison `data[0] == min` holds, and the program prints "result correct", exactly when `dst[0]` is the least element of the source array |
| WorkSize.StartSize | src/bin/parallel_min.rs:38-41 | `compute_units * 7 * ws` never overflows usize, because `compute_units` comes from a `cl_uint`; the start is a multiple of 64 |
| WorkSize.StartInRange | src/bin/parallel_min.rs:41-42 | the start is zero exactly for zero compute units, and at most `2^22` exactly for at most 9362 compute units |
| WorkSize.SearchResult | src/bin/parallel_min.rs:41-44 | the closed form of the loop from a multiple of 64: remainder by zero for a zero start, add overflow for a start above `2^22`, otherwise the next power of two at or above the start; a value lies in `[start, 2 * start)` |
| WorkSize.GlobalWorkSize | src/bin/parallel_min.rs:38-44 | the start and loop yield the closed-form outcome: a value exactly for 1 to 9362 compute units; zero units panic with remainder by zero; more than 9362 panic with add overflow; otherwise the next power of two at or above the start |
| WorkSize.Search | src/bin/parallel_min.rs:41-44 | from a multiple of 64, the loop panics on a zero start, overflows from a start above `2^22`, and otherwise returns the next power of two at or above the start, which is the least multiple of 64 there that divides `2^22` |
| WorkSize.SearchResultIsLeastFit | src/bin/parallel_min.rs:41-44 | a value of the closed form is the first multiple of 64 at or above the start that divides `2^22`; no multiple of 64 below it does |
| WorkSize.SearchResultIsLaunchSize | src/bin/parallel_min.rs:41-44 | a value of the closed form is a power of two from `2^6` to `2^22` |
| WorkSize.NextPow2IsLeastFit | src/bin/parallel_min.rs:41-44 | for a start from 64 to `2^22` that is a multiple of 64, the next power of two is exactly where the loop's stopping rule first holds |
| WorkSize.TargetFits | src/bin/parallel_min.rs:41-44 | for such a start the next power of two is a multiple of 64, lies between the start and `2^22`, divides `2^22`, and is `2^j` with `6 <= j <= 22` |
| WorkSize.NextPow2LeastFit | src/bin/parallel_min.rs:42 | no size that passes the loop guard lies at or above `x` and below the next power of two |
| WorkSize.NextPow2Bounds | src/bin/parallel_min.rs:41-44 | the search result lies in `[start, 2 * start)` |
| WorkSize.FitExponent | src/bin/parallel_min.rs:42 | any value that passes the loop guard is `2^j` for some `j <= 22` |
| WorkSize.FactorOfPow2 | src/bin/parallel_min.rs:42 | every factor of `2^k` is `2^j` for some `j <= k` |
| WorkSize.Pow2Fits | src/bin/parallel_min.rs:42 | every power of two up to `2^22` passes the loop guard |
| WorkSize.Pow2MultipleOfWavefront | src/bin/parallel_min.rs:39-43 | a power of two `2^j` is a multiple of the 64-wide wavefront exactly when `j >= 6` |
| WorkSize.LaunchSizeFits | src/bin/parallel_min.rs:39-46 | a launch size passes the loop guard and is a whole number of 64-wide groups |
| WorkSize.QuarterFitIsSourceFit | src/bin/parallel_min.rs:19-42 | if `g` divides `NUM_SRC_ITEMS / 4` with cofactor `q`, then `q * (4 * g) = NUM_SRC_ITEMS` |
| WorkSize.PlanSplitsSource | src/bin/parallel_min.rs:19-42 | in a consistent plan `4 * global_work_size` divides `NUM_SRC_ITEMS` |
| WorkSize.PlanFor | src/bin/parallel_min.rs:45-114 | from a launch size, `num_groups * 64` equals the global size and `num_groups >= 1`; the global size is at least 4, so `debug[3]` is in bounds; the mapped byte counts equal the `dst` and `dbg` buffer sizes; `NUM_SRC_ITEMS as cl_int` keeps its value |
| WorkSize.PlanLaunch | src/bin/parallel_min.rs:38-114 | a plan exists exactly for 1 to 9362 compute units and otherwise carries the search's panic; every plan is consistent and its global size is the search result |
| Machine.AsI32 | src/bin/parallel_min.rs:73 | `as cl_int` yields a value in the `i32` range and keeps every value below `2^31` unchanged |
| Machine.WrappingMul32 | src/bin/parallel_min.rs:26 | `a.wrapping_mul(..)` yields a `u32`, and equals the exact product whenever that product is below `2^32` |
| Machine.Low16 | src/bin/parallel_min.rs:26 | `b & 65535`, modelled as `b % 65536`: a value below `2^16` that differs from `b` by a multiple of `2^16`, i.e. the low 16 bits |
| Machine.High16 | src/bin/parallel_min.rs:27 | `b >> 16`, modelled as `b / 65536`: a value `r` below `2^16` with `65536 * r <= b < 65536 * (r + 1)`, i.e. the high 16 bits |
| Machine.SplitHalves | src/bin/parallel_min.rs:26-27 | the halves read by `b & 65535` and `b >> 16` recombine to `b`: `b == 65536 * High16(b) + Low16(b)` |
| Machine.MaskIsRemainder | src/bin/parallel_min.rs:26 | on a 32-bit word, `x & 0xFFFF` equals `x % 65536` |
| Machine.ShiftIsQuotient | src/bin/parallel_min.rs:27 | on a 32-bit word, `x >> 16` equals `x / 65536` |
| Machine.CheckedAdd32 | src/bin/parallel_min.rs:27 | the `cl_uint` addition `b + (b >> 16)`: when it succeeds the value is the exact sum; when it fails the panic is an add overflow and the sum exceeds `u32::MAX` |
| Machine.CheckedMulUsize | src/bin/parallel_min.rs:41 | a `usize` product: when it succeeds the value is the exact product; when it fails the panic is a multiply overflow and the product is at least `2^64` |
| Machine.CheckedRem | src/bin/parallel_min.rs:42 | the `%` in the loop guard panics exactly when the divisor is zero, with a remainder-by-zero panic; otherwise the remainder is below the divisor |
| Machine.CheckedAddUsize | src/bin/parallel_min.rs:43 | `global_work_size += ws`: when it succeeds the value is the exact sum; when it fails the panic is an add overflow and the sum is at least `2^64` |

## Left out

- All opencl3 calls are left out. They are calls into the GPU runtime. This
  covers device enumeration and the `expect` on a missing device, context,
  queue, program build, kernel creation, buffer creation, enqueueing, event
  waits, `finish` and buffer mapping (src/bin/parallel_min.rs:32-114).
- `compute_units` is taken as a parameter. It comes from
  `device.max_compute_units()`, a runtime query.
- The `minp` and `reduce` kernels are left out. `parallel_min.cl` is not part
  of this model, so `dst[0]` is a parameter of the final comparison.
- The `unsafe` `from_raw_parts` views and all `println!` output are left out.
  The model keeps only the sizes involved.
- src/bin/saxpy.rs and src/bin/memset.rs are left out. They are OpenCL
  plumbing plus floating-point initialisation.
- Machine.Low16, Machine.High16: `b & 65535` and `b >> 16` are modelled on
  integers as the remainder and quotient by `2^16`. The bit-level identities
  `x & 0xFFFF == x % 2^16` and `x >> 16 == x / 2^16` are proved on `bv32`
  (Machine.MaskIsRemainder, Machine.ShiftIsQuotient), but the step that
  carries them across the `bv32`-to-integer conversion is not proved.
- WorkSize.PlanLaunch: this is stated over `SearchResult`, the closed form of
  the loop, rather than by calling the `GlobalWorkSize` method. The
  equivalence of the two is `GlobalWorkSize`'s own contract.
- WorkSize.GlobalWorkSize: this follows debug-build semantics, where the
  overflowing `global_work_size += ws` panics. In a release build the addition
  wraps to 0 instead, and the next `%` panics with a zero divisor. Either way
  the program panics, after about `2^58` steps.
- WorkSize.StartSize: `usize` is taken to be 64 bits wide. On a 32-bit
  target, `compute_units * 7 * ws` on line 41 would itself panic with a
  multiply overflow once `compute_units` exceeds 9586980, before the loop
  is reached; the model does not cover such targets.
- Vec allocation (`with_capacity`, `resize`) is not modelled. The array is
  modelled as a sequence of `n` zeros that the loop overwrites in place.
