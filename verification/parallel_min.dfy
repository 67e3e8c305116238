/** `main` of the parallel-minimum example, restricted to its host-side
    arithmetic: the source array of `NUM_SRC_ITEMS` cells with its reference
    minimum, the launch sizes, and the final comparison of the device's answer
    with the reference.
 */
module ParallelMin {
  import opened Machine
  import opened SourceData
  import opened WorkSize

  /** The fill-and-running-minimum loop over the `NUM_SRC_ITEMS` cells of
      `src_ptr`: the array is non-empty, so the reference minimum is a value
      of the array and a lower bound of it. */
  method SourceItems() returns (src: seq<u32>, min: u32)
    ensures |src| == NUM_SRC_ITEMS
    ensures forall k :: 0 <= k < NUM_SRC_ITEMS ==> src[k] == CellAt(k)
    ensures IsMinimumOf(min, src)
  {
    src, min := Generate(NUM_SRC_ITEMS);
  }

  /** The final `data[0] == min` test: the first cell read back from `dst` is
      compared with the reference minimum `min` of the source array `src`.
      Because that reference is the least element, the program reports
      "result correct" exactly when the device's answer is the least element
      too. */
  function ReportsCorrect(src: seq<u32>, min: u32, data: seq<u32>): (r: bool)
    requires IsMinimumOf(min, src)
    requires |data| >= 1
    ensures r <==> IsMinimumOf(data[0], src)
  {
    data[0] == min
  }
}
