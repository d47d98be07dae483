/** Times of the clock, shared by the timeouts of the modelled files. */
module Clock {
  /** struct timeval. */
  datatype TimeVal = TimeVal(sec: int, usec: int) {
    function Total(): int {
      sec * 1000000 + usec
    }

    predicate Normal() {
      0 <= usec < 1000000
    }
  }

  /** Time from one point to another. */
  function Elapsed(before: TimeVal, after: TimeVal): int {
    after.Total() - before.Total()
  }
}
