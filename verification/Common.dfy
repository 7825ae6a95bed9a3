/** What several parts share: the timer's period, the range of sequence numbers, and lists without repetition. */
module Common {

  /** Milliseconds between two ticks of a timer thread. */
  const TIMER_PERIOD: nat := 50

  /** Sequence numbers are 16 bits wide. */
  const SEQNOS: nat := 0x1_0000

  /** The number of timer periods a counter lasts, rounded up. */
  function Periods(ms: nat): nat {
    (ms + TIMER_PERIOD - 1) / TIMER_PERIOD
  }

  predicate NoDup<T(==)>(q: seq<T>) {
    forall i, j | 0 <= i < j < |q| :: q[i] != q[j]
  }
}
