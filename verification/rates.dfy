/**
 * The rate engine (`GetRates`): bytes per second between two samples, per
 * direction. The elapsed time is not checked for sign: a zero elapsed time
 * makes the division raise and the bare `except` store the integer 0; any
 * other elapsed time divides, so backwards clocks and falling counters give
 * negative rates.
 */
module Rates {
  /** The two keys of the `rates` dictionary, 'rx' and 'tx'. */
  datatype Direction = Rx | Tx

  /** The dictionary's key order, fixed for the process but not chosen by the code. */
  predicate IsKeyOrder(order: seq<Direction>) {
    order == [Rx, Tx] || order == [Tx, Rx]
  }

  /** A sample: the summed cumulative counters and the time they were read. */
  datatype Sample = Sample(rx: int, tx: int, time: real)

  const ZeroSample := Sample(0, 0, 0.0)

  /** `stats['%sbytes' % key]`. */
  function Counter(s: Sample, d: Direction): int {
    match d
    case Rx => s.rx
    case Tx => s.tx
  }

  /**
   * The value stored under 'rate': the integer 0 written by `except`, a float
   * quotient, or the text `GetUnits` overwrites it with.
   */
  datatype Cell = IntZero | Float(value: real) | Text(text: string)

  /** The rate `GetRates` stores for direction `d`. */
  function Rate(prev: Sample, curr: Sample, d: Direction): (c: Cell)
    ensures !c.Text?
    ensures c.IntZero? <==> curr.time == prev.time
    ensures c.Float? ==> c.value * (curr.time - prev.time) == (Counter(curr, d) - Counter(prev, d)) as real
  {
    var elapsed := curr.time - prev.time;
    if elapsed == 0.0 then IntZero
    else Float((Counter(curr, d) - Counter(prev, d)) as real / elapsed)
  }

  /** With time moving forward, the rate has the sign of the counter delta. */
  lemma RateSign(prev: Sample, curr: Sample, d: Direction)
    requires curr.time > prev.time
    ensures Rate(prev, curr, d).Float?
    ensures Rate(prev, curr, d).value >= 0.0 <==> Counter(curr, d) >= Counter(prev, d)
    ensures Rate(prev, curr, d).value == 0.0 <==> Counter(curr, d) == Counter(prev, d)
  {
    var elapsed := curr.time - prev.time;
    var delta := (Counter(curr, d) - Counter(prev, d)) as real;
    var v := Rate(prev, curr, d).value;
    assert v * elapsed == delta;
    if v < 0.0 {
      assert v * elapsed < 0.0;
    } else if v > 0.0 {
      assert v * elapsed > 0.0;
    }
  }

  /** A clock that went backwards turns growing counters into a negative rate: nothing clamps it. */
  lemma BackwardClockGivesNegativeRate(prev: Sample, curr: Sample, d: Direction)
    requires curr.time < prev.time && Counter(curr, d) > Counter(prev, d)
    ensures Rate(prev, curr, d).Float? && Rate(prev, curr, d).value < 0.0
  {
    var elapsed := curr.time - prev.time;
    var delta := (Counter(curr, d) - Counter(prev, d)) as real;
    assert Rate(prev, curr, d).value == delta / elapsed;
  }

  /**
   * The first cycle is not special: against the zero sample taken at time 0,
   * a non-zero counter read at a non-zero time gives a non-zero rate.
   */
  lemma FirstCycleRateNotForcedToZero(curr: Sample, d: Direction)
    requires curr.time != 0.0 && Counter(curr, d) != 0
    ensures Rate(ZeroSample, curr, d).Float? && Rate(ZeroSample, curr, d).value != 0.0
  {
  }
}
