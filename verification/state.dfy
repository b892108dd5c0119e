/**
 The filter record shared by every stage: the configuration fixed at
 initialisation (N stages, differential delay M, rate factor R, whether to
 normalise and the two precomputed divisors) and the state that persists from
 one call to the next (the delay line, the comb tap position and the
 decimation phase counter).
 */
module State {
  import opened Arith

  /**
   One filter instance. `delay` holds the N integrator accumulators followed by
   the N*M comb delay slots (M slots per comb stage). Sizes are naturals; the
   samples are unbounded integers.
   */
  datatype Filter = Filter(
    n: nat,          // number of stages N
    m: nat,          // differential delay M, 1 or 2
    mpos: nat,       // active comb slot within each stage, 0 or M-1
    r: nat,          // rate change factor R
    cnt: nat,        // decimation phase: index of the next sample to keep
    delay: seq<int>, // integrator accumulators, then comb delay slots
    normalize: bool, // divide the output by the filter gain
    ddiv: int,       // decimation divisor (R*M)^N
    idiv: int        // interpolation divisor (R*M)^N / R
  )

  /** What callers must guarantee of the parameters: N >= 1, M in {1, 2}, R >= 1. */
  predicate ValidConfig(n: nat, m: nat, r: nat)
  {
    n >= 1 && (m == 1 || m == 2) && r >= 1
  }

  /** Length of the delay line: N integrator slots plus N*M comb slots. */
  function DelayLen(n: nat, m: nat): (len: nat)
  {
    n + n * m
  }

  /** Gain of a decimating CIC filter, (R*M)^N. */
  function DecimationGain(n: nat, m: nat, r: nat): (g: int)
  {
    Power(r * m, n)
  }

  /** Gain on the last stage of an interpolating CIC filter, (R*M)^N / R. */
  function InterpolationGain(n: nat, m: nat, r: nat): (g: int)
    requires r >= 1
  {
    Power(r * m, n) / r
  }

  /**
   The invariant every operation keeps: a valid configuration, a delay line of
   exactly N + N*M slots, a tap position in {0, M-1}, a phase counter below R,
   and, when normalising, the two divisors as initialisation computes them.
   */
  predicate Valid(f: Filter)
  {
    && ValidConfig(f.n, f.m, f.r)
    && |f.delay| == DelayLen(f.n, f.m)
    && (f.mpos == 0 || f.mpos == f.m - 1)
    && f.cnt < f.r
    && (f.normalize ==> f.ddiv == DecimationGain(f.n, f.m, f.r)
                        && f.idiv == InterpolationGain(f.n, f.m, f.r))
  }

  /**
   Under a valid configuration both divisors are positive and the decimation
   gain is exactly R times the interpolation gain, (R*M)^N / R == R^(N-1) * M^N.
   */
  lemma {:induction false} GainFacts(n: nat, m: nat, r: nat)
    requires ValidConfig(n, m, r)
    ensures DecimationGain(n, m, r) >= 1
    ensures InterpolationGain(n, m, r) >= 1
    ensures DecimationGain(n, m, r) == r * InterpolationGain(n, m, r)
    ensures InterpolationGain(n, m, r) == m * Power(r * m, n - 1)
  {
    var g := Power(r * m, n - 1);
    PowerPositive(r * m, n - 1);
    assert Power(r * m, n) == r * (m * g);
    DivModUnique(r * (m * g), r, m * g, 0);
    MulMono(1, m * g, r);
  }

  /**
   What the invariant gives every stage: the delay line splits into exactly N
   integrator accumulators and N*M comb slots, the tap position names a slot
   within each stage, and when normalising both divisors are nonzero with the
   decimation divisor R times the interpolation divisor.
   */
  lemma {:induction false} ValidLayout(f: Filter)
    requires Valid(f)
    ensures f.n >= 1 && f.r >= 1 && f.mpos < f.m
    ensures |f.delay[..f.n]| == f.n && |f.delay[f.n..]| == f.n * f.m
    ensures f.normalize ==> f.ddiv >= 1 && f.idiv >= 1 && f.ddiv == f.r * f.idiv
  {
    if f.normalize {
      GainFacts(f.n, f.m, f.r);
    }
  }

  /** The worked example of the gain: R = 5, N = 4, M = 1 gives 625 and 125. */
  lemma {:induction false} GainExample()
    ensures DecimationGain(4, 1, 5) == 625
    ensures InterpolationGain(4, 1, 5) == 125
  {
    assert Power(5, 4) == 625;
  }
}
