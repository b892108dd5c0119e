/**
 The public operations of the CIC filter: initialisation of the filter record
 and its delay line, decimation (integrate, keep every R-th sample, comb,
 normalise) and interpolation (comb, zero-stuff to R times the rate,
 integrate, normalise). Each in-place operation is shown equal to the
 composition of the stage functions, which in turn is shown to be invariant
 under splitting the input into blocks and, for R = M = 1, to pass the signal
 through unchanged.
 */
module CicFilter {
  import opened Arith
  import opened State
  import opened Gain
  import Integrator
  import Comb
  import RateChange

  // ---------------------------------------------------------------------------
  // Initialisation

  /**
   Where the delay line comes from: a buffer the caller supplies, or one the
   filter allocates, which may fail.
   */
  datatype DelaySource = Supplied(buf: seq<int>) | Allocate(succeeds: bool)

  /** The filter record cleared to all zeros, as it is left when initialisation fails. */
  function Cleared(): (f: Filter)
    ensures f.n == 0 && f.m == 0 && f.r == 0 && f.mpos == 0 && f.cnt == 0
    ensures f.delay == [] && !f.normalize && f.ddiv == 0 && f.idiv == 0
  {
    Filter(0, 0, 0, 0, 0, [], false, 0, 0)
  }

  /**
   Initialisation. The record is cleared first. Without a delay line (the
   allocation failed) the result is -1 and the record stays cleared.
   Otherwise the first N + N*M slots of the delay line are zeroed, the
   parameters are stored, the tap position and the phase start at 0, and when
   normalising the two divisors are (R*M)^N and (R*M)^N / R; the result is 0.
   A valid configuration then yields a valid filter.
   */
  method FilterInit(n: nat, m: nat, r: nat, src: DelaySource, normalize: bool) returns (status: int, f: Filter)
    requires src.Supplied? ==> DelayLen(n, m) <= |src.buf|
    requires normalize ==> r >= 1
    ensures status == 0 || status == -1
    ensures status == -1 <==> src == Allocate(false)
    ensures status == -1 ==> f == Cleared()
    ensures status == 0 ==> f.n == n && f.m == m && f.r == r && f.mpos == 0 && f.cnt == 0
    ensures status == 0 ==> f.delay == Zeros(DelayLen(n, m)) && f.normalize == normalize
    ensures status == 0 && normalize ==> f.ddiv == DecimationGain(n, m, r) && f.idiv == InterpolationGain(n, m, r)
    ensures status == 0 && !normalize ==> f.ddiv == 0 && f.idiv == 0
    ensures status == 0 && ValidConfig(n, m, r) ==> Valid(f)
  {
    f := Cleared();
    if src == Allocate(false) {
      return -1, f;
    }
    var delay := Zeros(DelayLen(n, m));
    f := f.(n := n, m := m, r := r, delay := delay, normalize := normalize);
    if normalize {
      var g := PowLoop(r * m, n);
      f := f.(ddiv := g);
      g := PowLoop(r * m, n);
      // both operands are non-negative, so Dafny's `/` is the C quotient here
      f := f.(idiv := g / r);
    }
    status := 0;
  }

  // ---------------------------------------------------------------------------
  // Decimation

  /**
   Decimation of a block as a composition of the stages: all samples through
   the integrators, the samples at the stride points of the current phase
   kept, those through the combs, and each divided by (R*M)^N when
   normalising. The configuration is unchanged and the filter stays valid;
   the number of outputs is the stride count.
   */
  function Decimated(p: Filter, xs: seq<int>): (res: (Filter, seq<int>))
    requires Valid(p)
    ensures Valid(res.0)
    ensures res.0 == p.(delay := res.0.delay, mpos := res.0.mpos, cnt := res.0.cnt)
    ensures res.0.cnt == RateChange.NextPhase(|xs|, p.cnt, p.r)
    ensures |res.1| == RateChange.Stride(|xs|, p.cnt, p.r)
  {
    Comb.SlotIsProduct(p.n, 0, p.m, 0);
    var integ := Integrator.Run(p.delay[..p.n], xs);
    var kept := RateChange.Picks(integ.1, p.cnt, p.r);
    var comb := Comb.Run(p.delay[p.n..], p.n, p.m, p.mpos, kept);
    GainFacts(p.n, p.m, p.r);
    (p.(delay := integ.0 + comb.0, mpos := comb.1, cnt := RateChange.NextPhase(|xs|, p.cnt, p.r)),
     if p.normalize then Normalized(comb.2, p.ddiv) else comb.2)
  }

  /**
   The decimator of the filter, in place: integrate len samples, compact
   every R-th of them to the front, comb those, and normalise them. It
   returns the number of outputs, which is at most len/R + 1, and leaves the
   samples past len alone. Filter state and outputs are those of Decimated.
   */
  method Decimate(p: Filter, buf: seq<int>, len: nat) returns (q: Filter, out: seq<int>, rlen: nat)
    requires Valid(p) && len <= |buf|
    ensures Valid(q)
    ensures rlen == RateChange.Stride(len, p.cnt, p.r) && rlen <= len && rlen <= len / p.r + 1
    ensures |out| == |buf| && out[len..] == buf[len..]
    ensures (q, out[..rlen]) == Decimated(p, buf[..len])
  {
    Comb.SlotIsProduct(p.n, 0, p.m, 0);
    var q1, o1 := Integrator.IntegrateInPlace(p, buf, len);
    var q2, o2, j := RateChange.RateDownInPlace(q1, o1, len);
    TailKept(o2, o1, j, len);
    var q3, o3 := Comb.CombInPlace(q2, o2, j);
    TailKept(o3, o2, j, len);
    GainFacts(p.n, p.m, p.r);
    out := NormalizeIf(o3, j, p.normalize, p.ddiv);
    TailKept(out, o3, j, len);
    q, rlen := q3, j;
    DecimateAssemble(p, buf[..len], q1, o1[..len], q2, o2[..j], q3, o3[..j], out[..j]);
  }

  /** The stage results of the in-place decimator put together are Decimated's. */
  lemma {:induction false} DecimateAssemble(p: Filter, xs: seq<int>, q1: Filter, ys: seq<int>, q2: Filter, kept: seq<int>,
                         q3: Filter, zs: seq<int>, out: seq<int>)
    requires Valid(p)
    requires q1 == p.(delay := q1.delay) && |q1.delay| == |p.delay| && q1.delay[p.n..] == p.delay[p.n..]
    requires (q1.delay[..p.n], ys) == Integrator.Run(p.delay[..p.n], xs)
    requires q2 == q1.(cnt := q2.cnt) && q2.cnt == RateChange.NextPhase(|ys|, p.cnt, p.r)
    requires kept == RateChange.Picks(ys, p.cnt, p.r)
    requires q3 == q2.(delay := q3.delay, mpos := q3.mpos)
    requires |q3.delay| == |q2.delay| && q3.delay[..p.n] == q2.delay[..p.n]
    requires CombFits(q2)
    requires var res := Comb.Run(q2.delay[p.n..], p.n, p.m, p.mpos, kept);
             q3.delay[p.n..] == res.0 && q3.mpos == res.1 && zs == res.2
    requires p.normalize ==> p.ddiv != 0 && out == Normalized(zs, p.ddiv)
    requires !p.normalize ==> out == zs
    ensures (q3, out) == Decimated(p, xs)
  {
    assert q3.delay == q3.delay[..p.n] + q3.delay[p.n..];
  }

  /** The comb region of a filter has room for the N*M comb slots. */
  predicate CombFits(f: Filter)
  {
    (f.m == 1 || f.m == 2) && f.mpos < f.m && f.n <= |f.delay|
    && Comb.Shape(f.delay[f.n..], f.n, f.m, f.mpos)
  }

  // ---------------------------------------------------------------------------
  // Interpolation

  /**
   Interpolation of a block as a composition of the stages: the samples
   through the combs, each followed by R-1 zeros, all through the
   integrators, and each divided by (R*M)^N / R when normalising. The
   configuration and the decimation phase are unchanged, the filter stays
   valid, and there are R outputs per input.
   */
  function Interpolated(p: Filter, xs: seq<int>): (res: (Filter, seq<int>))
    requires Valid(p)
    ensures Valid(res.0)
    ensures res.0 == p.(delay := res.0.delay, mpos := res.0.mpos)
    ensures |res.1| == |xs| * p.r
  {
    Comb.SlotIsProduct(p.n, 0, p.m, 0);
    var comb := Comb.Run(p.delay[p.n..], p.n, p.m, p.mpos, xs);
    var stuffed := RateChange.Stuffed(comb.2, p.r);
    var integ := Integrator.Run(p.delay[..p.n], stuffed);
    GainFacts(p.n, p.m, p.r);
    (p.(delay := integ.0 + comb.0, mpos := comb.1),
     if p.normalize then Normalized(integ.1, p.idiv) else integ.1)
  }

  /**
   The interpolator of the filter, in place. If the buffer cannot hold len*R
   samples it does nothing at all: it returns 0 and neither the buffer nor
   the filter changes. Otherwise it returns len*R, the front of the buffer
   holds the outputs of Interpolated, the filter takes on its state, and the
   slots past len*R are untouched.
   */
  method Interpolate(p: Filter, buf: seq<int>, bufLen: nat, len: nat) returns (q: Filter, out: seq<int>, rlen: nat)
    requires Valid(p) && len <= |buf| && bufLen <= |buf|
    ensures Valid(q)
    ensures len * p.r > bufLen ==> rlen == 0 && q == p && out == buf
    ensures len * p.r <= bufLen ==> rlen == len * p.r
    ensures |out| == |buf|
    ensures len * p.r <= bufLen ==> out[rlen..] == buf[rlen..] && (q, out[..rlen]) == Interpolated(p, buf[..len])
  {
    if len * p.r > bufLen {
      return p, buf, 0;
    }
    q, out, rlen := InterpolateStages(p, buf, bufLen, len);
  }

  /** The interpolator past its space check: comb, expand, integrate, normalise. */
  method InterpolateStages(p: Filter, buf: seq<int>, bufLen: nat, len: nat) returns (q: Filter, out: seq<int>, rlen: nat)
    requires Valid(p) && len <= |buf| && bufLen <= |buf| && len * p.r <= bufLen
    ensures rlen == len * p.r && |out| == |buf|
    ensures out[rlen..] == buf[rlen..] && (q, out[..rlen]) == Interpolated(p, buf[..len])
  {
    ValidCombFits(p);
    var q1, o2, rl := CombExpand(p, buf, bufLen, len);
    var q3, o3 := Integrator.IntegrateInPlace(q1, o2, rl);
    GainFacts(p.n, p.m, p.r);
    out := NormalizeIf(o3, rl, p.normalize, p.idiv);
    q, rlen := q3, rl;
    InterpolateAssemble(p, buf[..len], q1, o2[..rl], q3, o3[..rl], out[..rl]);
  }

  /** The first two stages of the interpolator: the combs, then the expansion to R samples per input. */
  method CombExpand(p: Filter, buf: seq<int>, bufLen: nat, len: nat) returns (q: Filter, out: seq<int>, rlen: nat)
    requires CombFits(p) && p.r >= 1 && len <= |buf| && bufLen <= |buf| && len * p.r <= bufLen
    ensures rlen == len * p.r && |out| == |buf| && out[rlen..] == buf[rlen..]
    ensures var res := Comb.Run(p.delay[p.n..], p.n, p.m, p.mpos, buf[..len]);
            q == p.(delay := p.delay[..p.n] + res.0, mpos := res.1) && out[..rlen] == RateChange.Stuffed(res.2, p.r)
  {
    Comb.SlotIsProduct(p.n, 0, p.m, 0);
    var o1;
    q, o1 := Comb.CombInPlace(p, buf, len);
    assert q.delay == q.delay[..p.n] + q.delay[p.n..];
    out, rlen := RateChange.RateUpInPlace(q, o1, bufLen, len);
    TailKept(o1, buf, len, rlen);
  }

  /** A valid filter's delay line has room for the comb slots after the integrator slots. */
  lemma {:induction false} ValidCombFits(p: Filter)
    requires Valid(p)
    ensures CombFits(p)
  {
    Comb.SlotIsProduct(p.n, 0, p.m, 0);
  }

  /** The closing step of both directions: normalise the first len samples if the filter normalises. */
  method NormalizeIf(buf: seq<int>, len: nat, normalize: bool, d: int) returns (out: seq<int>)
    requires len <= |buf| && (normalize ==> d != 0)
    ensures |out| == |buf| && out[len..] == buf[len..]
    ensures normalize ==> out[..len] == Normalized(buf[..len], d)
    ensures !normalize ==> out == buf
  {
    out := buf;
    if normalize {
      out := NormalizeInPlace(buf, len, d);
    }
  }

  /** The stage results of the in-place interpolator put together are Interpolated's. */
  lemma {:induction false} InterpolateAssemble(p: Filter, xs: seq<int>, q1: Filter, stuffed: seq<int>,
                            q3: Filter, ys: seq<int>, out: seq<int>)
    requires Valid(p) && CombFits(p)
    requires q1 == p.(delay := q1.delay, mpos := q1.mpos)
    requires |q1.delay| == |p.delay| && q1.delay[..p.n] == p.delay[..p.n]
    requires var res := Comb.Run(p.delay[p.n..], p.n, p.m, p.mpos, xs);
             q1.delay[p.n..] == res.0 && q1.mpos == res.1 && stuffed == RateChange.Stuffed(res.2, p.r)
    requires q3 == q1.(delay := q3.delay) && |q3.delay| == |q1.delay| && q3.delay[p.n..] == q1.delay[p.n..]
    requires (q3.delay[..p.n], ys) == Integrator.Run(q1.delay[..p.n], stuffed)
    requires p.normalize ==> p.idiv != 0 && out == Normalized(ys, p.idiv)
    requires !p.normalize ==> out == ys
    ensures (q3, out) == Interpolated(p, xs)
  {
    assert q3.delay == q3.delay[..p.n] + q3.delay[p.n..];
  }

  // ---------------------------------------------------------------------------
  // Block invariance

  /**
   Decimating a + b in one call is decimating a, then b from the state a
   left: the same outputs, concatenated, and the same final state. The
   phase counter carries the stride over the block boundary.
   */
  lemma {:induction false} DecimatedConcat(p: Filter, a: seq<int>, b: seq<int>)
    requires Valid(p)
    ensures Decimated(p, a + b).0 == Decimated(Decimated(p, a).0, b).0
    ensures Decimated(p, a + b).1 == Decimated(p, a).1 + Decimated(Decimated(p, a).0, b).1
  {
    Comb.SlotIsProduct(p.n, 0, p.m, 0);
    var pa := Decimated(p, a).0;
    var ia := Integrator.Run(p.delay[..p.n], a);
    var ka := RateChange.Picks(ia.1, p.cnt, p.r);
    var ca := Comb.Run(p.delay[p.n..], p.n, p.m, p.mpos, ka);
    assert pa.delay[..p.n] == ia.0 && pa.delay[p.n..] == ca.0;
    var ib := Integrator.Run(ia.0, b);
    var kb := RateChange.Picks(ib.1, pa.cnt, p.r);
    var cb := Comb.Run(ca.0, p.n, p.m, ca.1, kb);
    Integrator.RunConcat(p.delay[..p.n], a, b);
    RateChange.PicksConcat(ia.1, ib.1, p.cnt, p.r);
    Comb.RunConcat(p.delay[p.n..], p.n, p.m, p.mpos, ka, kb);
    RateChange.PicksConcat(a, b, p.cnt, p.r);
    if p.normalize {
      GainFacts(p.n, p.m, p.r);
      NormalizedConcat(ca.2, cb.2, p.ddiv);
    }
  }

  /**
   Interpolating a + b in one call is interpolating a, then b from the state
   a left: the same outputs, concatenated, and the same final state.
   */
  lemma {:induction false} InterpolatedConcat(p: Filter, a: seq<int>, b: seq<int>)
    requires Valid(p)
    ensures Interpolated(p, a + b).0 == Interpolated(Interpolated(p, a).0, b).0
    ensures Interpolated(p, a + b).1 == Interpolated(p, a).1 + Interpolated(Interpolated(p, a).0, b).1
  {
    Comb.SlotIsProduct(p.n, 0, p.m, 0);
    var pa := Interpolated(p, a).0;
    var ca := Comb.Run(p.delay[p.n..], p.n, p.m, p.mpos, a);
    var sa := RateChange.Stuffed(ca.2, p.r);
    var ia := Integrator.Run(p.delay[..p.n], sa);
    assert pa.delay[..p.n] == ia.0 && pa.delay[p.n..] == ca.0;
    var cb := Comb.Run(ca.0, p.n, p.m, ca.1, b);
    var sb := RateChange.Stuffed(cb.2, p.r);
    var ib := Integrator.Run(ia.0, sb);
    Comb.RunConcat(p.delay[p.n..], p.n, p.m, p.mpos, a, b);
    RateChange.StuffedConcat(ca.2, cb.2, p.r);
    Integrator.RunConcat(p.delay[..p.n], sa, sb);
    if p.normalize {
      GainFacts(p.n, p.m, p.r);
      NormalizedConcat(ia.1, ib.1, p.idiv);
    }
  }

  // ---------------------------------------------------------------------------
  // Unit rate: the filter is the identity

  /**
   Integrator accumulators and comb taps mirror each other: comb stage k
   holds what integrator stage N-1-k holds. With M = 1 each comb stage then
   undoes one integrator stage exactly.
   */
  predicate Mirror(acc: seq<int>, taps: seq<int>)
  {
    |taps| == |acc| && forall k :: 0 <= k < |acc| ==> taps[k] == acc[|acc| - 1 - k]
  }

  /** A filter with M = 1 whose delay line is mirrored. */
  predicate Mirrored(f: Filter)
  {
    f.n <= |f.delay| && Mirror(f.delay[..f.n], f.delay[f.n..])
  }

  /** The first k mirrored taps sum to the last k accumulators. */
  lemma {:induction false} MirrorSums(acc: seq<int>, taps: seq<int>, k: nat)
    requires Mirror(acc, taps) && k <= |acc|
    ensures Sum(taps[..k]) == Sum(acc[|acc| - k..])
    decreases k
  {
    var n := |acc|;
    if k == 0 {
      assert taps[..0] == [] && acc[n..] == [];
    } else {
      MirrorSums(acc, taps, k - 1);
      SumPrefixStep(taps, k - 1);
      assert acc[n - k..][1..] == acc[n - k + 1..];
    }
  }

  /** Mirrored taps below k and the accumulators below N-k make up all the accumulators. */
  lemma {:induction false} MirrorPoint(acc: seq<int>, taps: seq<int>, k: nat)
    requires Mirror(acc, taps) && k <= |acc|
    ensures Sum(acc) - Sum(taps[..k]) == Sum(acc[..|acc| - k])
  {
    MirrorSums(acc, taps, k);
    SumSplit(acc, |acc| - k);
  }

  /**
   Integrators that add the old accumulators to u and combs that subtract the
   old taps from v = u + (sum of accumulators) leave a mirrored state mirrored.
   */
  lemma {:induction false} MirrorKept(acc: seq<int>, taps: seq<int>, acc': seq<int>, taps': seq<int>, u: int, v: int)
    requires Mirror(acc, taps) && |acc'| == |acc| && |taps'| == |taps|
    requires forall s :: 0 <= s < |acc| ==> acc'[s] == u + Sum(acc[..s + 1])
    requires forall k :: 0 <= k < |taps| ==> taps'[k] == v - Sum(taps[..k])
    requires v == u + Sum(acc)
    ensures Mirror(acc', taps')
  {
    var n := |acc|;
    forall k | 0 <= k < n
      ensures taps'[k] == acc'[n - 1 - k]
    {
      MirrorPoint(acc, taps, k);
      assert acc'[n - 1 - k] == u + Sum(acc[..n - k]);
    }
  }

  /**
   One sample through the integrators and then the combs with M = 1 comes out
   unchanged, and the new state is again mirrored.
   */
  lemma {:induction false} DecimateSampleIdentity(acc: seq<int>, taps: seq<int>, x: int)
    requires Mirror(acc, taps)
    ensures var c := Integrator.Cascade(acc, x);
            var s := Comb.Sample(taps, |acc|, 1, 0, c.1);
            s.1 == x && Mirror(c.0, s.0)
  {
    var n := |acc|;
    var c := Integrator.Cascade(acc, x);
    Comb.SampleDelayOne(taps, n, c.1);
    var s := Comb.Sample(taps, n, 1, 0, c.1);
    MirrorPoint(acc, taps, n);
    assert taps[..n] == taps;
    MirrorKept(acc, taps, c.0, s.0, x, c.1);
  }

  /**
   One sample through the combs with M = 1 and then the integrators comes out
   unchanged, and the new state is again mirrored.
   */
  lemma {:induction false} InterpolateSampleIdentity(acc: seq<int>, taps: seq<int>, x: int)
    requires Mirror(acc, taps)
    ensures var s := Comb.Sample(taps, |acc|, 1, 0, x);
            var c := Integrator.Cascade(acc, s.1);
            c.1 == x && Mirror(c.0, s.0)
  {
    var n := |acc|;
    Comb.SampleDelayOne(taps, n, x);
    var s := Comb.Sample(taps, n, 1, 0, x);
    var c := Integrator.Cascade(acc, s.1);
    MirrorPoint(acc, taps, n);
    assert taps[..n] == taps;
    MirrorKept(acc, taps, c.0, s.0, s.1, x);
  }

  /** A block through the integrators and then the combs with M = 1 comes out unchanged. */
  lemma {:induction false} DecimateRunIdentity(acc: seq<int>, taps: seq<int>, xs: seq<int>)
    requires Mirror(acc, taps)
    ensures var ri := Integrator.Run(acc, xs);
            var rc := Comb.Run(taps, |acc|, 1, 0, ri.1);
            rc.2 == xs && rc.1 == 0 && Mirror(ri.0, rc.0)
    decreases |xs|
  {
    if |xs| > 0 {
      var n := |acc|;
      var xs' := xs[..|xs| - 1];
      var x := xs[|xs| - 1];
      DecimateRunIdentity(acc, taps, xs');
      var ri' := Integrator.Run(acc, xs');
      var rc' := Comb.Run(taps, n, 1, 0, ri'.1);
      var c := Integrator.Cascade(ri'.0, x);
      DecimateSampleIdentity(ri'.0, rc'.0, x);
      var ys := Integrator.Run(acc, xs).1;
      assert ys == ri'.1 + [c.1];
      assert ys[..|ys| - 1] == ri'.1;
      assert xs == xs' + [x];
    }
  }

  /** A block through the combs with M = 1 and then the integrators comes out unchanged. */
  lemma {:induction false} InterpolateRunIdentity(acc: seq<int>, taps: seq<int>, xs: seq<int>)
    requires Mirror(acc, taps)
    ensures var rc := Comb.Run(taps, |acc|, 1, 0, xs);
            var ri := Integrator.Run(acc, rc.2);
            ri.1 == xs && rc.1 == 0 && Mirror(ri.0, rc.0)
    decreases |xs|
  {
    if |xs| > 0 {
      var n := |acc|;
      var xs' := xs[..|xs| - 1];
      var x := xs[|xs| - 1];
      InterpolateRunIdentity(acc, taps, xs');
      var rc' := Comb.Run(taps, n, 1, 0, xs');
      var ri' := Integrator.Run(acc, rc'.2);
      var s := Comb.Sample(rc'.0, n, 1, 0, x);
      InterpolateSampleIdentity(ri'.0, rc'.0, x);
      var ds := Comb.Run(taps, n, 1, 0, xs).2;
      assert ds == rc'.2 + [s.1];
      assert ds[..|ds| - 1] == rc'.2;
      assert xs == xs' + [x];
    }
  }

  /** With R = 1 every sample from c on is kept and the phase ends at 0. */
  lemma {:induction false} KeepAll(ys: seq<int>, c: nat)
    requires c <= |ys|
    ensures RateChange.Picks(ys, c, 1) == ys[c..]
    ensures RateChange.NextPhase(|ys|, c, 1) == 0
    decreases |ys| - c
  {
    if c < |ys| {
      RateChange.PicksStep(ys, c, 1);
      KeepAll(ys, c + 1);
      assert ys[c..] == [ys[c]] + ys[c + 1..];
    } else {
      assert RateChange.Picks(ys, c, 1) == [];
    }
  }

  /** With R = 1 there is nothing to stuff. */
  lemma {:induction false} StuffNone(xs: seq<int>)
    ensures RateChange.Stuffed(xs, 1) == xs
  {
    forall k | 0 <= k < |xs|
      ensures RateChange.Stuffed(xs, 1)[k] == xs[k]
    {
      RateChange.StuffedAt(xs, 1, k, 0);
    }
  }

  /**
   A filter with R = M = 1 is the identity: from a mirrored state (a freshly
   initialised one, for instance) decimation returns its input unchanged,
   normalised or not, and leaves the state mirrored.
   */
  lemma {:induction false} DecimateIdentity(p: Filter, xs: seq<int>)
    requires Valid(p) && p.r == 1 && p.m == 1 && Mirrored(p)
    ensures Decimated(p, xs).1 == xs
    ensures Mirrored(Decimated(p, xs).0)
  {
    var acc := p.delay[..p.n];
    var taps := p.delay[p.n..];
    assert p.cnt == 0 && p.mpos == 0;
    var ri := Integrator.Run(acc, xs);
    KeepAll(ri.1, 0);
    assert ri.1[0..] == ri.1;
    DecimateRunIdentity(acc, taps, xs);
    var rc := Comb.Run(taps, p.n, 1, 0, ri.1);
    var q := Decimated(p, xs).0;
    assert q.delay == ri.0 + rc.0;
    assert q.delay[..p.n] == ri.0 && q.delay[p.n..] == rc.0;
    if p.normalize {
      PowerOne(p.n);
      NormalizedByOne(xs);
    }
  }

  /**
   A filter with R = M = 1 is the identity: from a mirrored state
   interpolation returns its input unchanged, normalised or not, and leaves
   the state mirrored.
   */
  lemma {:induction false} InterpolateIdentity(p: Filter, xs: seq<int>)
    requires Valid(p) && p.r == 1 && p.m == 1 && Mirrored(p)
    ensures Interpolated(p, xs).1 == xs
    ensures Mirrored(Interpolated(p, xs).0)
  {
    var acc := p.delay[..p.n];
    var taps := p.delay[p.n..];
    assert p.mpos == 0;
    var rc := Comb.Run(taps, p.n, 1, 0, xs);
    StuffNone(rc.2);
    InterpolateRunIdentity(acc, taps, xs);
    var ri := Integrator.Run(acc, rc.2);
    var q := Interpolated(p, xs).0;
    assert q.delay == ri.0 + rc.0;
    assert q.delay[..p.n] == ri.0 && q.delay[p.n..] == rc.0;
    if p.normalize {
      PowerOne(p.n);
      NormalizedByOne(xs);
    }
  }

  /**
   A freshly initialised filter with R = M = 1 passes its input through
   unchanged, decimating or interpolating: its all-zero delay line is
   mirrored.
   */
  lemma {:induction false} FreshIdentity(f: Filter, xs: seq<int>)
    requires Valid(f) && f.r == 1 && f.m == 1 && f.delay == Zeros(DelayLen(f.n, f.m))
    ensures Decimated(f, xs).1 == xs
    ensures Interpolated(f, xs).1 == xs
  {
    assert Mirrored(f);
    DecimateIdentity(f, xs);
    InterpolateIdentity(f, xs);
  }
}
