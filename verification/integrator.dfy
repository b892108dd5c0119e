/**
 The integrator stage: N cascaded running sums whose accumulators live in the
 first N slots of the delay line.
 */
module Integrator {
  import opened Arith
  import opened State

  /**
   One sample through the cascade. The sample enters stage 0; each stage adds
   its accumulator, stores the new running value back, and passes it on.
   Stage s ends up holding x plus the first s+1 old accumulators, and the
   cascade's output is x plus all of them.
   */
  function Cascade(acc: seq<int>, x: int): (res: (seq<int>, int))
    ensures |res.0| == |acc|
    ensures forall s :: 0 <= s < |acc| ==> res.0[s] == x + Sum(acc[..s + 1])
    ensures res.1 == x + Sum(acc)
    decreases |acc|
  {
    if |acc| == 0 then ([], x)
    else
      var tail := Cascade(acc[1..], x + acc[0]);
      assert forall s :: 1 <= s < |acc| ==> acc[..s + 1] == [acc[0]] + acc[1..][..s];
      ([x + acc[0]] + tail.0, tail.1)
  }

  /**
   A block of samples through the integrator, starting from accumulators `acc`:
   the final accumulators and one output per input. The last stage's
   accumulator always equals the most recent output.
   */
  function Run(acc: seq<int>, xs: seq<int>): (res: (seq<int>, seq<int>))
    ensures |res.0| == |acc| && |res.1| == |xs|
    ensures |xs| > 0 && |acc| > 0 ==> res.1[|xs| - 1] == res.0[|acc| - 1]
    decreases |xs|
  {
    if |xs| == 0 then (acc, [])
    else
      var prev := Run(acc, xs[..|xs| - 1]);
      var step := Cascade(prev.0, xs[|xs| - 1]);
      assert |acc| > 0 ==> prev.0[..|acc|] == prev.0;
      (step.0, prev.1 + [step.1])
  }

  /**
   Splitting a block in two and carrying the accumulators over gives the same
   accumulators and the same outputs as integrating it in one go.
   */
  lemma {:induction false} RunConcat(acc: seq<int>, a: seq<int>, b: seq<int>)
    ensures Run(acc, a + b) == (Run(Run(acc, a).0, b).0, Run(acc, a).1 + Run(Run(acc, a).0, b).1)
    decreases |b|
  {
    if |b| == 0 {
      assert a + b == a;
      assert Run(acc, a).1 + [] == Run(acc, a).1;
    } else {
      var b' := b[..|b| - 1];
      var x := b[|b| - 1];
      assert (a + b)[..|a + b| - 1] == a + b';
      assert (a + b)[|a + b| - 1] == x;
      RunConcat(acc, a, b');
      var ra := Run(acc, a);
      var rb := Run(ra.0, b');
      var step := Cascade(rb.0, x);
      assert Run(acc, a + b) == (step.0, (ra.1 + rb.1) + [step.1]);
      assert Run(ra.0, b) == (step.0, rb.1 + [step.1]);
      ConcatAssoc(ra.1, rb.1, [step.1]);
    }
  }

  /**
   The in-place integrator of the filter: runs `len` samples of `buf` through
   the accumulators `delay[0..N)`. Nothing else changes: not the comb slots,
   not the samples past `len`, not the rest of the filter record.
   */
  method IntegrateInPlace(p: Filter, buf: seq<int>, len: nat) returns (q: Filter, out: seq<int>)
    requires p.n <= |p.delay| && len <= |buf|
    ensures q == p.(delay := q.delay)
    ensures |q.delay| == |p.delay| && q.delay[p.n..] == p.delay[p.n..]
    ensures |out| == |buf| && out[len..] == buf[len..]
    ensures (q.delay[..p.n], out[..len]) == Run(p.delay[..p.n], buf[..len])
    ensures len > 0 && p.n > 0 ==> q.delay[p.n - 1] == out[len - 1]
  {
    var delay := p.delay;
    out := buf;
    var i := 0;
    while i < len
      invariant i <= len
      invariant |delay| == |p.delay| && delay[p.n..] == p.delay[p.n..]
      invariant |out| == |buf| && out[i..] == buf[i..]
      invariant (delay[..p.n], out[..i]) == Run(p.delay[..p.n], buf[..i])
    {
      var sum;
      RunStep(p.delay[..p.n], buf, i);
      delay, sum := CascadeInPlace(delay, p.n, out[i]);
      UpdatePrefix(out, buf, i, sum);
      out := out[i := sum];
      i := i + 1;
    }
    assert out[..len] == out[..i];
    q := p.(delay := delay);
    if len > 0 && p.n > 0 {
      assert out[len - 1] == out[..len][len - 1];
      assert q.delay[p.n - 1] == q.delay[..p.n][p.n - 1];
    }
  }

  /** The inner loop of the in-place integrator: one sample through the N accumulators. */
  method CascadeInPlace(acc: seq<int>, n: nat, x: int) returns (delay: seq<int>, sum: int)
    requires n <= |acc|
    ensures |delay| == |acc| && delay[n..] == acc[n..]
    ensures (delay[..n], sum) == Cascade(acc[..n], x)
  {
    ghost var acc0 := acc[..n];
    delay := acc;
    sum := x;
    var s := 0;
    while s < n
      invariant s <= n
      invariant |delay| == |acc|
      invariant forall t :: s <= t < |delay| ==> delay[t] == acc[t]
      invariant forall t :: 0 <= t < s ==> delay[t] == x + Sum(acc0[..t + 1])
      invariant sum == x + Sum(acc0[..s])
    {
      SumPrefixStep(acc0, s);
      sum := sum + delay[s];
      delay := delay[s := sum];
      s := s + 1;
    }
    CascadeOutput(acc0, x, delay[..n], sum);
    assert delay[n..] == acc[n..];
  }

  /** Accumulators and output that match the closed form are exactly the cascade's. */
  lemma {:induction false} CascadeOutput(acc: seq<int>, x: int, acc': seq<int>, y: int)
    requires |acc'| == |acc|
    requires forall t :: 0 <= t < |acc| ==> acc'[t] == x + Sum(acc[..t + 1])
    requires y == x + Sum(acc[..|acc|])
    ensures Cascade(acc, x) == (acc', y)
  {
    assert acc[..|acc|] == acc;
    var c := Cascade(acc, x);
    assert forall t :: 0 <= t < |acc| ==> c.0[t] == acc'[t];
    assert c.0 == acc';
  }

  /** Integrating one more sample extends the run by one cascade step. */
  lemma {:induction false} RunStep(acc: seq<int>, xs: seq<int>, i: nat)
    requires i < |xs|
    ensures Run(acc, xs[..i + 1])
         == (Cascade(Run(acc, xs[..i]).0, xs[i]).0, Run(acc, xs[..i]).1 + [Cascade(Run(acc, xs[..i]).0, xs[i]).1])
  {
    assert xs[..i + 1][..i] == xs[..i];
  }
}
