/**
 The comb stage: N cascaded differences with differential delay M in {1, 2}.
 Stage s owns the M slots `s*M .. s*M+M-1` of the comb region (the delay
 line after the N integrator slots); `mpos` picks which of them is active for
 the current sample and toggles after every sample when M = 2.
 */
module Comb {
  import opened Arith
  import opened State

  /** Shape requirements of the comb region: M in {1, 2}, a tap position below M, room for N*M slots. */
  predicate Shape(taps: seq<int>, n: nat, m: nat, p: nat)
  {
    (m == 1 || m == 2) && p < m && CombLen(n, m) <= |taps|
  }

  /** Number of comb slots, N*M, written out for the two admissible values of M. */
  function CombLen(n: nat, m: nat): (len: nat)
    requires m == 1 || m == 2
  {
    if m == 1 then n else 2 * n
  }

  /** Index of stage s's slot number p in the comb region, s*M + p. */
  function Slot(s: nat, m: nat, p: nat): (i: nat)
    requires (m == 1 || m == 2) && p < m
  {
    if m == 1 then s else 2 * s + p
  }

  /** CombLen and Slot are the products `cic_comb` computes, N*M and s*M + mpos. */
  lemma {:induction false} SlotIsProduct(n: nat, s: nat, m: nat, p: nat)
    requires (m == 1 || m == 2) && p < m
    ensures CombLen(n, m) == n * m
    ensures Slot(s, m, p) == s * m + p
  {
  }

  /** The loop over slots s = k*M stays below N*M exactly while k < N. */
  lemma {:induction false} SlotBelowEnd(k: nat, n: nat, m: nat)
    requires m == 1 || m == 2
    ensures Slot(k, m, 0) < CombLen(n, m) <==> k < n
  {
  }

  /** Whether slot i of the comb region is the active slot of its stage. */
  predicate IsActive(i: nat, n: nat, m: nat, p: nat)
    requires (m == 1 || m == 2) && p < m
  {
    i < CombLen(n, m) && (m == 1 || i % 2 == p)
  }

  /** The stage owning slot i of the comb region, i / M. */
  function StageOf(i: nat, m: nat): (s: nat)
    requires m == 1 || m == 2
  {
    if m == 1 then i else i / 2
  }

  /** The active slot of every stage, in stage order: the taps the next sample subtracts. */
  function Active(taps: seq<int>, n: nat, m: nat, p: nat): (a: seq<int>)
    requires Shape(taps, n, m, p)
    ensures |a| == n
    ensures forall s :: 0 <= s < n ==> a[s] == taps[Slot(s, m, p)]
  {
    seq(n, (s: int) requires 0 <= s < n => taps[Slot(s, m, p)])
  }

  /** Stage k's active slot is active, and belongs to stage k. */
  lemma {:induction false} SlotActive(k: nat, n: nat, m: nat, p: nat)
    requires (m == 1 || m == 2) && p < m && k < n
    ensures IsActive(Slot(k, m, p), n, m, p) && StageOf(Slot(k, m, p), m) == k
  {
    if m == 2 {
      DivModUnique(2 * k + p, 2, k, p);
    }
  }

  /** An active slot of a stage below N lies in the comb region. */
  lemma {:induction false} SlotInRange(n: nat, k: nat, m: nat, p: nat)
    requires (m == 1 || m == 2) && p < m && k < n
    ensures Slot(k, m, p) < CombLen(n, m)
  {
  }

  /**
   The stage loop from stage k on, as `cic_comb` runs it: stage k's active
   slot takes the running value and the old tap is subtracted from it. Only
   comb slots are written.
   */
  function Stages(t: seq<int>, n: nat, m: nat, p: nat, k: nat, sum: int): (res: (seq<int>, int))
    requires Shape(t, n, m, p) && k <= n
    ensures |res.0| == |t|
    ensures forall i :: CombLen(n, m) <= i < |t| ==> res.0[i] == t[i]
    decreases n - k
  {
    if k == n then (t, sum)
    else
      SlotInRange(n, k, m, p);
      var i := Slot(k, m, p);
      Stages(t[i := sum], n, m, p, k + 1, sum - t[i])
  }

  /** One step of the stage loop. */
  lemma {:induction false} StagesUnfold(t: seq<int>, n: nat, m: nat, p: nat, k: nat, sum: int)
    requires Shape(t, n, m, p) && k < n
    ensures Slot(k, m, p) < |t|
    ensures Stages(t, n, m, p, k, sum)
         == Stages(t[Slot(k, m, p) := sum], n, m, p, k + 1, sum - t[Slot(k, m, p)])
  {
    SlotInRange(n, k, m, p);
  }

  /** One sample through the comb with the tap position fixed: the stage loop from stage 0. */
  function Sample(taps: seq<int>, n: nat, m: nat, p: nat, x: int): (res: (seq<int>, int))
    requires Shape(taps, n, m, p)
    ensures |res.0| == |taps|
    ensures forall i :: CombLen(n, m) <= i < |taps| ==> res.0[i] == taps[i]
  {
    Stages(taps, n, m, p, 0, x)
  }

  /** The stage loop from stage k on leaves alone every slot that is not the active slot of a stage from k on. */
  lemma {:induction false} StagesFrame(t: seq<int>, n: nat, m: nat, p: nat, k: nat, sum: int, i: nat)
    requires Shape(t, n, m, p) && k <= n && i < |t|
    requires !(IsActive(i, n, m, p) && StageOf(i, m) >= k)
    ensures Stages(t, n, m, p, k, sum).0[i] == t[i]
    decreases n - k
  {
    if k < n {
      SlotActive(k, n, m, p);
      StagesUnfold(t, n, m, p, k, sum);
      StagesFrame(t[Slot(k, m, p) := sum], n, m, p, k + 1, sum - t[Slot(k, m, p)], i);
    }
  }

  /** Writing stage k's active slot leaves the active slots of the later stages as they were. */
  lemma {:induction false} LaterSlotsKept(t: seq<int>, n: nat, m: nat, p: nat, k: nat, v: int, a: seq<int>)
    requires Shape(t, n, m, p) && k < n && |a| == n
    requires forall j :: k <= j < n ==> t[Slot(j, m, p)] == a[j]
    ensures Slot(k, m, p) < |t|
    ensures forall j :: k + 1 <= j < n ==> t[Slot(k, m, p) := v][Slot(j, m, p)] == a[j]
  {
    SlotInRange(n, k, m, p);
    forall j | k + 1 <= j < n
      ensures t[Slot(k, m, p) := v][Slot(j, m, p)] == a[j]
    {
      SlotInRange(n, j, m, p);
    }
  }

  /**
   If stages k.. still hold their old taps `a` and the running value is x
   minus the old taps below k, the stage loop stores x minus the old taps
   below j in stage j's active slot, for every j from k on.
   */
  lemma {:induction false} StagesSlot(t: seq<int>, n: nat, m: nat, p: nat, k: nat, a: seq<int>, x: int, j: nat)
    requires Shape(t, n, m, p) && k <= j < n && |a| == n
    requires forall j' :: k <= j' < n ==> t[Slot(j', m, p)] == a[j']
    ensures Slot(j, m, p) < |t|
    ensures Stages(t, n, m, p, k, x - Sum(a[..k])).0[Slot(j, m, p)] == x - Sum(a[..j])
    decreases n - k
  {
    var sum := x - Sum(a[..k]);
    var i0 := Slot(k, m, p);
    SlotInRange(n, j, m, p);
    LaterSlotsKept(t, n, m, p, k, sum, a);
    StagesUnfold(t, n, m, p, k, sum);
    SumPrefixStep(a, k);
    var t' := t[i0 := sum];
    assert sum - t[i0] == x - Sum(a[..k + 1]);
    if j == k {
      SlotActive(k, n, m, p);
      StagesFrame(t', n, m, p, k + 1, x - Sum(a[..k + 1]), i0);
    } else {
      StagesSlot(t', n, m, p, k + 1, a, x, j);
    }
  }

  /** Under the same conditions the stage loop ends with x minus all old taps. */
  lemma {:induction false} StagesOutput(t: seq<int>, n: nat, m: nat, p: nat, k: nat, a: seq<int>, x: int)
    requires Shape(t, n, m, p) && k <= n && |a| == n
    requires forall j :: k <= j < n ==> t[Slot(j, m, p)] == a[j]
    ensures Stages(t, n, m, p, k, x - Sum(a[..k])).1 == x - Sum(a)
    decreases n - k
  {
    var sum := x - Sum(a[..k]);
    if k == n {
      assert a[..n] == a;
    } else {
      var i0 := Slot(k, m, p);
      LaterSlotsKept(t, n, m, p, k, sum, a);
      StagesUnfold(t, n, m, p, k, sum);
      SumPrefixStep(a, k);
      var t' := t[i0 := sum];
      var sum' := sum - t[i0];
      assert sum' == x - Sum(a[..k + 1]);
      StagesOutput(t', n, m, p, k + 1, a, x);
      assert Stages(t, n, m, p, k, sum) == Stages(t', n, m, p, k + 1, sum');
    }
  }

  /**
   The comb's sample step in closed form, the cascade of N differences with
   delay M: it writes only the active slot of each stage, stage s's slot
   receives x minus the old active taps of stages below s (the value entering
   stage s), and the output is x minus all old active taps.
   */
  lemma {:induction false} SampleClosedForm(taps: seq<int>, n: nat, m: nat, p: nat, x: int)
    requires Shape(taps, n, m, p)
    ensures var res := Sample(taps, n, m, p, x);
            var a := Active(taps, n, m, p);
            && (forall i :: 0 <= i < |taps| && !IsActive(i, n, m, p) ==> res.0[i] == taps[i])
            && (forall s :: 0 <= s < n ==> res.0[Slot(s, m, p)] == x - Sum(a[..s]))
            && res.1 == x - Sum(a)
  {
    SampleFrame(taps, n, m, p, x);
    SampleSlots(taps, n, m, p, x);
    var a := Active(taps, n, m, p);
    assert a[..0] == [];
    StagesOutput(taps, n, m, p, 0, a, x);
  }

  /**
   With delay M = 1 every comb slot is active: slot k receives x minus the
   old taps below k, and the output is x minus all old taps.
   */
  lemma {:induction false} SampleDelayOne(taps: seq<int>, n: nat, x: int)
    requires |taps| == n
    ensures Shape(taps, n, 1, 0)
    ensures forall k :: 0 <= k < n ==> Sample(taps, n, 1, 0, x).0[k] == x - Sum(taps[..k])
    ensures Sample(taps, n, 1, 0, x).1 == x - Sum(taps)
  {
    SampleSlots(taps, n, 1, 0, x);
    var a := Active(taps, n, 1, 0);
    assert a == taps;
    assert a[..0] == [];
    StagesOutput(taps, n, 1, 0, 0, a, x);
  }

  /** The sample step leaves every slot that is not active as it was. */
  lemma {:induction false} SampleFrame(taps: seq<int>, n: nat, m: nat, p: nat, x: int)
    requires Shape(taps, n, m, p)
    ensures forall i :: 0 <= i < |taps| && !IsActive(i, n, m, p) ==> Sample(taps, n, m, p, x).0[i] == taps[i]
  {
    forall i | 0 <= i < |taps| && !IsActive(i, n, m, p)
      ensures Sample(taps, n, m, p, x).0[i] == taps[i]
    {
      StagesFrame(taps, n, m, p, 0, x, i);
    }
  }

  /** The sample step stores in stage s's active slot x minus the old active taps below s. */
  lemma {:induction false} SampleSlots(taps: seq<int>, n: nat, m: nat, p: nat, x: int)
    requires Shape(taps, n, m, p)
    ensures forall s :: 0 <= s < n ==>
      Slot(s, m, p) < |taps| && Sample(taps, n, m, p, x).0[Slot(s, m, p)] == x - Sum(Active(taps, n, m, p)[..s])
  {
    var a := Active(taps, n, m, p);
    assert Sum(a[..0]) == 0 by { assert a[..0] == []; }
    forall s | 0 <= s < n
      ensures Slot(s, m, p) < |taps| && Sample(taps, n, m, p, x).0[Slot(s, m, p)] == x - Sum(a[..s])
    {
      StagesSlot(taps, n, m, p, 0, a, x, s);
    }
  }

  /** The tap toggle `mpos ^= M-1`: a no-op for M = 1, a flip between 0 and 1 for M = 2. */
  function Toggle(m: nat, p: nat): (p': nat)
    requires (m == 1 || m == 2) && p < m
    ensures p' < m
    ensures m == 1 ==> p' == p
    ensures m == 2 ==> p' == 1 - p
  {
    XorBit(p, m - 1)
  }

  /**
   A block of samples through the comb with the tap position toggled after
   every sample: the final comb region, the final tap position and the outputs.
   Slots past the N*M of the comb are never touched.
   */
  function Run(taps: seq<int>, n: nat, m: nat, p: nat, xs: seq<int>): (res: (seq<int>, nat, seq<int>))
    requires Shape(taps, n, m, p)
    ensures |res.0| == |taps| && res.1 < m && |res.2| == |xs|
    ensures res.0[CombLen(n, m)..] == taps[CombLen(n, m)..]
    decreases |xs|
  {
    if |xs| == 0 then (taps, p, [])
    else
      var prev := Run(taps, n, m, p, xs[..|xs| - 1]);
      var step := Sample(prev.0, n, m, prev.1, xs[|xs| - 1]);
      assert forall i :: CombLen(n, m) <= i < |taps| ==> step.0[i] == prev.0[i];
      (step.0, Toggle(m, prev.1), prev.2 + [step.1])
  }

  /**
   Toggling per sample leaves the tap position at 0 when M = 1 and, when
   M = 2, flipped exactly when the block has odd length.
   */
  lemma {:induction false} RunTapParity(taps: seq<int>, n: nat, m: nat, p: nat, xs: seq<int>)
    requires Shape(taps, n, m, p)
    ensures m == 1 ==> Run(taps, n, m, p, xs).1 == 0
    ensures m == 2 ==> Run(taps, n, m, p, xs).1 == XorBit(p, |xs| % 2)
    decreases |xs|
  {
    if |xs| > 0 {
      var xs' := xs[..|xs| - 1];
      RunTapParity(taps, n, m, p, xs');
      var prev := Run(taps, n, m, p, xs');
      assert Run(taps, n, m, p, xs).1 == Toggle(m, prev.1);
      ParityStep(|xs|);
    }
  }

  /** Splitting a block in two and carrying the comb state over changes nothing. */
  lemma {:induction false} RunConcat(taps: seq<int>, n: nat, m: nat, p: nat, a: seq<int>, b: seq<int>)
    requires Shape(taps, n, m, p)
    ensures var ra := Run(taps, n, m, p, a);
            var rb := Run(ra.0, n, m, ra.1, b);
            Run(taps, n, m, p, a + b) == (rb.0, rb.1, ra.2 + rb.2)
    decreases |b|
  {
    var ra := Run(taps, n, m, p, a);
    if |b| == 0 {
      assert a + b == a;
      assert ra.2 + [] == ra.2;
    } else {
      var b' := b[..|b| - 1];
      var x := b[|b| - 1];
      assert (a + b)[..|a + b| - 1] == a + b';
      assert (a + b)[|a + b| - 1] == x;
      RunConcat(taps, n, m, p, a, b');
      var rb := Run(ra.0, n, m, ra.1, b');
      var step := Sample(rb.0, n, m, rb.1, x);
      assert Run(taps, n, m, p, a + b) == (step.0, Toggle(m, rb.1), (ra.2 + rb.2) + [step.1]);
      assert Run(ra.0, n, m, ra.1, b) == (step.0, Toggle(m, rb.1), rb.2 + [step.1]);
      ConcatAssoc(ra.2, rb.2, [step.1]);
    }
  }

  /** Combing one more sample extends the run by one sample step and one toggle. */
  lemma {:induction false} RunStep(taps: seq<int>, n: nat, m: nat, p: nat, xs: seq<int>, i: nat)
    requires Shape(taps, n, m, p) && i < |xs|
    ensures var prev := Run(taps, n, m, p, xs[..i]);
            var step := Sample(prev.0, n, m, prev.1, xs[i]);
            Run(taps, n, m, p, xs[..i + 1]) == (step.0, Toggle(m, prev.1), prev.2 + [step.1])
  {
    assert xs[..i + 1][..i] == xs[..i];
  }

  /**
   The inner loop of the in-place comb: one sample through the N stages,
   stepping through the comb region with stride M from the active slot.
   */
  method SampleInPlace(taps: seq<int>, n: nat, m: nat, mpos: nat, x: int) returns (delay: seq<int>, sum: int)
    requires Shape(taps, n, m, mpos)
    ensures (delay, sum) == Sample(taps, n, m, mpos, x)
  {
    var slen := n * m;
    SlotIsProduct(n, 0, m, 0);
    delay := taps;
    sum := x;
    var s := 0;
    ghost var k := 0;
    while s < slen
      invariant k <= n && s == Slot(k, m, 0) && |delay| == |taps|
      invariant Stages(delay, n, m, mpos, k, sum) == Stages(taps, n, m, mpos, 0, x)
    {
      SlotBelowEnd(k, n, m);
      var dv := delay[s + mpos];
      delay := delay[s + mpos := sum];
      sum := sum - dv;
      s := s + m;
      k := k + 1;
    }
    SlotBelowEnd(k, n, m);
  }

  /**
   The in-place comb of the filter over `len` samples of `buf`. It works on
   the comb region `delay[N..]` only, keeps the tap position in a local that
   toggles per sample and writes it back once after the block; the result is
   `Run`, which toggles per sample. The integrator slots, the samples past `len` and the
   rest of the record are unchanged, and the tap position stays in {0, M-1}.
   */
  method CombInPlace(p: Filter, buf: seq<int>, len: nat) returns (q: Filter, out: seq<int>)
    requires (p.m == 1 || p.m == 2) && p.mpos < p.m
    requires p.n + p.n * p.m <= |p.delay| && len <= |buf|
    ensures q == p.(delay := q.delay, mpos := q.mpos)
    ensures |q.delay| == |p.delay| && q.delay[..p.n] == p.delay[..p.n]
    ensures |out| == |buf| && out[len..] == buf[len..]
    ensures var res := Run(p.delay[p.n..], p.n, p.m, p.mpos, buf[..len]);
            q.delay[p.n..] == res.0 && q.mpos == res.1 && out[..len] == res.2
    ensures q.mpos == 0 || q.mpos == p.m - 1
    ensures p.m == 1 ==> q.mpos == 0
    ensures p.m == 2 ==> q.mpos == XorBit(p.mpos, len % 2)
  {
    SlotIsProduct(p.n, 0, p.m, 0);
    var delay, mpos;
    delay, mpos, out := CombLoop(p.delay[p.n..], p.n, p.m, p.mpos, buf, len);
    RunTapParity(p.delay[p.n..], p.n, p.m, p.mpos, buf[..len]);
    q := p.(delay := p.delay[..p.n] + delay, mpos := mpos);
    assert q.delay[p.n..] == delay;
  }

  /** The sample loop of the in-place comb, on the comb region alone. */
  method CombLoop(taps: seq<int>, n: nat, m: nat, mpos0: nat, buf: seq<int>, len: nat)
      returns (delay: seq<int>, mpos: nat, out: seq<int>)
    requires Shape(taps, n, m, mpos0) && len <= |buf|
    ensures |out| == |buf| && out[len..] == buf[len..]
    ensures (delay, mpos, out[..len]) == Run(taps, n, m, mpos0, buf[..len])
  {
    var mx := m - 1;
    mpos := mpos0;
    delay := taps;
    out := buf;
    var i := 0;
    while i < len
      invariant i <= len
      invariant |out| == |buf| && out[i..] == buf[i..]
      invariant (delay, mpos, out[..i]) == Run(taps, n, m, mpos0, buf[..i])
    {
      var sum;
      RunStep(taps, n, m, mpos0, buf, i);
      delay, sum := SampleInPlace(delay, n, m, mpos, out[i]);
      UpdatePrefix(out, buf, i, sum);
      out := out[i := sum];
      mpos := XorBit(mpos, mx);
      i := i + 1;
    }
    assert out[..len] == out[..i];
  }
}
