/**
 The rate converter: strided decimation whose phase carries across calls, and
 zero-stuffing interpolation that expands a block in place back to front.
 */
module RateChange {
  import opened Arith
  import opened State

  // ---------------------------------------------------------------------------
  // Decimation

  /** Number of stride points c, c+R, c+2R, ... that lie below len. */
  function Stride(len: nat, c: nat, r: nat): (k: nat)
    requires r >= 1
    ensures c >= len <==> k == 0
    ensures c < len ==> k <= len - c
    ensures k <= len
    decreases if c < len then len - c else 0
  {
    if c >= len then 0 else 1 + Stride(len, c + r, r)
  }

  /**
   The phase carried into the next block: how far past the end of this block
   the next stride point falls. It is below R whenever c was below len + R,
   in particular whenever the phase going in was below R.
   */
  function NextPhase(len: nat, c: nat, r: nat): (c': nat)
    requires r >= 1
    ensures c >= len ==> c' == c - len
    ensures c < len + r ==> c' < r
    decreases if c < len then len - c else 0
  {
    if c >= len then c - len else NextPhase(len, c + r, r)
  }

  /** The samples at the stride points c, c+R, ... of ys, in order. */
  function Picks(ys: seq<int>, c: nat, r: nat): (zs: seq<int>)
    requires r >= 1
    ensures |zs| == Stride(|ys|, c, r)
    decreases if c < |ys| then |ys| - c else 0
  {
    if c >= |ys| then [] else [ys[c]] + Picks(ys, c + r, r)
  }

  /** Below the end, the stride point i is kept and the next one is i + R. */
  lemma {:induction false} PicksStep(ys: seq<int>, i: nat, r: nat)
    requires r >= 1 && i < |ys|
    ensures Picks(ys, i, r) == [ys[i]] + Picks(ys, i + r, r)
    ensures NextPhase(|ys|, i, r) == NextPhase(|ys|, i + r, r)
  {
  }

  /**
   Closed form of the stride: the k kept points are c + t*R for t < k, the
   last of them is below len, and the carried phase is c + k*R - len.
   */
  lemma {:induction false} StrideClosedForm(len: nat, c: nat, r: nat)
    requires r >= 1
    ensures c < len ==> c + (Stride(len, c, r) - 1) * r < len
    ensures len <= c + Stride(len, c, r) * r
    ensures NextPhase(len, c, r) == c + Stride(len, c, r) * r - len
    decreases if c < len then len - c else 0
  {
    if c < len {
      StrideClosedForm(len, c + r, r);
      var k := Stride(len, c + r, r);
      assert Stride(len, c, r) == k + 1;
      assert NextPhase(len, c, r) == NextPhase(len, c + r, r);
      MulStep(k + 1, r);
      if k > 0 {
        MulStep(k, r);
      }
    }
  }

  /** The k-th kept sample is the one at index c + k*R. */
  lemma {:induction false} PicksAt(ys: seq<int>, c: nat, r: nat, k: nat)
    requires r >= 1 && k < Stride(|ys|, c, r)
    ensures c + k * r < |ys| && Picks(ys, c, r)[k] == ys[c + k * r]
    decreases k
  {
    PicksStep(ys, c, r);
    if k > 0 {
      PicksAt(ys, c + r, r, k - 1);
      MulStep(k, r);
    }
  }

  /** Past the end of a, picking from a + b is picking from b at the shifted phase. */
  lemma {:induction false} PicksShift(a: seq<int>, b: seq<int>, c: nat, r: nat)
    requires r >= 1 && c >= |a|
    ensures Picks(a + b, c, r) == Picks(b, c - |a|, r)
    ensures NextPhase(|a + b|, c, r) == NextPhase(|b|, c - |a|, r)
    decreases if c < |a + b| then |a + b| - c else 0
  {
    if c < |a + b| {
      PicksShift(a, b, c + r, r);
      var d := c - |a|;
      assert (a + b)[c] == b[d];
      assert d + r == c + r - |a|;
      PicksStep(a + b, c, r);
      PicksStep(b, d, r);
    }
  }

  /**
   Decimating a + b in one call, or a then b with the phase carried over,
   keeps the same samples and ends in the same phase.
   */
  lemma {:induction false} PicksConcat(a: seq<int>, b: seq<int>, c: nat, r: nat)
    requires r >= 1
    ensures Picks(a + b, c, r) == Picks(a, c, r) + Picks(b, NextPhase(|a|, c, r), r)
    ensures NextPhase(|a + b|, c, r) == NextPhase(|b|, NextPhase(|a|, c, r), r)
    decreases if c < |a| then |a| - c else 0
  {
    if c >= |a| {
      PicksShift(a, b, c, r);
      assert Picks(a, c, r) == [];
      assert NextPhase(|a|, c, r) == c - |a|;
      assert [] + Picks(b, c - |a|, r) == Picks(b, c - |a|, r);
    } else {
      PicksConcat(a, b, c + r, r);
      var rest := Picks(a, c + r, r);
      var tail := Picks(b, NextPhase(|a|, c + r, r), r);
      assert (a + b)[c] == a[c];
      PicksStep(a + b, c, r);
      PicksStep(a, c, r);
      ConcatAssoc([a[c]], rest, tail);
    }
  }

  /**
   Per-sample reference for decimation: a countdown `c` of samples to skip
   before the next one is kept; a kept sample restarts it at R-1.
   */
  function Countdown(ys: seq<int>, c: nat, r: nat): (res: (nat, seq<int>))
    requires r >= 1
    decreases |ys|
  {
    if |ys| == 0 then (c, [])
    else
      var prev := Countdown(ys[..|ys| - 1], c, r);
      if prev.0 == 0 then (r - 1, prev.1 + [ys[|ys| - 1]]) else (prev.0 - 1, prev.1)
  }

  /**
   The strided compaction with its carried phase is the per-sample countdown:
   the block algorithm of `cic_rate_down` and the one-sample-at-a-time reading agree on
   every input and every starting phase.
   */
  lemma {:induction false} StrideIsCountdown(ys: seq<int>, c: nat, r: nat)
    requires r >= 1
    ensures Countdown(ys, c, r) == (NextPhase(|ys|, c, r), Picks(ys, c, r))
    decreases |ys|
  {
    if |ys| > 0 {
      var a := ys[..|ys| - 1];
      var y := ys[|ys| - 1];
      assert ys == a + [y];
      StrideIsCountdown(a, c, r);
      PicksConcat(a, [y], c, r);
      PickOne(y, NextPhase(|a|, c, r), r);
      var prev := Countdown(a, c, r);
      assert Countdown(ys, c, r) == (if prev.0 == 0 then (r - 1, prev.1 + [y]) else (prev.0 - 1, prev.1));
      assert prev.1 + [] == prev.1;
    }
  }

  /** A one-sample block is kept exactly when the phase is 0; the phase counts down, or restarts at R-1. */
  lemma {:induction false} PickOne(y: int, c: nat, r: nat)
    requires r >= 1
    ensures Picks([y], c, r) == if c == 0 then [y] else []
    ensures NextPhase(1, c, r) == if c == 0 then r - 1 else c - 1
  {
    if c == 0 {
      assert Picks([y], r, r) == [];
      assert NextPhase(1, 0, r) == NextPhase(1, r, r);
    }
  }

  /** Number of samples kept from a block of len samples is at most len/R + 1. */
  lemma {:induction false} StrideBound(len: nat, c: nat, r: nat)
    requires r >= 1
    ensures Stride(len, c, r) <= len / r + 1
  {
    var k := Stride(len, c, r);
    if k >= 1 {
      StrideClosedForm(len, c, r);
      QuotientFacts(len, r);
      assert (k - 1) * r < (len / r + 1) * r;
      MulLessCancel(k - 1, len / r + 1, r);
    }
  }

  /** What the samples kept at the front of out are, how many there are, and the phase after them. */
  lemma {:induction false} DecimationFacts(buf: seq<int>, len: nat, c: nat, r: nat, out: seq<int>, j: nat)
    requires r >= 1 && len <= |buf| && j <= |out| && out[..j] == Picks(buf[..len], c, r)
    ensures j <= len / r + 1
    ensures forall k :: 0 <= k < j ==> c + k * r < len && out[k] == buf[c + k * r]
    ensures NextPhase(len, c, r) == c + j * r - len
  {
    StrideBound(len, c, r);
    StrideClosedForm(len, c, r);
    forall k | 0 <= k < j
      ensures c + k * r < len && out[k] == buf[c + k * r]
    {
      PicksAt(buf[..len], c, r, k);
      assert out[k] == out[..j][k];
    }
  }

  /**
   The in-place decimator: keeps the samples at c, c+R, ... below len, moving
   them to the front of `buf` in order, and carries the phase into the
   filter record. It writes only the slots it returns as output, and never
   reads a slot it has already overwritten, since the read index never falls
   behind the write index.
   */
  method RateDownInPlace(p: Filter, buf: seq<int>, len: nat) returns (q: Filter, out: seq<int>, j: nat)
    requires p.r >= 1 && len <= |buf|
    ensures q == p.(cnt := q.cnt)
    ensures j == Stride(len, p.cnt, p.r) && j <= len && j <= len / p.r + 1
    ensures p.cnt >= len <==> j == 0
    ensures |out| == |buf| && out[j..] == buf[j..]
    ensures forall k :: 0 <= k < j ==> p.cnt + k * p.r < len && out[k] == buf[p.cnt + k * p.r]
    ensures out[..j] == Picks(buf[..len], p.cnt, p.r)
    ensures q.cnt == NextPhase(len, p.cnt, p.r) == p.cnt + j * p.r - len
    ensures p.cnt < p.r ==> q.cnt < p.r
  {
    var i;
    out, j, i := Compact(buf, len, p.cnt, p.r);
    DecimationFacts(buf, len, p.cnt, p.r, out, j);
    q := p.(cnt := i - len);
  }

  /**
   The loop of the in-place decimator: the read index i walks the stride
   points from c, the write index j counts the samples kept so far. It stops
   at the first stride point at or past len.
   */
  method Compact(buf: seq<int>, len: nat, c: nat, r: nat) returns (out: seq<int>, j: nat, i: nat)
    requires r >= 1 && len <= |buf|
    ensures j <= len && |out| == |buf| && out[j..] == buf[j..]
    ensures out[..j] == Picks(buf[..len], c, r)
    ensures i >= len && i - len == NextPhase(len, c, r)
  {
    i := c;
    j := 0;
    out := buf;
    while i < len
      invariant j <= i && |out| == |buf|
      invariant CompactFrom(out, len, r, i, j) == CompactFrom(buf, len, r, c, 0)
      decreases len - i
    {
      out := out[j := out[i]];
      j := j + 1;
      i := i + r;
    }
    assert [] + Picks(buf[..len], c, r) == Picks(buf[..len], c, r);
    CompactFromPicks(buf, buf, len, c, r, c, 0);
  }

  /**
   The decimator loop from read index i and write index j on: each pass copies
   slot i down to slot j and moves the read index on by R.
   */
  function CompactFrom(out: seq<int>, len: nat, r: nat, i: nat, j: nat): (res: (seq<int>, nat, nat))
    requires r >= 1 && len <= |out| && j <= i
    ensures |res.0| == |out|
    decreases len - i
  {
    if i >= len then (out, j, i)
    else CompactFrom(out[j := out[i]], len, r, i + r, j + 1)
  }

  /**
   Run to the end from any state meeting the loop invariant, the decimator loop
   leaves exactly the kept samples at the front and the phase for the next call.
   */
  lemma {:induction false} CompactFromPicks(out: seq<int>, buf: seq<int>, len: nat, c: nat, r: nat, i: nat, j: nat)
    requires CompactInv(out, buf, len, c, r, i, j)
    ensures var res := CompactFrom(out, len, r, i, j);
            && res.1 <= len
            && res.0[res.1..] == buf[res.1..]
            && res.0[..res.1] == Picks(buf[..len], c, r)
            && res.2 >= len
            && res.2 - len == NextPhase(len, c, r)
    decreases len - i
  {
    if i >= len {
      CompactDone(out, buf, len, c, r, i, j);
    } else {
      CompactStep(out, buf, len, c, r, i, j);
      CompactFromPicks(out[j := out[i]], buf, len, c, r, i + r, j + 1);
    }
  }

  /**
   The decimator loop's invariant: the first j slots hold the samples kept so
   far, which together with the samples still to be picked from i on are all
   the samples kept; the slots from j on are untouched.
   */
  predicate CompactInv(out: seq<int>, buf: seq<int>, len: nat, c: nat, r: nat, i: nat, j: nat)
  {
    && r >= 1 && len <= |buf| && j <= i && j <= len
    && |out| == |buf| && out[j..] == buf[j..]
    && out[..j] + Picks(buf[..len], i, r) == Picks(buf[..len], c, r)
    && NextPhase(len, i, r) == NextPhase(len, c, r)
  }

  /**
   One step of the decimator loop keeps the loop invariant. The read index i
   has not fallen behind the write index j, so slot i still holds its input.
   */
  lemma {:induction false} CompactStep(out: seq<int>, buf: seq<int>, len: nat, c: nat, r: nat, i: nat, j: nat)
    requires CompactInv(out, buf, len, c, r, i, j) && i < len
    ensures CompactInv(out[j := out[i]], buf, len, c, r, i + r, j + 1)
  {
    var ys := buf[..len];
    assert out[i] == buf[i] == ys[i];
    UpdatePrefix(out, buf, j, out[i]);
    PicksStep(ys, i, r);
    ConcatAssoc(out[..j], [ys[i]], Picks(ys, i + r, r));
  }

  /** Once the read index passes the end, the invariant is the loop's result. */
  lemma {:induction false} CompactDone(out: seq<int>, buf: seq<int>, len: nat, c: nat, r: nat, i: nat, j: nat)
    requires CompactInv(out, buf, len, c, r, i, j) && i >= len
    ensures j <= len && out[j..] == buf[j..]
    ensures out[..j] == Picks(buf[..len], c, r)
    ensures i - len == NextPhase(len, c, r)
  {
    assert Picks(buf[..len], i, r) == [];
    assert out[..j] + [] == out[..j];
  }

  // ---------------------------------------------------------------------------
  // Interpolation

  /** Zero-stuffing: every sample followed by R-1 zeros. */
  function Stuffed(xs: seq<int>, r: nat): (ys: seq<int>)
    requires r >= 1
    ensures |ys| == |xs| * r
    decreases |xs|
  {
    if |xs| == 0 then []
    else
      var tail := Stuffed(xs[1..], r);
      assert 1 + (r - 1) + (|xs| - 1) * r == |xs| * r;
      [xs[0]] + Zeros(r - 1) + tail
  }

  /** The expansion as `cic_rate_up` writes it: sample k lands at k*R and the R-1 slots after it are zero. */
  lemma {:induction false} StuffedAt(xs: seq<int>, r: nat, k: nat, t: nat)
    requires r >= 1 && k < |xs| && t < r
    ensures k * r + t < |Stuffed(xs, r)|
    ensures Stuffed(xs, r)[k * r + t] == (if t == 0 then xs[k] else 0)
    decreases k
  {
    MulMono(k + 1, |xs|, r);
    MulStep(k + 1, r);
    var head := [xs[0]] + Zeros(r - 1);
    var tail := Stuffed(xs[1..], r);
    assert Stuffed(xs, r) == head + tail;
    if k > 0 {
      StuffedAt(xs[1..], r, k - 1, t);
      var i := (k - 1) * r + t;
      MulStep(k, r);
      assert k * r + t == r + i;
      assert (head + tail)[r + i] == tail[i];
    } else {
      assert (head + tail)[t] == head[t];
    }
  }

  /** Equivalently, slot i of the expansion holds sample i/R when R divides i, and zero otherwise. */
  lemma {:induction false} StuffedIndex(xs: seq<int>, r: nat, i: nat)
    requires r >= 1 && i < |xs| * r
    ensures i / r < |xs|
    ensures Stuffed(xs, r)[i] == (if i % r == 0 then xs[i / r] else 0)
  {
    QuotientFacts(i, r);
    var k := i / r;
    if k >= |xs| {
      MulMono(|xs|, k, r);
    }
    StuffedAt(xs, r, k, i % r);
  }

  /** Prepending a sample prepends its block of R slots. */
  lemma {:induction false} StuffedCons(xs: seq<int>, r: nat, i: nat)
    requires r >= 1 && i < |xs|
    ensures Stuffed(xs[i..], r) == [xs[i]] + Zeros(r - 1) + Stuffed(xs[i + 1..], r)
  {
    assert xs[i..][1..] == xs[i + 1..];
  }

  /** Stuffing distributes over concatenation, so blocks can be expanded one at a time. */
  lemma {:induction false} StuffedConcat(a: seq<int>, b: seq<int>, r: nat)
    requires r >= 1
    ensures Stuffed(a + b, r) == Stuffed(a, r) + Stuffed(b, r)
    decreases |a|
  {
    if |a| == 0 {
      assert a + b == b;
    } else {
      assert (a + b)[1..] == a[1..] + b;
      StuffedConcat(a[1..], b, r);
    }
  }

  /**
   The in-place interpolator's expansion. If the buffer cannot hold len*R
   samples it returns 0 and leaves the buffer as it was. Otherwise it returns
   len*R with the stuffed samples at the front and every slot from len*R on
   untouched. The expansion runs from the last sample to the first, so the
   block it writes always lies above every source sample still to be read.
   */
  method RateUpInPlace(p: Filter, buf: seq<int>, bufLen: nat, len: nat) returns (out: seq<int>, rlen: nat)
    requires p.r >= 1 && len <= |buf| && bufLen <= |buf|
    ensures bufLen < len * p.r ==> rlen == 0 && out == buf
    ensures bufLen >= len * p.r ==> rlen == len * p.r && len <= rlen
    ensures |out| == |buf| && rlen <= |buf|
    ensures bufLen >= len * p.r ==> out[..rlen] == Stuffed(buf[..len], p.r) && out[rlen..] == buf[rlen..]
  {
    var r := p.r;
    rlen := len * r;
    if bufLen < rlen {
      return buf, 0;
    }
    assert rlen <= |buf|;
    var i := len;
    var j: int := rlen - r;
    ghost var hi: nat := rlen;
    out := buf;
    while i > 0
      invariant i <= len && hi == i * r && j == hi - r
      invariant |out| == |buf| && rlen <= |buf|
      invariant out[..hi] == buf[..hi]
      invariant out[hi..rlen] == Stuffed(buf[i..len], r)
      invariant out[rlen..] == buf[rlen..]
    {
      BlockBelow(i, len, r);
      // the source sample i-1 lies below j, so it has not been overwritten
      assert out[i - 1] == buf[i - 1];
      ghost var prev := out;
      out := WriteBlock(out, j, out[i - 1], r);
      ExpandStep(prev, out, buf, len, i, j, r, rlen);
      i := i - 1;
      hi := j;
      j := j - r;
    }
    assert buf[0..len] == buf[..len];
  }

  /** For 0 < i <= len the block of sample i-1 starts at (i-1)*R, at or after i-1, and ends by len*R. */
  lemma {:induction false} BlockBelow(i: nat, len: nat, r: nat)
    requires r >= 1 && 0 < i <= len
    ensures i * r - r == (i - 1) * r
    ensures i - 1 <= (i - 1) * r
    ensures i * r <= len * r
  {
    MulMono(1, r, i - 1);
    MulMono(i, len, r);
  }

  /** Writes sample x at j and zeros in the R-1 slots after it. */
  method WriteBlock(buf: seq<int>, j: nat, x: int, r: nat) returns (out: seq<int>)
    requires r >= 1 && j + r <= |buf|
    ensures |out| == |buf|
    ensures out[..j] == buf[..j]
    ensures out[j..j + r] == [x] + Zeros(r - 1)
    ensures out[j + r..] == buf[j + r..]
  {
    out := buf[j := x];
    var ins := 1;
    while ins < r
      invariant 1 <= ins <= r
      invariant |out| == |buf|
      invariant out[..j] == buf[..j] && out[j] == x
      invariant forall t :: j < t < j + ins ==> out[t] == 0
      invariant out[j + r..] == buf[j + r..]
    {
      out := out[j + ins := 0];
      ins := ins + 1;
    }
    assert out[j..j + r] == [x] + Zeros(r - 1);
  }

  /** After writing the block of sample i-1 at j, the expanded tail starts at j and covers buf[i-1..len]. */
  lemma {:induction false} ExpandStep(prev: seq<int>, out: seq<int>, buf: seq<int>, len: nat, i: nat, j: nat, r: nat, rlen: nat)
    requires r >= 1 && 0 < i <= len <= |buf| && j + r <= rlen <= |buf| == |prev| == |out|
    requires prev[..j + r] == buf[..j + r]
    requires prev[j + r..rlen] == Stuffed(buf[i..len], r)
    requires out[..j] == prev[..j] && out[j + r..] == prev[j + r..]
    requires out[j..j + r] == [buf[i - 1]] + Zeros(r - 1)
    ensures out[..j] == buf[..j]
    ensures out[j..rlen] == Stuffed(buf[i - 1..len], r)
    ensures out[rlen..] == prev[rlen..]
  {
    StuffedCons(buf[..len], r, i - 1);
    assert buf[..len][i - 1..] == buf[i - 1..len];
    assert buf[..len][i..] == buf[i..len];
    Splice(prev, out, buf, j, j + r, rlen);
  }

  /** Writing one block just below hi extends the expanded tail downward by that block. */
  lemma {:induction false} Splice(prev: seq<int>, out: seq<int>, buf: seq<int>, j: nat, hi: nat, rlen: nat)
    requires j <= hi <= rlen <= |prev| == |out| == |buf|
    requires out[..j] == prev[..j] && out[hi..] == prev[hi..]
    requires prev[..hi] == buf[..hi]
    ensures out[..j] == buf[..j]
    ensures out[j..rlen] == out[j..hi] + prev[hi..rlen]
    ensures out[rlen..] == prev[rlen..]
  {
    assert prev[..j] == prev[..hi][..j];
    assert out[hi..rlen] == out[hi..][..rlen - hi];
    assert out[rlen..] == out[hi..][rlen - hi..];
  }
}
