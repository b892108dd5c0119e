/**
 Integer helpers shared by the CIC stages: sums of sample sequences, integer
 powers, the C division operator (truncation toward zero), zero runs and the
 one-bit exclusive or used for the comb tap toggle.
 */
module Arith {

  /** Sum of a sequence of samples. */
  function Sum(xs: seq<int>): (s: int)
    decreases |xs|
  {
    if |xs| == 0 then 0 else xs[0] + Sum(xs[1..])
  }

  lemma {:induction false} SumConcat(a: seq<int>, b: seq<int>)
    ensures Sum(a + b) == Sum(a) + Sum(b)
    decreases |a|
  {
    if |a| == 0 {
      assert a + b == b;
    } else {
      assert (a + b)[1..] == a[1..] + b;
      SumConcat(a[1..], b);
    }
  }

  /** Extending a prefix by one element adds that element to the sum. */
  lemma {:induction false} SumPrefixStep(xs: seq<int>, k: nat)
    requires k < |xs|
    ensures Sum(xs[..k + 1]) == Sum(xs[..k]) + xs[k]
  {
    assert xs[..k + 1] == xs[..k] + [xs[k]];
    SumConcat(xs[..k], [xs[k]]);
    assert Sum([xs[k]]) == xs[k] + Sum([]);
  }

  /** A sequence's sum is the sum of its prefix plus the sum of its suffix. */
  lemma {:induction false} SumSplit(xs: seq<int>, k: nat)
    requires k <= |xs|
    ensures Sum(xs) == Sum(xs[..k]) + Sum(xs[k..])
  {
    assert xs == xs[..k] + xs[k..];
    SumConcat(xs[..k], xs[k..]);
  }

  /** Integer power by repeated multiplication, the reference for the squaring loop. */
  function Power(b: int, e: nat): (p: int)
    decreases e
  {
    if e == 0 then 1 else b * Power(b, e - 1)
  }

  lemma {:induction false} PowerAdd(b: int, x: nat, y: nat)
    ensures Power(b, x + y) == Power(b, x) * Power(b, y)
    decreases x
  {
    if x > 0 {
      PowerAdd(b, x - 1, y);
      assert Power(b, x + y) == b * Power(b, (x - 1) + y);
    }
  }

  /** Squaring the base halves the exponent: b^(2k) == (b*b)^k. */
  lemma {:induction false} PowerSquare(b: int, k: nat)
    ensures Power(b * b, k) == Power(b, 2 * k)
    decreases k
  {
    if k > 0 {
      PowerSquare(b, k - 1);
      PowerAdd(b, 2, 2 * (k - 1));
      assert 2 * k == 2 + 2 * (k - 1);
      assert Power(b, 2) == b * b;
    }
  }

  lemma {:induction false} PowerPositive(b: int, e: nat)
    requires b >= 1
    ensures Power(b, e) >= 1
    decreases e
  {
    if e > 0 {
      PowerPositive(b, e - 1);
    }
  }

  /** Any power of 1 is 1. */
  lemma {:induction false} PowerOne(e: nat)
    ensures Power(1, e) == 1
    decreases e
  {
    if e > 0 {
      PowerOne(e - 1);
    }
  }

  function Abs(a: int): (v: nat)
  {
    if a < 0 then -a else a
  }

  /** Euclidean quotient and remainder of naturals, as Dafny's `/` and `%` give them. */
  lemma {:induction false} QuotientFacts(a: nat, d: nat)
    requires d > 0
    ensures a == (a / d) * d + a % d
    ensures 0 <= a % d < d
    ensures 0 <= a / d <= a
  {
    var u := a / d;
    if u > a {
      MulMono(a + 1, u, d);
      MulMono(1, d, a + 1);
    }
  }

  /**
   The C division operator on signed integers: the quotient is truncated toward
   zero (section 6.5.5 of ISO/IEC 9899:1999), unlike Dafny's Euclidean `/`.
   The remainder left over is smaller than the divisor in magnitude and never
   has the opposite sign of the dividend, which pins the quotient down uniquely
   (see TruncDivUnique).
   */
  function TruncDiv(a: int, d: int): (q: int)
    requires d != 0
    ensures Abs(a - q * d) < Abs(d)
    ensures a - q * d == 0 || ((a - q * d > 0) <==> (a > 0))
    ensures Abs(q) <= Abs(a)
  {
    var u: int := Abs(a) / Abs(d);
    var rem: int := Abs(a) % Abs(d);
    QuotientFacts(Abs(a), Abs(d));
    TruncRemainder(a, d, u, rem);
    if (a < 0) == (d < 0) then u else -u
  }

  /** The remainder left by the truncated quotient carries the dividend's sign. */
  lemma {:induction false} TruncRemainder(a: int, d: int, u: int, rem: int)
    requires d != 0 && u >= 0 && rem >= 0
    requires Abs(a) == u * Abs(d) + rem && rem < Abs(d)
    ensures (if (a < 0) == (d < 0) then u else -u) * d == a - (if a < 0 then -rem else rem)
  {
    if d > 0 {
      if a < 0 { assert (-u) * d == -(u * d); }
    } else {
      assert u * Abs(d) == -(u * d);
      if a >= 0 { assert (-u) * d == -(u * d); }
    }
  }

  /** Any quotient meeting the truncation conditions is the one TruncDiv returns. */
  lemma {:induction false} TruncDivUnique(a: int, d: int, q: int)
    requires d != 0
    requires Abs(a - q * d) < Abs(d)
    requires a - q * d == 0 || ((a - q * d > 0) <==> (a > 0))
    ensures q == TruncDiv(a, d)
  {
    var t := TruncDiv(a, d);
    var k := q - t;
    if k != 0 {
      SameSignClose(a, a - q * d, a - t * d, Abs(d));
      MulDistrib(q, t, d);
      AbsMulAtLeast(k, d);
    }
  }

  lemma {:induction false} MulDistrib(q: int, t: int, d: int)
    ensures (q - t) * d == q * d - t * d
  {
  }

  /** Two remainders bounded by D that both follow the sign of a differ by less than D. */
  lemma {:induction false} SameSignClose(a: int, r1: int, r2: int, D: int)
    requires Abs(r1) < D && Abs(r2) < D
    requires r1 == 0 || ((r1 > 0) <==> (a > 0))
    requires r2 == 0 || ((r2 > 0) <==> (a > 0))
    ensures Abs(r2 - r1) < D
  {
  }

  /** A non-zero integer factor does not shrink the magnitude of the other factor. */
  lemma {:induction false} AbsMulAtLeast(k: int, d: int)
    requires k != 0
    ensures Abs(k * d) >= Abs(d)
  {
    if k > 0 {
      MulMono(1, k, Abs(d));
      assert k * Abs(d) == Abs(k * d);
    } else {
      MulMono(1, -k, Abs(d));
      assert (-k) * Abs(d) == Abs(k * d);
    }
  }

  /** A run of `n` zero samples. */
  function Zeros(n: nat): (z: seq<int>)
    ensures |z| == n
    ensures forall i :: 0 <= i < n ==> z[i] == 0
  {
    seq(n, _ => 0)
  }

  /** Exclusive or of two one-bit values, as `^` computes on {0, 1}. */
  function XorBit(a: nat, b: nat): (r: nat)
    requires a <= 1 && b <= 1
    ensures r <= 1
    ensures r == 1 <==> a != b
  {
    if a == b then 0 else 1
  }

  /** Euclidean division is unique: a decomposition i == q*r + t with 0 <= t < r fixes q and t. */
  lemma {:induction false} DivModUnique(i: int, r: int, q: int, t: int)
    requires r > 0 && 0 <= t < r && i == q * r + t
    ensures i / r == q && i % r == t
  {
    var q0 := i / r;
    var t0 := i % r;
    assert i == q0 * r + t0;
    assert (q - q0) * r == q * r - q0 * r;
    if q > q0 {
      MulMono(1, q - q0, r);
    } else if q < q0 {
      MulMono(1, q0 - q, r);
    }
  }

  /** Monotonicity of multiplication by a natural factor. */
  lemma {:induction false} MulMono(a: int, b: int, c: nat)
    requires a <= b
    ensures a * c <= b * c
  {
    assert (b - a) * c >= 0;
  }

  /** A product inequality with a positive common factor cancels. */
  lemma {:induction false} MulLessCancel(a: int, b: int, c: nat)
    requires c > 0 && a * c < b * c
    ensures a < b
  {
    if a >= b {
      MulMono(b, a, c);
    }
  }

  /** One more copy of the factor: k*c == (k-1)*c + c. */
  lemma {:induction false} MulStep(k: int, c: int)
    ensures k * c == (k - 1) * c + c
  {
  }

  /** Concatenation is associative. */
  lemma {:induction false} ConcatAssoc<T>(a: seq<T>, b: seq<T>, c: seq<T>)
    ensures a + (b + c) == (a + b) + c
  {
  }

  /**
   Overwriting slot i of a sequence that agrees with `t` from i on extends the
   prefix before i by the new value and keeps the agreement from i+1 on.
   */
  lemma {:induction false} UpdatePrefix<T>(s: seq<T>, t: seq<T>, i: nat, v: T)
    requires i < |s| == |t| && s[i..] == t[i..]
    ensures s[i := v][..i + 1] == s[..i] + [v]
    ensures s[i := v][i + 1..] == t[i + 1..]
  {
    assert s[i + 1..] == s[i..][1..];
    assert t[i + 1..] == t[i..][1..];
  }

  /** Agreement from index j on implies agreement from any later index on. */
  lemma {:induction false} TailKept<T>(s: seq<T>, t: seq<T>, j: nat, k: nat)
    requires j <= k <= |s| == |t| && s[j..] == t[j..]
    ensures s[k..] == t[k..]
  {
    assert s[k..] == s[j..][k - j..];
    assert t[k..] == t[j..][k - j..];
  }

  /** Parity flips with every step: (k-1) % 2 == 1 - k % 2. */
  lemma {:induction false} ParityStep(k: nat)
    requires k > 0
    ensures (k - 1) % 2 == 1 - k % 2
  {
  }
}
