/**
 The filter gain and the output normalisation: the integer power that
 initialisation uses for the divisors, and the division of every output sample
 by the gain with the C division operator.
 */
module Gain {
  import opened Arith

  /**
   Exponentiation by squaring as the filter computes its gain: the low bit of
   the exponent decides whether the current base is multiplied in, the
   exponent is shifted right, the loop stops once it reaches zero, and
   otherwise the base is squared. The result is the power by repeated
   multiplication, including base^0 == 1.
   */
  method PowLoop(base: nat, exp: nat) returns (result: int)
    ensures result == Power(base, exp)
  {
    result := 1;
    var b: int := base;
    var e := exp;
    while true
      invariant result * Power(b, e) == Power(base, exp)
      decreases e
    {
      var bit := e % 2;  // exp & 1
      var next := if bit == 1 then result * b else result;
      PowRound(result, b, e, next);
      result := next;
      e := e / 2;        // exp >>= 1
      if e == 0 {
        break;
      }
      b := b * b;
    }
  }

  /**
   One round of the squaring loop keeps the product of the accumulated result
   and the outstanding power: b^e is the low bit's factor times (b*b)^(e/2).
   */
  lemma {:induction false} PowRound(result: int, b: int, e: nat, next: int)
    requires next == if e % 2 == 1 then result * b else result
    ensures next * Power(b * b, e / 2) == result * Power(b, e)
    ensures e / 2 == 0 ==> next == result * Power(b, e)
  {
    var h := e / 2;
    var t := Power(b, 2 * h);
    PowerSquare(b, h);
    if e % 2 == 1 {
      assert e == 2 * h + 1;
      assert Power(b, e) == b * t;
      assert (result * b) * t == result * (b * t);
    } else {
      assert e == 2 * h;
    }
  }

  /**
   Every sample of a block divided by the gain as C divides: each quotient
   leaves a remainder smaller than the divisor in magnitude that is zero or
   has the sample's sign, so the quotient is truncated toward zero.
   */
  function Normalized(xs: seq<int>, d: int): (ys: seq<int>)
    requires d != 0
    ensures |ys| == |xs|
    ensures forall i :: 0 <= i < |xs| ==> Abs(xs[i] - ys[i] * d) < Abs(d)
    ensures forall i :: 0 <= i < |xs| ==> xs[i] - ys[i] * d == 0 || ((xs[i] - ys[i] * d > 0) <==> (xs[i] > 0))
  {
    seq(|xs|, i requires 0 <= i < |xs| => TruncDiv(xs[i], d))
  }

  /**
   The in-place normalisation: each of the first len samples becomes its
   truncated quotient by the divisor; the samples past len are untouched.
   */
  method NormalizeInPlace(buf: seq<int>, len: nat, d: int) returns (out: seq<int>)
    requires d != 0 && len <= |buf|
    ensures |out| == |buf| && out[len..] == buf[len..]
    ensures forall i :: 0 <= i < len ==> out[i] == TruncDiv(buf[i], d)
    ensures out[..len] == Normalized(buf[..len], d)
  {
    out := buf;
    var i := 0;
    while i < len
      invariant i <= len && |out| == |buf|
      invariant forall k :: i <= k < |buf| ==> out[k] == buf[k]
      invariant forall k :: 0 <= k < i ==> out[k] == TruncDiv(buf[k], d)
    {
      out := out[i := TruncDiv(out[i], d)];
      i := i + 1;
    }
    assert out[len..] == buf[len..];
  }

  /** Normalising a + b is normalising a, then b. */
  lemma {:induction false} NormalizedConcat(a: seq<int>, b: seq<int>, d: int)
    requires d != 0
    ensures Normalized(a + b, d) == Normalized(a, d) + Normalized(b, d)
  {
    var l := Normalized(a + b, d);
    var rr := Normalized(a, d) + Normalized(b, d);
    assert |l| == |rr|;
    forall i | 0 <= i < |l|
      ensures l[i] == rr[i]
    {
      if i < |a| {
        assert (a + b)[i] == a[i];
      } else {
        assert (a + b)[i] == b[i - |a|];
      }
    }
  }

  /**
   Normalisation undoes the gain exactly: a sample that is a multiple v*d of
   the divisor becomes v, of either sign.
   */
  lemma {:induction false} DivideExact(v: int, d: int)
    requires d != 0
    ensures TruncDiv(v * d, d) == v
  {
    TruncDivUnique(v * d, d, v);
  }

  /**
   Truncation is symmetric in the sign of the dividend, unlike the floor of
   Dafny's own division: -7 / 2 is -3, not -4.
   */
  lemma {:induction false} DivideOdd(a: int, d: int)
    requires d != 0
    ensures TruncDiv(-a, d) == -TruncDiv(a, d)
  {
    var q := TruncDiv(a, d);
    assert -a - (-q) * d == -(a - q * d);
    TruncDivUnique(-a, d, -q);
  }

  /** A divisor of 1, the gain when R = M = 1, leaves every block unchanged. */
  lemma {:induction false} NormalizedByOne(xs: seq<int>)
    ensures Normalized(xs, 1) == xs
  {
    forall i | 0 <= i < |xs|
      ensures Normalized(xs, 1)[i] == xs[i]
    {
      DivideExact(xs[i], 1);
    }
  }

  /** The truncating quotient of -7 by 2 is -3. */
  lemma {:induction false} DivideExample()
    ensures TruncDiv(-7, 2) == -3
    ensures TruncDiv(7, -2) == -3
  {
    TruncDivUnique(-7, 2, -3);
    TruncDivUnique(7, -2, -3);
  }
}
