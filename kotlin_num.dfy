/**
 * Kotlin numeric conversions and integer operations, stated over unbounded
 * `int` and `real`.
 */
module KotlinNum {

  const IntMin: int := -0x8000_0000
  const IntMax: int := 0x7fff_ffff

  predicate InIntRange(x: int) { IntMin <= x <= IntMax }

  /** 32-bit two's-complement wrap-around of Kotlin `Int` arithmetic. */
  function Wrap32(x: int): (r: int)
    ensures InIntRange(r)
    ensures InIntRange(x) ==> r == x
    ensures (x - r) % 0x1_0000_0000 == 0
  {
    (x - IntMin) % 0x1_0000_0000 + IntMin
  }

  /** Adding an `Int` to a non-negative `Int` wraps only upwards, and then lands below the start. */
  lemma WrapAdd(a: int, b: int)
    requires 0 <= a <= IntMax && InIntRange(b)
    ensures a + b <= IntMax ==> Wrap32(a + b) == a + b
    ensures a + b > IntMax ==> Wrap32(a + b) == a + b - 0x1_0000_0000 && Wrap32(a + b) < a
  {
    if a + b > IntMax {
      var t := a + b + 0x8000_0000;
      assert 0x1_0000_0000 <= t < 2 * 0x1_0000_0000;
      assert t % 0x1_0000_0000 == t - 0x1_0000_0000;
    }
  }

  function Abs(x: int): (r: nat)
    ensures r == x || r == -x
  {
    if x < 0 then -x else x
  }

  function Min(a: int, b: int): (r: int)
    ensures r <= a && r <= b && (r == a || r == b)
  {
    if a <= b then a else b
  }

  function Max(a: int, b: int): (r: int)
    ensures r >= a && r >= b && (r == a || r == b)
  {
    if a >= b then a else b
  }

  /** `Double.toInt()` / `Float.toInt()`: truncation toward zero. */
  function Trunc(x: real): (r: int)
    ensures 0.0 <= x ==> r as real <= x < r as real + 1.0
    ensures x < 0.0 ==> r as real - 1.0 < x <= r as real
  {
    if x >= 0.0 then x.Floor else -((-x).Floor)
  }

  /**
   * `Double.toInt()` on a finite value: truncation toward zero, saturating at
   * the bounds of `Int`.
   */
  function ToInt(x: real): (r: int)
    ensures InIntRange(r)
    ensures InIntRange(Trunc(x)) ==> r == Trunc(x)
    ensures Trunc(x) > IntMax ==> r == IntMax
    ensures Trunc(x) < IntMin ==> r == IntMin
  {
    var t := Trunc(x);
    if t > IntMax then IntMax else if t < IntMin then IntMin else t
  }

  /** `Float.roundToInt()`: round half up, that is, floor(x + 1/2). */
  function RoundToInt(x: real): (r: int)
    ensures x - 0.5 < r as real <= x + 0.5
  {
    (x + 0.5).Floor
  }

  /** Kotlin `Int / Int`: the quotient truncated toward zero. */
  function TruncDiv(a: int, b: int): (q: int)
    requires b != 0
    ensures Abs(q) == Abs(a) / Abs(b)
    ensures (a >= 0) == (b > 0) ==> q >= 0
    ensures (a >= 0) != (b > 0) ==> q <= 0
  {
    if (a < 0) != (b < 0) then -(Abs(a) / Abs(b)) else Abs(a) / Abs(b)
  }

  /** Kotlin `Int % Int`: the remainder takes the sign of the dividend. */
  function TruncRem(a: int, b: int): (r: int)
    requires b != 0
    ensures a == b * TruncDiv(a, b) + r
    ensures Abs(r) < Abs(b)
    ensures a >= 0 ==> r >= 0
    ensures a <= 0 ==> r <= 0
  {
    TruncDivRem(a, b);
    a - b * TruncDiv(a, b)
  }

  lemma TruncDivRem(a: int, b: int)
    requires b != 0
    ensures 0 <= Abs(a) - Abs(b) * (Abs(a) / Abs(b)) < Abs(b)
    ensures Abs(b * TruncDiv(a, b)) == Abs(b) * (Abs(a) / Abs(b))
    ensures (a >= 0) == (b * TruncDiv(a, b) >= 0) || b * TruncDiv(a, b) == 0
  {
    var q0 := Abs(a) / Abs(b);
    AbsMul(b, TruncDiv(a, b));
    assert Abs(TruncDiv(a, b)) == q0;
    if a < 0 && b < 0 {
      assert b * TruncDiv(a, b) == -(Abs(b) * q0);
    } else if a < 0 {
      assert b * TruncDiv(a, b) == -(Abs(b) * q0);
    } else if b < 0 {
      assert b * TruncDiv(a, b) == Abs(b) * q0;
    } else {
      assert b * TruncDiv(a, b) == Abs(b) * q0;
    }
  }

  lemma AbsMul(x: int, y: int)
    ensures Abs(x * y) == Abs(x) * Abs(y)
  {
    if x < 0 && y < 0 { assert x * y == (-x) * (-y); }
    else if x < 0 { assert x * y == -((-x) * y); }
    else if y < 0 { assert x * y == -(x * (-y)); }
  }

  /** Sum of a sequence of reals, from the front. */
  function Sum(s: seq<real>): real
  {
    if |s| == 0 then 0.0 else s[0] + Sum(s[1..])
  }

  /** Sum of a sequence of integers, from the front. */
  function SumInt(s: seq<int>): int
  {
    if |s| == 0 then 0 else s[0] + SumInt(s[1..])
  }

  lemma {:induction false} SumAppend(s: seq<real>, t: seq<real>)
    ensures Sum(s + t) == Sum(s) + Sum(t)
  {
    if |s| == 0 {
      assert s + t == t;
    } else {
      assert (s + t)[1..] == s[1..] + t;
      SumAppend(s[1..], t);
    }
  }

  lemma {:induction false} SumIntAppend(s: seq<int>, t: seq<int>)
    ensures SumInt(s + t) == SumInt(s) + SumInt(t)
  {
    if |s| == 0 {
      assert s + t == t;
    } else {
      assert (s + t)[1..] == s[1..] + t;
      SumIntAppend(s[1..], t);
    }
  }

  /** Replacing one element changes the sum by the difference. */
  lemma {:induction false} SumUpdate(s: seq<real>, i: nat, v: real)
    requires i < |s|
    ensures Sum(s[i := v]) == Sum(s) - s[i] + v
  {
    if i == 0 {
      assert s[i := v][1..] == s[1..];
    } else {
      assert s[i := v][1..] == s[1..][i - 1 := v];
      SumUpdate(s[1..], i - 1, v);
    }
  }

  /** Every element lies in [lo, hi], so the sum lies in [n * lo, n * hi]. */
  lemma {:induction false} SumIntBounds(s: seq<int>, lo: int, hi: int)
    requires forall k :: 0 <= k < |s| ==> lo <= s[k] <= hi
    ensures |s| * lo <= SumInt(s) <= |s| * hi
  {
    if |s| > 0 {
      SumIntBounds(s[1..], lo, hi);
      assert |s| * lo == lo + (|s| - 1) * lo;
      assert |s| * hi == hi + (|s| - 1) * hi;
    }
  }
}
