/** Small vocabulary shared by the other modules. */
module Common {

  /** A value that may be absent (Python's `None`). */
  datatype Option<+T> = None | Some(value: T)

  ghost predicate Distinct<T>(s: seq<T>) {
    forall i, j :: 0 <= i < j < |s| ==> s[i] != s[j]
  }

  function Max(a: real, b: real): real { if a >= b then a else b }

  function Min(a: real, b: real): real { if a <= b then a else b }

  lemma DivideMonotone(x: real, y: real, s: real)
    requires x <= y && s > 0.0
    ensures x / s <= y / s
  {
    assert (y - x) / s >= 0.0;
  }

  lemma DivideBack(x: real, s: real)
    requires s != 0.0
    ensures x * s / s == x
  {
  }

  lemma SignOfProduct(x: real, d: real)
    requires d > 0.0
    ensures x * d >= 0.0 <==> x >= 0.0
    ensures x * d > 0.0 <==> x > 0.0
  {
  }

  lemma QuotientCompare(n: real, d: real, t: real)
    requires d > 0.0
    ensures n / d <= t <==> n <= t * d
    ensures n / d >= t <==> n >= t * d
  {
    var q := n / d;
    assert q * d == n;
    if q < t {
      assert (t - q) * d > 0.0;
    } else if q > t {
      assert (q - t) * d > 0.0;
    }
  }

  /** The set of the elements of a list. */
  function Elements<T(==)>(s: seq<T>): set<T> { set x | x in s }

  lemma {:induction false} DistinctSize<T>(s: seq<T>)
    requires Distinct(s)
    ensures |Elements(s)| == |s|
  {
    if s != [] {
      var n := |s| - 1;
      DistinctSize(s[..n]);
      assert Elements(s) == Elements(s[..n]) + {s[n]};
    }
  }

  /** The last `n` elements of a list, or all of it when it is shorter. */
  function LastN<T>(s: seq<T>, n: nat): seq<T> {
    if |s| <= n then s else s[|s| - n..]
  }
}

/** Python's `round`: to the nearest, ties to the even neighbour. Reals are exact here. */
module Rounding {

  function RoundHalfEven(x: real): (n: int)
    ensures n as real - 0.5 <= x <= n as real + 0.5
    ensures x == n as real - 0.5 || x == n as real + 0.5 ==> n % 2 == 0
  {
    var f := x.Floor;
    var d := x - f as real;
    if d < 0.5 then f
    else if d > 0.5 then f + 1
    else if f % 2 == 0 then f else f + 1
  }

  /** `round(x, 2)`. */
  function Round2(x: real): real { RoundHalfEven(100.0 * x) as real / 100.0 }

  lemma Round2Near(x: real)
    ensures -0.005 <= Round2(x) - x <= 0.005
  {
  }

  /** `round(x, 4)`. */
  function Round4(x: real): real { RoundHalfEven(10000.0 * x) as real / 10000.0 }

  lemma Round4Near(x: real)
    ensures -0.00005 <= Round4(x) - x <= 0.00005
    ensures (10000.0 * Round4(x)).Floor as real == 10000.0 * Round4(x)
  {
  }

  /** Rounding reaches `m` exactly from `m - 1/2` on, the half itself included only for even `m`. */
  lemma RoundReaches(x: real, m: int)
    ensures RoundHalfEven(x) >= m <==> x > m as real - 0.5 || (x == m as real - 0.5 && m % 2 == 0)
  {
    var n := RoundHalfEven(x);
    if n < m {
      assert n as real <= m as real - 1.0;
    } else {
      assert n as real >= m as real;
    }
  }

  lemma RoundMonotone(x: real, y: real)
    requires x <= y
    ensures RoundHalfEven(x) <= RoundHalfEven(y)
  {
    RoundReaches(x, RoundHalfEven(x));
    RoundReaches(y, RoundHalfEven(x));
  }

  lemma Round2Monotone(x: real, y: real)
    requires x <= y
    ensures Round2(x) <= Round2(y)
  {
    RoundMonotone(100.0 * x, 100.0 * y);
  }
}
