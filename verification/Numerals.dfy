/** Positional numerals: a digit sequence, most significant digit first, and
    the natural number it denotes in a given base. */
module Numerals {

  type byte = x: int | 0 <= x < 256

  function Pow(b: nat, n: nat): (r: nat)
  {
    if n == 0 then 1 else b * Pow(b, n - 1)
  }

  lemma PowPositive(b: nat, n: nat)
    requires b > 0
    ensures Pow(b, n) > 0
  {
  }

  lemma {:induction false} PowAdd(b: nat, m: nat, n: nat)
    ensures Pow(b, m + n) == Pow(b, m) * Pow(b, n)
  {
    if m == 0 {
      assert Pow(b, 0) * Pow(b, n) == Pow(b, n);
    } else {
      PowAdd(b, m - 1, n);
      MulAssoc(b, Pow(b, m - 1), Pow(b, n));
    }
  }

  lemma {:induction false} PowMonotone(b: nat, m: nat, n: nat)
    requires b > 0 && m <= n
    ensures Pow(b, m) <= Pow(b, n)
  {
    if m < n {
      PowMonotone(b, m, n - 1);
      PowPositive(b, n - 1);
      MulMonotone(1, b, Pow(b, n - 1));
    }
  }

  /** The number that the digits `d` denote in base `b`. */
  function Val(b: nat, d: seq<int>): (v: int)
  {
    if d == [] then 0 else Val(b, d[..|d| - 1]) * b + d[|d| - 1]
  }

  ghost predicate Digits(b: nat, d: seq<int>)
  {
    forall k :: 0 <= k < |d| ==> 0 <= d[k] < b
  }

  lemma ValSnoc(b: nat, d: seq<int>, x: int)
    ensures Val(b, d + [x]) == Val(b, d) * b + x
  {
    assert (d + [x])[..|d + [x]| - 1] == d;
  }

  lemma ThreeDigits(b: nat, x: int, y: int, z: int)
    ensures Val(b, [x]) == x && Val(b, [x, y]) == x * b + y && Val(b, [x, y, z]) == (x * b + y) * b + z
  {
    assert [x, y, z] == [x, y] + [z] && [x, y] == [x] + [y] && [x] == [] + [x];
    ValSnoc(b, [x, y], z);
    ValSnoc(b, [x], y);
    ValSnoc(b, [], x);
  }

  lemma {:induction false} ValConcat(b: nat, d: seq<int>, e: seq<int>)
    ensures Val(b, d + e) == Val(b, d) * Pow(b, |e|) + Val(b, e)
  {
    if e == [] {
      assert d + e == d;
    } else {
      var f, x := e[..|e| - 1], e[|e| - 1];
      assert d + e == (d + f) + [x];
      ValSnoc(b, d + f, x);
      ValConcat(b, d, f);
      MulSplit(Val(b, d), Pow(b, |f|), Val(b, f), b);
      MulAssoc(b, Pow(b, |f|), Val(b, d));
      assert Pow(b, |e|) == b * Pow(b, |f|);
    }
  }

  lemma ValShort(b: nat, s: seq<int>)
    requires 1 <= |s| <= 3
    ensures |s| == 1 ==> Val(b, s) == s[0]
    ensures |s| == 2 ==> Val(b, s) == s[0] * b + s[1]
    ensures |s| == 3 ==> Val(b, s) == (s[0] * b + s[1]) * b + s[2]
  {
    var f := s[..|s| - 1];
    assert s == f + [s[|s| - 1]];
    ValSnoc(b, f, s[|s| - 1]);
    if |s| > 1 {
      ValShort(b, f);
    }
  }

  lemma ValCons(b: nat, x: int, d: seq<int>)
    ensures Val(b, [x] + d) == x * Pow(b, |d|) + Val(b, d)
  {
    ValConcat(b, [x], d);
    ValSnoc(b, [], x);
    assert [] + [x] == [x];
  }

  lemma {:induction false} ValBounds(b: nat, d: seq<int>)
    requires Digits(b, d) && b > 0
    ensures 0 <= Val(b, d) < Pow(b, |d|)
  {
    if d != [] {
      var f, x := d[..|d| - 1], d[|d| - 1];
      ValBounds(b, f);
      BoundStep(Val(b, f), Pow(b, |f|), b, x);
    }
  }

  lemma BoundStep(v: int, p: int, b: int, x: int)
    requires 0 <= v < p && 0 <= x < b
    ensures 0 <= v * b + x < b * p
  {
    MulMonotone(v + 1, p, b);
    assert (v + 1) * b == v * b + b;
    MulMonotone(0, v, b);
  }

  lemma {:induction false} ValZeros(b: nat, d: seq<int>, k: nat)
    requires k <= |d| && forall i :: 0 <= i < k ==> d[i] == 0
    ensures Val(b, d) == Val(b, d[k..])
  {
    if k == 0 {
      assert d[0..] == d;
    } else {
      var e := d[1..];
      assert d == [0] + e;
      ValCons(b, 0, e);
      ValZeros(b, e, k - 1);
      assert e[k - 1..] == d[k..];
    }
  }

  lemma {:induction false} ValAllZero(b: nat, d: seq<int>)
    requires forall i :: 0 <= i < |d| ==> d[i] == 0
    ensures Val(b, d) == 0
  {
    ValZeros(b, d, |d|);
  }

  /** The shortest digit sequence that denotes `n`, by repeated division. */
  function Shortest(b: nat, n: nat): (d: seq<int>)
    requires b >= 2
    ensures Digits(b, d)
    ensures Val(b, d) == n
    ensures d != [] ==> d[0] != 0
  {
    if n == 0 then [] else
      DivShrinks(b, n);
      var d := Shortest(b, n / b);
      ShortestStep(b, n, d);
      d + [n % b]
  }

  lemma ShortestStep(b: nat, n: nat, d: seq<int>)
    requires b >= 2 && n > 0 && Digits(b, d) && Val(b, d) == n / b && (d != [] ==> d[0] != 0)
    ensures Digits(b, d + [n % b]) && Val(b, d + [n % b]) == n && (d + [n % b])[0] != 0
  {
    hide Val;
    ValSnoc(b, d, n % b);
    assert n / b * b + n % b == n;
    if d == [] {
      ValNone(b);
      assert n / b == 0 && n % b == n;
    }
  }

  lemma ValNone(b: nat)
    ensures Val(b, []) == 0
  {
  }

  /** A digit sequence without a leading zero is determined by its value. */
  lemma {:induction false} ShortestUnique(b: nat, d: seq<int>)
    requires b >= 2 && Digits(b, d)
    requires d != [] ==> d[0] != 0
    ensures Val(b, d) >= 0
    ensures Shortest(b, Val(b, d)) == d
  {
    ValBounds(b, d);
    if d != [] {
      var f, x := d[..|d| - 1], d[|d| - 1];
      assert d == f + [x];
      ValBounds(b, f);
      LeadingDigitPositive(b, d);
      QuotRem(Val(b, f), b, x);
      ShortestUnique(b, f);
    }
  }

  lemma {:induction false} LeadingDigitPositive(b: nat, d: seq<int>)
    requires b >= 2 && Digits(b, d) && d != [] && d[0] != 0
    ensures Val(b, d) > 0
  {
    LeadingDigitWeight(b, d);
    PowPositive(b, |d| - 1);
  }

  lemma LeadingDigitWeight(b: nat, d: seq<int>)
    requires b >= 2 && Digits(b, d) && d != [] && d[0] != 0
    ensures Val(b, d) >= Pow(b, |d| - 1)
  {
    assert d == [d[0]] + d[1..];
    ValCons(b, d[0], d[1..]);
    ValBounds(b, d[1..]);
    PowPositive(b, |d| - 1);
    MulMonotone(1, d[0], Pow(b, |d| - 1));
  }

  /** The top digit alone decides how a number compares with a multiple of its weight. */
  lemma TopDigitBound(b: nat, d: seq<int>, top: nat)
    requires Digits(b, d) && d != [] && b > 0
    ensures Val(b, d) < top * Pow(b, |d| - 1) <==> d[0] < top
  {
    var p := Pow(b, |d| - 1);
    assert d == [d[0]] + d[1..];
    ValCons(b, d[0], d[1..]);
    ValBounds(b, d[1..]);
    TopProduct(d[0], top, p, Val(b, d[1..]));
  }

  lemma TopProduct(x: int, top: int, p: int, low: int)
    requires 0 <= low < p
    ensures x * p + low < top * p <==> x < top
  {
    if x < top {
      MulMonotone(x + 1, top, p);
      assert (x + 1) * p == x * p + p;
    } else {
      MulMonotone(top, x, p);
    }
  }

  // ----- multiply by a constant and add, digit by digit from the right -----

  ghost predicate CarryInvariant(b: nat, mul: int, carry: int, now: seq<int>, was: seq<int>, add: int)
  {
    carry * Pow(b, |now|) + Val(b, now) == mul * Val(b, was) + add
  }

  /** Digits up to `j` are still the old ones, digits after `j` are the new ones. */
  ghost predicate PartlyAdded(b: nat, mul: int, now: seq<int>, was: seq<int>, j: int, carry: int, add: int)
    requires -1 <= j < |now| == |was|
  {
    now[..j + 1] == was[..j + 1] && CarryInvariant(b, mul, carry, now[j + 1..], was[j + 1..], add)
  }

  /** One turn of a carry loop. */
  lemma Turn(b: nat, mul: int, q: int, r: int, carry: int, was: seq<int>, before: seq<int>, j: nat, add: int)
    requires j < |before| == |was| && PartlyAdded(b, mul, before, was, j, carry, add)
    requires q * b + r == carry + mul * before[j]
    ensures PartlyAdded(b, mul, before[j := r], was, j - 1, q, add)
  {
    var after := before[j := r];
    assert before[j] == before[..j + 1][j] == was[..j + 1][j] == was[j];
    CarryStep(b, mul, q, r, carry, was[j], was[j + 1..], before[j + 1..], add);
    assert after[j..] == [r] + before[j + 1..];
    assert was[j..] == [was[j]] + was[j + 1..];
    assert after[..j] == before[..j + 1][..j] == was[..j + 1][..j] == was[..j];
  }

  lemma CarryStep(b: nat, mul: int, q: int, r: int, carry: int, d: int, was: seq<int>, now: seq<int>, add: int)
    requires |was| == |now|
    requires q * b + r == carry + mul * d
    requires CarryInvariant(b, mul, carry, now, was, add)
    ensures CarryInvariant(b, mul, q, [r] + now, [d] + was, add)
  {
    var p := Pow(b, |now|);
    ValCons(b, r, now);
    ValCons(b, d, was);
    assert Pow(b, |now| + 1) == b * p;
    CarryProduct(b, mul, q, r, carry, d, p, Val(b, was));
  }

  lemma CarryProduct(b: int, mul: int, q: int, r: int, carry: int, d: int, p: int, w: int)
    requires q * b + r == carry + mul * d
    ensures q * (b * p) + r * p == carry * p + mul * (d * p + w) - mul * w
  {
    calc {
      q * (b * p) + r * p;
      (q * b + r) * p;
      (carry + mul * d) * p;
      carry * p + mul * (d * p);
    }
  }

  // ----- arithmetic steps, one product law each -----

  lemma MulAssoc(x: int, y: int, z: int)
    ensures (x * y) * z == x * (y * z)
    ensures z * (x * y) == (z * y) * x
  {
  }

  lemma MulSplit(x: int, y: int, z: int, b: int)
    ensures (x * y + z) * b == x * y * b + z * b
  {
  }

  lemma MulMonotone(x: int, y: int, z: int)
    requires x <= y && z >= 0
    ensures x * z <= y * z
  {
  }

  lemma DivShrinks(b: nat, n: nat)
    requires b >= 2 && n > 0
    ensures 0 <= n / b < n
    ensures (n / b) * b + n % b == n
  {
  }

  lemma QuotRem(q: nat, b: nat, r: nat)
    requires r < b
    ensures (q * b + r) / b == q && (q * b + r) % b == r
  {
    var n := q * b + r;
    var q', r' := n / b, n % b;
    assert n == q' * b + r';
    if q < q' {
      MulMonotone(q + 1, q', b);
    } else if q' < q {
      MulMonotone(q' + 1, q, b);
    }
  }
}
