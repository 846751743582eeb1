/**
  Integer helpers of the cipher library: JavaScript's truncating `%`, `posMod`,
  Euclid's `gcd` and the brute-force `modInverse`.
*/
module Modular {
  import opened Results

  function Abs(x: int): int { if x < 0 then -x else x }

  /** JavaScript's `a % b`: the remainder of division truncated toward zero. */
  function JsRem(a: int, b: int): (r: int)
    requires b != 0
    ensures a >= 0 ==> 0 <= r < Abs(b)
    ensures a < 0 ==> -Abs(b) < r <= 0
    ensures Abs(r) < Abs(b)
  {
    if a >= 0 then a % Abs(b) else -((-a) % Abs(b))
  }

  /** The quotient that goes with `JsRem`: `a / b` truncated toward zero. */
  function JsQuot(a: int, b: int): int
    requires b != 0
  {
    var q := if a >= 0 then a / Abs(b) else -((-a) / Abs(b));
    if b > 0 then q else -q
  }

  lemma JsDivision(a: int, b: int)
    requires b != 0
    ensures a == JsQuot(a, b) * b + JsRem(a, b)
  {
    var m := Abs(b);
    if a >= 0 {
      assert a == (a / m) * m + a % m;
    } else {
      assert -a == ((-a) / m) * m + (-a) % m;
    }
  }

  /** `x` is a multiple of `m` plus `r` exactly when `x % m == r`, for `r` in range. */
  lemma ModUnique(x: int, m: int, q: int, r: int)
    requires m > 0 && 0 <= r < m && x == q * m + r
    ensures x % m == r && x / m == q
  {
    var q', r' := x / m, x % m;
    assert (q' - q) * m == r - r';
    if q' - q >= 1 {
      assert false;
    } else if q' - q <= -1 {
      assert false;
    }
  }

  /** Adding `m` to the truncated remainder and truncating again gives the Euclidean remainder. */
  lemma JsRemShift(n: int, m: int)
    requires m > 0
    ensures JsRem(JsRem(n, m) + m, m) == n % m
  {
    var r := JsRem(n, m);
    JsDivision(n, m);
    var q := JsQuot(n, m);
    assert n == q * m + r;
    if r == 0 {
      ModUnique(r + m, m, 1, 0);
      ModUnique(n, m, q, 0);
    } else if r > 0 {
      ModUnique(r + m, m, 1, r);
      ModUnique(n, m, q, r);
    } else {
      ModUnique(r + m, m, 0, r + m);
      assert n == (q - 1) * m + (r + m);
      ModUnique(n, m, q - 1, r + m);
    }
  }

  /**
    `posMod(n, m)`: the true (Euclidean) residue, which is what `((n % m) + m) % m`
    computes with JavaScript's `%`; `PosModAsWritten` proves the two equal.
  */
  function PosMod(n: int, m: int): (r: int)
    requires m > 0
    ensures 0 <= r < m
    ensures r == n % m
  {
    n % m
  }

  /** `posMod` as the library writes it, with two truncating remainders, agrees with `PosMod`. */
  lemma PosModAsWritten(n: int, m: int)
    requires m > 0
    ensures JsRem(JsRem(n, m) + m, m) == PosMod(n, m)
  {
    JsRemShift(n, m);
  }

  // ---------------------------------------------------------------- gcd

  /** Euclid's recursion with JavaScript's truncating remainder. */
  function EuclidGcd(a: int, b: int): int
    decreases Abs(b)
  {
    if b == 0 then a else EuclidGcd(b, JsRem(a, b))
  }

  /** `gcd(a, b)`: the loop `while (b) { [a, b] = [b, a % b]; }`. */
  method Gcd(a: int, b: int) returns (g: int)
    ensures g == EuclidGcd(a, b)
    ensures a >= 0 && b >= 0 && (a != 0 || b != 0) ==> IsGcd(g, a, b)
  {
    var x, y := a, b;
    while y != 0
      invariant EuclidGcd(x, y) == EuclidGcd(a, b)
      decreases Abs(y)
    {
      x, y := y, JsRem(x, y);
    }
    g := x;
    if a >= 0 && b >= 0 && (a != 0 || b != 0) {
      EuclidGcdIsGcd(a, b);
    }
  }

  predicate Divides(d: int, x: int)
    requires d > 0
  {
    x % d == 0
  }

  /** `g` is the greatest common divisor of `a` and `b`. */
  ghost predicate IsGcd(g: int, a: int, b: int)
  {
    && g > 0
    && Divides(g, a) && Divides(g, b)
    && forall d :: d > 0 && Divides(d, a) && Divides(d, b) ==> Divides(d, g)
  }

  lemma DividesCombination(d: int, x: int, y: int, k: int)
    requires d > 0 && Divides(d, x) && Divides(d, y)
    ensures Divides(d, x + k * y)
  {
    var qx, qy := x / d, y / d;
    assert x == qx * d && y == qy * d;
    assert k * y == (k * qy) * d;
    assert x + k * y == (qx + k * qy) * d;
    ModUnique(x + k * y, d, qx + k * qy, 0);
  }

  lemma DividesSelf(a: int)
    requires a > 0
    ensures Divides(a, a) && Divides(a, 0)
  {
    ModUnique(a, a, 1, 0);
    ModUnique(0, a, 0, 0);
  }

  /** One step of Euclid keeps the set of common divisors. */
  lemma EuclidStep(a: int, b: int, g: int)
    requires b > 0 && a >= 0 && IsGcd(g, b, JsRem(a, b))
    ensures IsGcd(g, a, b)
  {
    var r := JsRem(a, b);
    JsDivision(a, b);
    var q := JsQuot(a, b);
    assert a == r + q * b;
    DividesCombination(g, r, b, q);
    forall d | d > 0 && Divides(d, a) && Divides(d, b)
      ensures Divides(d, g)
    {
      assert r == a + (-q) * b;
      DividesCombination(d, a, b, -q);
    }
  }

  /** For non-negative inputs, not both zero, Euclid's recursion yields their gcd. */
  lemma {:induction false} EuclidGcdIsGcd(a: int, b: int)
    requires a >= 0 && b >= 0 && (a != 0 || b != 0)
    ensures IsGcd(EuclidGcd(a, b), a, b)
    decreases b
  {
    if b == 0 {
      DividesSelf(a);
    } else {
      EuclidGcdIsGcd(b, JsRem(a, b));
      EuclidStep(a, b, EuclidGcd(a, b));
    }
  }

  lemma BezoutStep(a: int, b: int, q: int, r: int, s: int, t: int)
    requires a == q * b + r
    ensures t * a + (s - t * q) * b == s * b + t * r
  {
    assert t * a == t * (q * b) + t * r;
    assert (s - t * q) * b == s * b - (t * q) * b;
    assert t * (q * b) == (t * q) * b;
  }

  /** Bézout coefficients `(s, t)` with `s*a + t*b == EuclidGcd(a, b)`. */
  function Bezout(a: int, b: int): (st: (int, int))
    ensures st.0 * a + st.1 * b == EuclidGcd(a, b)
    decreases Abs(b)
  {
    if b == 0 then (1, 0)
    else
      var st' := Bezout(b, JsRem(a, b));
      JsDivision(a, b);
      BezoutStep(a, b, JsQuot(a, b), JsRem(a, b), st'.0, st'.1);
      (st'.1, st'.0 - st'.1 * JsQuot(a, b))
  }

  // ---------------------------------------------------------------- inverse

  /** `x` is an inverse of the residue `k` modulo `m`. */
  predicate IsInverse(k: int, x: int, m: int)
    requires m > 0
  {
    (k * x) % m == 1
  }

  lemma MulMod(x: int, y: int, m: int)
    requires m > 0
    ensures (x * y) % m == ((x % m) * (y % m)) % m
  {
    var qx, rx := x / m, x % m;
    var qy, ry := y / m, y % m;
    assert x * y == (qx * qy * m + qx * ry + rx * qy) * m + rx * ry;
    var r := (rx * ry) % m;
    assert rx * ry == ((rx * ry) / m) * m + r;
    assert x * y == (qx * qy * m + qx * ry + rx * qy + (rx * ry) / m) * m + r;
    ModUnique(x * y, m, qx * qy * m + qx * ry + rx * qy + (rx * ry) / m, r);
  }

  /** A linear combination equal to 1 makes `s` an inverse of `a` modulo `m`. */
  lemma CombinationInverse(a: int, s: int, t: int, m: int)
    requires m > 1 && s * a + t * m == 1
    ensures (a % m) * (s % m) % m == 1
  {
    assert s * a == (-t) * m + 1;
    ModUnique(s * a, m, -t, 1);
    assert a * s == s * a;
    MulMod(a, s, m);
  }

  lemma MulByOneMod(x: int, u: int, m: int)
    requires m > 1 && 0 <= x < m && u % m == 1
    ensures (x * u) % m == x
  {
    MulMod(x, u, m);
    ModUnique(x, m, 0, x);
  }

  /** Adding a multiple of `m` does not change the residue. */
  lemma ModShift(x: int, k: int, m: int)
    requires m > 0
    ensures (x + k * m) % m == x % m
  {
    assert x + k * m == (x / m + k) * m + x % m;
    ModUnique(x + k * m, m, x / m + k, x % m);
  }

  /** Reducing one summand first does not change the residue of a sum. */
  lemma ResidueShift(x: int, k: int, m: int)
    requires m > 0
    ensures (x % m + k) % m == (x + k) % m
  {
    ModShift(x % m + k, x / m, m);
  }

  /** Reducing one factor of a product first does not change the residue. */
  lemma MulModRight(x: int, y: int, m: int)
    requires m > 0
    ensures (x * y) % m == (x * (y % m)) % m
  {
    MulMod(x, y, m);
    MulMod(x, y % m, m);
    ModUnique(y % m, m, 0, y % m);
  }

  /** An invertible residue has exactly one inverse in [1, m). */
  lemma InverseUnique(k: int, x: int, y: int, m: int)
    requires m > 1 && 1 <= x < m && 1 <= y < m
    requires IsInverse(k, x, m) && IsInverse(k, y, m)
    ensures x == y
  {
    var u, v := k * y, x * k;
    assert v == k * x;
    MulByOneMod(x, u, m);
    MulByOneMod(y, v, m);
    assert x * u == y * v by {
      assert x * (k * y) == (x * k) * y;
    }
  }

  /** The inverse of an invertible residue, as a specification value. */
  ghost function InverseMod(k: int, m: int): (x: int)
    requires m > 1 && exists x :: 1 <= x < m && IsInverse(k, x, m)
    ensures 1 <= x < m && IsInverse(k, x, m)
  {
    var x :| 1 <= x < m && IsInverse(k, x, m); x
  }

  /** When `gcd(a, m) == 1` the residue of `a` has an inverse in [1, m). */
  lemma CoprimeHasInverse(a: int, m: int)
    requires m > 1 && EuclidGcd(a, m) == 1
    ensures exists x :: 1 <= x < m && IsInverse(PosMod(a, m), x, m)
  {
    var st := Bezout(a, m);
    CombinationInverse(a, st.0, st.1, m);
    var k, x := PosMod(a, m), st.0 % m;
    assert IsInverse(k, x, m);
    assert x != 0 by {
      assert k * 0 == 0;
    }
    assert 1 <= x < m;
  }

  /** `modInverse(a, m)`: the least x in [1, m) with `(a mod m) * x % m == 1`. */
  method ModInverse(a: int, m: int) returns (r: Result<int>)
    requires m > 0
    ensures r.Ok? ==> 1 <= r.value < m && IsInverse(PosMod(a, m), r.value, m)
    ensures r.Ok? ==> forall y :: 1 <= y < r.value ==> !IsInverse(PosMod(a, m), y, m)
    ensures r.Err? <==> forall y :: 1 <= y < m ==> !IsInverse(PosMod(a, m), y, m)
    ensures r.Err? ==> r.error == NoInverse(PosMod(a, m), m)
  {
    var k := PosMod(a, m);
    var x := 1;
    while x < m
      invariant 1 <= x
      invariant forall y :: 1 <= y < x ==> !IsInverse(k, y, m)
    {
      assert k * x >= 0;
      if (k * x) % m == 1 {
        assert IsInverse(k, x, m);
        return Ok(x);
      }
      x := x + 1;
    }
    return Err(NoInverse(k, m));
  }
}
