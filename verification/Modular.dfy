/** Congruences, powers and inverses, as far as the discrete-logarithm schemes need them. */
module Modular {
  ghost predicate Cong(a: int, b: int, m: int)
    requires m > 0
  {
    a % m == b % m
  }

  /** The quotient by which two congruent numbers differ. */
  lemma CongGap(a: int, b: int, m: int) returns (k: int)
    requires m > 0 && Cong(a, b, m)
    ensures a == b + k * m
  {
    k := a / m - b / m;
    assert k * m == (a / m) * m - (b / m) * m;
  }

  lemma {:induction false} AddMultiple(b: int, k: int, m: int)
    requires m > 0
    ensures (b + k * m) % m == b % m
    decreases if k < 0 then -k else k
  {
    if k > 0 {
      AddMultiple(b, k - 1, m);
      assert b + k * m == (b + (k - 1) * m) + m;
      AddOnce(b + (k - 1) * m, m);
    } else if k < 0 {
      AddMultiple(b, k + 1, m);
      assert b + (k + 1) * m == (b + k * m) + m;
      AddOnce(b + k * m, m);
    }
  }

  lemma AddOnce(a: int, m: int)
    requires m > 0
    ensures (a + m) % m == a % m
  {
    var q, r := a / m, a % m;
    assert a + m == (q + 1) * m + r;
    QuotientUnique(a + m, m, q + 1, r);
  }

  lemma QuotientUnique(a: int, m: int, q: int, r: int)
    requires m > 0 && a == q * m + r && 0 <= r < m
    ensures a / m == q && a % m == r
  {
    var d := a / m - q;
    assert d * m == r - a % m;
    MultipleBound(d, m);
  }

  lemma MultipleBound(k: int, m: int)
    requires m > 0
    ensures k >= 1 ==> k * m >= m
    ensures k <= -1 ==> k * m <= -m
  {
  }

  lemma ModCong(a: int, m: int)
    requires m > 0
    ensures Cong(a % m, a, m)
  {
    QuotientUnique(a % m, m, 0, a % m);
  }

  lemma CongMul(a: int, b: int, c: int, d: int, m: int)
    requires m > 0 && Cong(a, b, m) && Cong(c, d, m)
    ensures Cong(a * c, b * d, m)
  {
    var j := CongGap(a, b, m);
    var k := CongGap(c, d, m);
    var t := ProductGap(a, b, c, d, j, k, m);
    AddMultiple(b * d, t, m);
  }

  lemma ProductGap(a: int, b: int, c: int, d: int, j: int, k: int, m: int) returns (t: int)
    requires a == b + j * m && c == d + k * m
    ensures a * c == b * d + t * m
  {
    t := b * k + j * c;
    assert (b + j * m) * c == b * c + j * c * m;
    assert b * (d + k * m) == b * d + b * k * m;
  }

  lemma CongAdd(a: int, b: int, c: int, d: int, m: int)
    requires m > 0 && Cong(a, b, m) && Cong(c, d, m)
    ensures Cong(a + c, b + d, m)
  {
    var j := CongGap(a, b, m);
    var k := CongGap(c, d, m);
    assert a + c == b + d + (j + k) * m;
    AddMultiple(b + d, j + k, m);
  }

  // ---------------------------------------------------------------- powers

  function Pow(b: int, e: nat): int {
    if e == 0 then 1 else b * Pow(b, e - 1)
  }

  lemma PowOnce(b: int)
    ensures Pow(b, 1) == b
  {
    assert Pow(b, 0) == 1;
  }

  lemma {:induction false} PowAdd(b: int, x: nat, y: nat)
    ensures Pow(b, x + y) == Pow(b, x) * Pow(b, y)
  {
    if x > 0 {
      PowAdd(b, x - 1, y);
      assert Pow(b, x + y) == b * Pow(b, x - 1 + y) == b * (Pow(b, x - 1) * Pow(b, y));
    }
  }

  lemma {:induction false} PowTimes(b: int, x: nat, y: nat)
    requires 0 <= x * y
    ensures Pow(Pow(b, x), y) == Pow(b, x * y)
    decreases y
  {
    if y > 0 {
      assert x * y == x + x * (y - 1) && 0 <= x * (y - 1);
      PowTimes(b, x, y - 1);
      PowAdd(b, x, x * (y - 1));
    }
  }

  lemma {:induction false} PowCong(a: int, b: int, e: nat, m: int)
    requires m > 0 && Cong(a, b, m)
    ensures Cong(Pow(a, e), Pow(b, e), m)
    decreases e
  {
    if e > 0 {
      PowCong(a, b, e - 1, m);
      CongMul(a, b, Pow(a, e - 1), Pow(b, e - 1), m);
    }
  }

  lemma {:induction false} PowOfOne(e: nat)
    ensures Pow(1, e) == 1
  {
    if e > 0 {
      PowOfOne(e - 1);
    }
  }

  /** Exponents of an element whose q-th power is 1 count modulo q. */
  lemma PowReduce(g: int, e: nat, q: nat, p: int)
    requires p > 1 && q > 0 && Cong(Pow(g, q), 1, p)
    ensures Cong(Pow(g, e), Pow(g, e % q), p)
  {
    var d := e / q;
    assert e == q * d + e % q && 0 <= q * d;
    PowAdd(g, q * d, e % q);
    PowTimes(g, q, d);
    PowCong(Pow(g, q), 1, d, p);
    PowOfOne(d);
    CongMul(Pow(g, q * d), 1, Pow(g, e % q), Pow(g, e % q), p);
  }

  lemma PowExponentCong(g: int, x: nat, y: nat, q: nat, p: int)
    requires p > 1 && q > 0 && Cong(Pow(g, q), 1, p) && Cong(x, y, q)
    ensures Cong(Pow(g, x), Pow(g, y), p)
  {
    PowReduce(g, x, q, p);
    PowReduce(g, y, q, p);
  }

  // ---------------------------------------------------------------- inverses

  ghost predicate IsPrime(n: int) {
    n > 1 && forall d :: 1 < d < n ==> n % d != 0
  }

  /** What InverseMod of the library's Integer class delivers: the inverse in [0, m), or 0. */
  function InverseMod(a: int, m: int): int
    requires m > 1
  {
    FirstInverse(a, m, 0)
  }

  function FirstInverse(a: int, m: int, w: nat): (r: int)
    requires m > 1 && w <= m
    ensures r == 0 || (w <= r < m && (a * r) % m == 1)
    ensures r == 0 ==> forall v :: w <= v < m ==> (a * v) % m != 1
    decreases m - w
  {
    if w == m then 0
    else if (a * w) % m == 1 then w
    else FirstInverse(a, m, w + 1)
  }

  /** Euclid's algorithm with its two coefficients. */
  lemma {:induction false} Bezout(a: nat, b: nat) returns (d: nat, x: int, y: int)
    requires a > 0 || b > 0
    ensures d > 0 && d == a * x + b * y
    ensures a % d == 0 && b % d == 0
    decreases b
  {
    if b == 0 {
      d, x, y := a, 1, 0;
      QuotientUnique(a, a, 1, 0);
    } else {
      var q, r := a / b, a % b;
      var x1, y1;
      d, x1, y1 := Bezout(b, r);
      x, y := BezoutStep(a, b, q, r, d, x1, y1);
    }
  }

  lemma BezoutStep(a: int, b: int, q: int, r: int, d: nat, x1: int, y1: int) returns (x: int, y: int)
    requires a == q * b + r && d > 0 && b % d == 0 && r % d == 0 && d == b * x1 + r * y1
    ensures d == a * x + b * y && a % d == 0
  {
    x, y := y1, x1 - q * y1;
    Rearranged(b, q, r, x1, y1);
    DivisibleSum(q, b, r, d);
  }

  lemma Rearranged(b: int, q: int, r: int, x: int, y: int)
    ensures b * x + r * y == (q * b + r) * y + b * (x - q * y)
  {
    assert (q * b + r) * y == q * b * y + r * y;
    assert b * (x - q * y) == b * x - b * (q * y);
  }

  lemma DivisibleSum(q: int, b: int, r: int, d: nat)
    requires d > 0 && b % d == 0 && r % d == 0
    ensures (q * b + r) % d == 0
  {
    var m, n := b / d, r / d;
    MultipleOfBoth(q, m, n, d);
    assert b == m * d && r == n * d;
  }

  lemma MultipleOfBoth(q: int, m: int, n: int, d: nat)
    requires d > 0
    ensures (q * (m * d) + n * d) % d == 0
  {
    assert q * (m * d) + n * d == (q * m + n) * d;
    QuotientUnique((q * m + n) * d, d, q * m + n, 0);
  }

  lemma DivisorBound(d: nat, n: nat)
    requires d > 0 && n > 0 && n % d == 0
    ensures d <= n
  {
    assert n == (n / d) * d;
    MultipleBound(n / d, d);
  }

  lemma InverseModPrime(a: int, m: int)
    requires IsPrime(m) && a % m != 0
    ensures 0 < InverseMod(a, m) < m && (a * InverseMod(a, m)) % m == 1
  {
    var r := a % m;
    var d, x, y := Bezout(m, r);
    DivisorBound(d, r);
    assert d == 1 by {
      if d > 1 {
        assert false;
      }
    }
    var w := y % m;
    assert r * y == 1 + (-x) * m;
    AddMultiple(1, -x, m);
    QuotientUnique(1, m, 0, 1);
    ModCong(a, m);
    ModCong(y, m);
    CongMul(a, r, w, y, m);
    assert (a * w) % m == 1;
  }
}
