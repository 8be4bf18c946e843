/** The greatest common divisor, and the remainders of the multiples of a number. */
module Divisors {
  import opened Bytes

  function Gcd(a: nat, b: nat): nat
    decreases b
  {
    if b == 0 then a else Gcd(b, a % b)
  }

  /** g divides a and b, e and n times, and is a combination of them: so every common divisor divides g. */
  ghost predicate Splits(a: nat, b: nat, g: nat, e: nat, n: nat, x: int, y: int)
  {
    a == g * e && b == g * n && a * x + b * y == g
  }

  lemma {:induction false} GcdSplits(a: nat, b: nat) returns (e: nat, n: nat, x: int, y: int)
    ensures Splits(a, b, Gcd(a, b), e, n, x, y)
    decreases b
  {
    if b == 0 {
      e, n, x, y := 1, 0, 1, 0;
    } else {
      var q, r := QuotientRemainder(a, b);
      var p, s, x', y' := GcdSplits(b, r);
      SplitsStep(a, b, q, r, Gcd(a, b), p, s, x', y');
      e, n, x, y := q * p + s, p, y', x' - q * y';
    }
  }

  lemma SplitsStep(a: nat, b: nat, q: nat, r: nat, g: nat, p: nat, s: nat, x: int, y: int)
    requires a == q * b + r && Splits(b, r, g, p, s, x, y)
    ensures Splits(a, b, g, q * p + s, p, y, x - q * y)
  {
    calc {
      g * (q * p + s);
      g * (q * p) + g * s;
      q * (g * p) + g * s;
      q * b + r;
      a;
    }
    calc {
      a * y + b * (x - q * y);
      (q * b + r) * y + b * (x - q * y);
      q * b * y + r * y + b * x - b * (q * y);
    == { assert q * b * y == b * (q * y); }
      r * y + b * x;
      g;
    }
  }

  /** With the common divisor cancelled. */
  lemma Cancelled(a: nat, b: nat, g: nat, e: nat, n: nat, x: int, y: int)
    requires Splits(a, b, g, e, n, x, y) && g > 0
    ensures e * x + n * y == 1
  {
    var u := e * x + n * y;
    assert g * u == g by {
      assert g * e * x == g * (e * x) && g * n * y == g * (n * y);
      assert g * (e * x) + g * (n * y) == g * u;
    }
    UnitFactor(g, u);
  }

  lemma SameOrder(a: int, b: int, c: int)
    requires c > 0
    ensures a < b <==> c * a < c * b
  {
    if a < b {
      assert c * (b - a) > 0;
    } else {
      assert c * (a - b) >= 0;
    }
  }

  lemma UnitFactor(g: nat, u: int)
    requires g > 0 && g * u == g
    ensures u == 1
  {
    SameOrder(u, 1, g);
    SameOrder(1, u, g);
  }

  /** The remainder of a multiple of m by d is at most d less their common divisor. */
  lemma RemainderAtMost(h: nat, m: nat, d: nat, g: nat, e: nat, n: nat)
    requires d == g * e && m == g * n && d > 0 && g > 0
    ensures (h * m) % d <= d - g
  {
    var q, r := QuotientRemainder(h * m, d);
    var k := h * n - q * e;
    assert r == g * k by {
      assert h * (g * n) == g * (h * n) && q * (g * e) == g * (q * e);
      assert g * (h * n) - g * (q * e) == g * k;
    }
    MultipleBelow(g, k, e);
  }

  lemma MultipleBelow(g: nat, k: int, e: nat)
    requires g > 0 && g * k < g * e
    ensures g * k <= g * e - g
  {
    SameOrder(k, e, g);
    SameOrder(e - 1, k, g);
    assert g * (e - 1) == g * e - g;
  }

  /** And for some multiple, below d / g times m, it is that. */
  lemma RemainderReached(m: nat, d: nat, g: nat, e: nat, n: nat, x: int, y: int) returns (h: nat)
    requires d == g * e && m == g * n && g > 0 && e > 0 && e * x + n * y == 1
    ensures h < e && (h * m) % d == d - g
  {
    var j := (-y) / e;
    h := (-y) % e;
    Congruent(h, n, e, x, y, j);
    SameOrder(0, x - j * n, e);
    RemainderIs(h, m, d, g, e, n, x - j * n);
  }

  lemma Congruent(h: nat, n: nat, e: nat, x: int, y: int, j: int)
    requires -y == e * j + h && e * x + n * y == 1
    ensures e * (x - j * n) == h * n + 1
  {
    calc {
      e * (x - j * n);
      e * x - e * (j * n);
    == { assert e * (j * n) == (e * j) * n; }
      e * x - (e * j) * n;
      e * x - (-y - h) * n;
    == { assert (-y - h) * n == -(n * y) - h * n; }
      e * x + n * y + h * n;
    }
  }

  /** h * n is one less than a multiple of e, so h * m is g less than one of d. */
  lemma RemainderIs(h: nat, m: nat, d: nat, g: nat, e: nat, n: nat, w: nat)
    requires d == g * e && m == g * n && g > 0 && e > 0 && w > 0 && e * w == h * n + 1
    ensures (h * m) % d == d - g
  {
    var k := h * n;
    ProductOut(h, g, n, k);
    MulAssociative(g, e, w);
    OneLess(g, e, k, w);
    SameOrder(0, e, g);
    LastRemainder(h * m, d, g, w);
  }

  lemma ProductOut(h: nat, g: nat, n: nat, k: nat)
    requires k == h * n
    ensures h * (g * n) == g * k
  {
    MulAssociative(h, g, n);
    MulAssociative(g, h, n);
  }

  lemma OneLess(g: nat, e: nat, k: nat, w: nat)
    requires e * w == k + 1
    ensures g * (e * w) == g * k + g
  {
    MulDistributes(k, 1, g);
  }

  lemma LastRemainder(x: nat, d: nat, g: nat, w: nat)
    requires 0 < g <= d && w > 0 && d * w == x + g
    ensures x % d == d - g
  {
    MulDistributes(w - 1, 1, d);
    QuotientUnique(x, d, w - 1, d - g);
  }
}
