/** Conversion between performance-counter ticks and microseconds in 64-bit words,
    multiplying and dividing the high and low halves separately. */
module Ticks {
  import opened Bytes

  const TWO_32: nat := 0x1_0000_0000
  const MICROS: nat := 1_000_000

  /** x * mul / div by halves, every operation truncated to 64 bits. */
  function ScaleByHalves(x: uint64, mul: uint64, div: uint64): uint64
    requires div > 0
  {
    DivideProducts(x / TWO_32 * mul % TWO_64, x % TWO_32 * mul % TWO_64, div)
  }

  function DivideProducts(high: uint64, low: uint64, div: uint64): uint64
    requires div > 0
  {
    QuotientBelow(high, div);
    Recombine(high / div, high % div, low, div)
  }

  /** quotient << 32 plus (low + (remainder << 32)) / div. */
  function Recombine(quotient: uint64, remainder: uint64, low: uint64, div: uint64): uint64
    requires div > 0
  {
    (quotient * TWO_32 % TWO_64 + Carry(remainder, low) / div) % TWO_64
  }

  function Carry(remainder: uint64, low: uint64): uint64
  {
    (low + remainder * TWO_32 % TWO_64) % TWO_64
  }

  function QuicTimePlatToUs64(count: uint64, perfFreq: uint64): uint64
    requires perfFreq > 0
  {
    ScaleByHalves(count, MICROS, perfFreq)
  }

  function CxPlatTimeUs64ToPlat(timeUs: uint64, perfFreq: uint64): uint64
  {
    ScaleByHalves(timeUs, perfFreq, MICROS)
  }

  // ---------------------------------------------------------------- quotients

  lemma QuotientBelow(t: nat, d: nat)
    requires d > 0
    ensures t / d <= t
  {
    var q, r := QuotientRemainder(t, d);
    MulMonotone(1, d, q);
  }

  lemma QuotientShift(a: nat, b: nat, d: nat)
    requires d > 0
    ensures (a * d + b) / d == a + b / d
  {
    var q, r := QuotientRemainder(b, d);
    MulDistributes(a, q, d);
    QuotientUnique(a * d + b, d, a + q, r);
  }

  lemma QuotientMonotone(a: nat, b: nat, d: nat)
    requires d > 0 && a <= b
    ensures a / d <= b / d
  {
    var q, r := QuotientRemainder(a, d);
    QuotientShift(q, r + (b - a), d);
  }

  lemma SmallerQuotient(a: nat, b: nat, d: nat)
    requires d > 0 && a + d <= b
    ensures a / d < b / d
  {
    QuotientMonotone(a + d, b, d);
    QuotientShift(1, a, d);
  }

  lemma QuotientBounded(a: nat, b: nat, d: nat)
    requires d > 0 && a < b * d
    ensures a / d < b
  {
    var q, r := QuotientRemainder(a, d);
    if q >= b {
      MulMonotone(b, q, d);
    }
  }

  // ---------------------------------------------------------------- one conversion

  /** The numerator of the second division, before any truncation. */
  function Carried(high: nat, low: nat, div: uint64): nat
    requires div > 0
  {
    high % div * TWO_32 + low
  }

  /** The exact quotient is the sum of the two partial ones. */
  lemma HalvesAddUp(high: nat, low: nat, div: uint64)
    requires div > 0
    ensures (high * TWO_32 + low) / div == high / div * TWO_32 + Carried(high, low, div) / div
  {
    var q, r := QuotientRemainder(high, div);
    calc {
      high * TWO_32 + low;
      (q * div + r) * TWO_32 + low;
    == { MulDistributes(q * div, r, TWO_32); }
      q * div * TWO_32 + r * TWO_32 + low;
    == { Regroup(q, div, TWO_32); }
      q * TWO_32 * div + (r * TWO_32 + low);
    }
    QuotientShift(q * TWO_32, r * TWO_32 + low, div);
  }

  lemma Regroup(a: nat, b: nat, c: nat)
    ensures a * b * c == a * c * b
  {
    MulAssociative(a, b, c);
    MulAssociative(a, c, b);
  }

  lemma TruncatedSum(v: nat, s: nat, a: nat, b: nat)
    requires a <= b && a < TWO_64 && (s < TWO_64 ==> a == b) && (s >= TWO_64 ==> a < b)
    ensures (v % TWO_64 + a) % TWO_64 == v + b <==> v + b < TWO_64 && s < TWO_64
    ensures (v % TWO_64 + a) % TWO_64 <= v + b
  {
  }

  lemma TruncatedQuotient(s: nat, t: uint64, d: uint64)
    requires d > 0 && t == s % TWO_64
    ensures t / d <= s / d && t / d < TWO_64
    ensures s < TWO_64 ==> t / d == s / d
    ensures s >= TWO_64 ==> t / d < s / d
  {
    QuotientBelow(t, d);
    if s >= TWO_64 {
      SmallerQuotient(t, s, d);
    }
  }

  lemma CarryTruncates(remainder: uint64, low: uint64)
    ensures Carry(remainder, low) == (remainder * TWO_32 + low) % TWO_64
  {
    TruncatedBefore(remainder * TWO_32, low);
  }

  lemma TruncatedBefore(y: nat, low: nat)
    ensures (low + y % TWO_64) % TWO_64 == (y + low) % TWO_64
  {
  }

  /** A truncated numerator t in place of s. */
  lemma TruncatedNumerator(v: nat, s: nat, t: uint64, d: uint64, a: nat, b: nat)
    requires d > 0 && t == s % TWO_64 && a == t / d && b == s / d
    ensures (v % TWO_64 + a) % TWO_64 == v + b <==> v + b < TWO_64 && s < TWO_64
    ensures (v % TWO_64 + a) % TWO_64 <= v + b
  {
    assert a <= b && a < TWO_64 && (s < TWO_64 ==> a == b) && (s >= TWO_64 ==> a < b) by {
      TruncatedQuotient(s, t, d);
    }
    TruncatedSum(v, s, a, b);
  }

  /** What the second division contributes: a quotient of the truncated numerator. */
  lemma CarryQuotient(remainder: uint64, low: uint64, div: uint64, s: nat) returns (t: uint64, a: nat)
    requires div > 0 && s == remainder * TWO_32 + low
    ensures t == s % TWO_64 && a == t / div && a == Carry(remainder, low) / div
  {
    CarryTruncates(remainder, low);
    t := Carry(remainder, low);
    a := t / div;
  }

  lemma RecombineIs(quotient: uint64, remainder: uint64, low: uint64, div: uint64, v: nat, a: nat)
    requires div > 0 && v == quotient * TWO_32 && a == Carry(remainder, low) / div
    ensures Recombine(quotient, remainder, low, div) == (v % TWO_64 + a) % TWO_64
  {
  }

  /** v and b are the two partial quotients without truncation, s the numerator of the second. */
  lemma RecombineExactIff(quotient: uint64, remainder: uint64, low: uint64, div: uint64, v: nat, s: nat, b: nat)
    requires div > 0 && v == quotient * TWO_32 && s == remainder * TWO_32 + low && b == s / div
    ensures Recombine(quotient, remainder, low, div) == v + b <==> v + b < TWO_64 && s < TWO_64
    ensures Recombine(quotient, remainder, low, div) <= v + b
  {
    var t, a := CarryQuotient(remainder, low, div, s);
    RecombineIs(quotient, remainder, low, div, v, a);
    TruncatedNumerator(v, s, t, div, a, b);
  }

  lemma DivideProductsExactIff(high: uint64, low: uint64, div: uint64)
    requires div > 0
    ensures var exact := (high * TWO_32 + low) / div;
            && (DivideProducts(high, low, div) == exact <==> exact < TWO_64 && Carried(high, low, div) < TWO_64)
            && DivideProducts(high, low, div) <= exact
  {
    QuotientBelow(high, div);
    HalvesAddUp(high, low, div);
    var s := Carried(high, low, div);
    RecombineExactIff(high / div, high % div, low, div, high / div * TWO_32, s, s / div);
  }

  /** The products of the halves, the numerator made of them and the quotient of the whole fit. */
  predicate NoneLost(high: nat, low: nat, product: nat, div: uint64)
    requires div > 0
  {
    high < TWO_64 && low < TWO_64 && Carried(high, low, div) < TWO_64 && product / div < TWO_64
  }

  /** No intermediate result of the conversion is truncated, and its result fits. */
  predicate NothingLost(x: uint64, mul: uint64, div: uint64)
    requires div > 0
  {
    NoneLost(x / TWO_32 * mul, x % TWO_32 * mul, x * mul, div)
  }

  lemma ProductOfHalves(x: uint64, mul: uint64)
    ensures x * mul == x / TWO_32 * mul * TWO_32 + x % TWO_32 * mul
  {
    var hi, lo := QuotientRemainder(x, TWO_32);
    MulDistributes(hi * TWO_32, lo, mul);
    Regroup(hi, TWO_32, mul);
  }

  /** A product that loses 2^64 makes the quotient smaller. */
  lemma LostProduct(high: nat, low: nat, h: uint64, l: uint64, div: uint64)
    requires div > 0 && h == high % TWO_64 && l == low % TWO_64 && (high >= TWO_64 || low >= TWO_64)
    ensures (h * TWO_32 + l) / div < (high * TWO_32 + low) / div
  {
    TruncationLoses(high, h);
    TruncationLoses(low, l);
    SmallerQuotient(h * TWO_32 + l, high * TWO_32 + low, div);
  }

  lemma TruncationLoses(x: nat, t: nat)
    requires t == x % TWO_64
    ensures t <= x && (x >= TWO_64 ==> t + TWO_64 <= x) && (x < TWO_64 ==> t == x)
  {
  }

  lemma LostProductsInexact(high: nat, low: nat, h: uint64, l: uint64, div: uint64)
    requires div > 0 && h == high % TWO_64 && l == low % TWO_64 && (high >= TWO_64 || low >= TWO_64)
    ensures DivideProducts(h, l, div) < (high * TWO_32 + low) / div
  {
    LostProduct(high, low, h, l, div);
    DivideProductsExactIff(h, l, div);
  }

  /** The conversion of x, whose two products are high and low. */
  lemma ProductsExactIff(high: nat, low: nat, h: uint64, l: uint64, div: uint64)
    requires div > 0 && h == high % TWO_64 && l == low % TWO_64
    ensures DivideProducts(h, l, div) == (high * TWO_32 + low) / div <==>
            NoneLost(high, low, high * TWO_32 + low, div)
  {
    if high >= TWO_64 || low >= TWO_64 {
      LostProductsInexact(high, low, h, l, div);
    } else {
      TruncationLoses(high, h);
      TruncationLoses(low, l);
      DivideProductsExactIff(h, l, div);
    }
  }

  /** For every input: the conversion is exact exactly when nothing is lost on the way. */
  lemma ScaleExactIff(x: uint64, mul: uint64, div: uint64)
    requires div > 0
    ensures ScaleByHalves(x, mul, div) == x * mul / div <==> NothingLost(x, mul, div)
  {
    ProductOfHalves(x, mul);
    var high, low := x / TWO_32 * mul, x % TWO_32 * mul;
    ProductsExactIff(high, low, high % TWO_64, low % TWO_64, div);
  }
}
