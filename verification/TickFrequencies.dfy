/** For which frequencies of the performance counter the two conversions are exact. */
module TickFrequencies {
  import opened Bytes
  import opened Divisors
  import opened Ticks

  /** Every count whose time in microseconds fits in 64 bits is converted exactly. */
  ghost predicate CountsExact(perfFreq: uint64)
    requires perfFreq > 0
  {
    forall count: uint64 :: count * MICROS / perfFreq < TWO_64 ==>
      QuicTimePlatToUs64(count, perfFreq) == count * MICROS / perfFreq
  }

  /** Every time whose count fits in 64 bits is converted exactly. */
  ghost predicate TimesExact(perfFreq: uint64)
  {
    forall timeUs: uint64 :: timeUs * perfFreq / MICROS < TWO_64 ==>
      CxPlatTimeUs64ToPlat(timeUs, perfFreq) == timeUs * perfFreq / MICROS
  }

  /** What a caller can check before using either conversion. */
  predicate SlowEnough(perfFreq: uint64)
  {
    perfFreq + MICROS - Gcd(perfFreq, MICROS) <= TWO_32
  }

  /** The common divisor of the frequency and a million, and what is left of them. */
  lemma Divided(perfFreq: uint64) returns (g: nat, e: nat, n: nat, x: int, y: int)
    requires perfFreq > 0
    ensures g == Gcd(perfFreq, MICROS) && 0 < g <= MICROS && g <= perfFreq && e > 0 && n > 0
    ensures perfFreq == g * e && MICROS == g * n && e * x + n * y == 1
  {
    g := Gcd(perfFreq, MICROS);
    e, n, x, y := GcdSplits(perfFreq, MICROS);
    FactorBounds(perfFreq, g, e);
    FactorBounds(MICROS, g, n);
    Cancelled(perfFreq, MICROS, g, e, n, x, y);
  }

  lemma FactorBounds(a: nat, g: nat, e: nat)
    requires a == g * e && a > 0
    ensures 0 < g <= a && 0 < e <= a
  {
    if g > 0 && e > 0 {
      MulMonotone(1, e, g);
      MulMonotone(1, g, e);
    }
  }

  // ---------------------------------------------------------------- slow enough

  lemma ProductFits(a: nat, mul: nat)
    requires a < TWO_32 && mul <= TWO_32
    ensures a * mul <= (TWO_32 - 1) * mul < TWO_64
  {
    MulMonotone(a, TWO_32 - 1, mul);
  }

  lemma CarriedFits(high: nat, low: nat, mul: nat, div: uint64, g: nat)
    requires div > 0 && 0 < mul && g <= div && mul + div - g <= TWO_32
    requires high % div <= div - g && low <= (TWO_32 - 1) * mul
    ensures Carried(high, low, div) < TWO_64
  {
  }

  lemma SlowCarries(x: uint64, mul: uint64, div: uint64, g: nat, e: nat, n: nat)
    requires 0 < mul <= TWO_32 && div == g * e && mul == g * n && 0 < g <= div && mul + div - g <= TWO_32
    ensures x / TWO_32 * mul < TWO_64 && x % TWO_32 * mul < TWO_64
    ensures Carried(x / TWO_32 * mul, x % TWO_32 * mul, div) < TWO_64
  {
    ProductFits(x / TWO_32, mul);
    ProductFits(x % TWO_32, mul);
    RemainderAtMost(x / TWO_32, mul, div, g, e, n);
    CarriedFits(x / TWO_32 * mul, x % TWO_32 * mul, mul, div, g);
  }

  lemma SlowExactIff(x: uint64, mul: uint64, div: uint64, g: nat, e: nat, n: nat)
    requires 0 < mul <= TWO_32 && div == g * e && mul == g * n && 0 < g <= div && mul + div - g <= TWO_32
    ensures ScaleByHalves(x, mul, div) == x * mul / div <==> x * mul / div < TWO_64
  {
    ScaleExactIff(x, mul, div);
    SlowCarries(x, mul, div, g, e, n);
  }

  /** At such a frequency a conversion is exact whenever its result fits. */
  lemma ConversionsExact(x: uint64, perfFreq: uint64)
    requires perfFreq > 0 && SlowEnough(perfFreq)
    ensures QuicTimePlatToUs64(x, perfFreq) == x * MICROS / perfFreq <==> x * MICROS / perfFreq < TWO_64
    ensures CxPlatTimeUs64ToPlat(x, perfFreq) == x * perfFreq / MICROS <==> x * perfFreq / MICROS < TWO_64
  {
    var g, e, n, _, _ := Divided(perfFreq);
    SlowExactIff(x, MICROS, perfFreq, g, e, n);
    SlowExactIff(x, perfFreq, MICROS, g, n, e);
  }

  /** Every frequency up to 2^32 - 999999 is slow enough, and those up to 2^32 that a million divides. */
  lemma SlowFrequencies(perfFreq: uint64)
    requires perfFreq > 0
    ensures perfFreq <= TWO_32 - 999_999 ==> SlowEnough(perfFreq)
    ensures perfFreq <= TWO_32 && perfFreq % MICROS == 0 ==> SlowEnough(perfFreq)
    ensures SlowEnough(perfFreq) ==> perfFreq <= TWO_32
  {
    var g, e, n, _, _ := Divided(perfFreq);
    if perfFreq % MICROS == 0 {
      assert Gcd(perfFreq, MICROS) == Gcd(MICROS, 0) == MICROS;
    }
  }

  /** Microseconds to ticks and back: the same time when it is a whole number of ticks,
      one microsecond less otherwise. */
  lemma RoundTrip(timeUs: uint64, perfFreq: uint64)
    requires MICROS <= perfFreq && SlowEnough(perfFreq)
    requires timeUs * perfFreq / MICROS < TWO_64
    ensures var back := QuicTimePlatToUs64(CxPlatTimeUs64ToPlat(timeUs, perfFreq), perfFreq);
            back == if timeUs * perfFreq % MICROS == 0 then timeUs else timeUs - 1
  {
    var ticks, rest := QuotientRemainder(timeUs * perfFreq, MICROS);
    ConversionsExact(timeUs, perfFreq);
    BackAgain(timeUs, perfFreq, ticks, rest);
    assert ticks * MICROS / perfFreq < TWO_64;
    ConversionsExact(ticks, perfFreq);
  }

  lemma BackAgain(timeUs: nat, perfFreq: nat, ticks: nat, rest: nat)
    requires MICROS <= perfFreq && timeUs * perfFreq == ticks * MICROS + rest && rest < MICROS
    ensures rest > 0 ==> timeUs > 0
    ensures ticks * MICROS / perfFreq == if rest == 0 then timeUs else timeUs - 1
  {
    if rest == 0 {
      QuotientUnique(ticks * MICROS, perfFreq, timeUs, 0);
    } else {
      if timeUs > 0 {
        MulDistributes(timeUs - 1, 1, perfFreq);
        QuotientUnique(ticks * MICROS, perfFreq, timeUs - 1, perfFreq - rest);
      }
    }
  }

  // ---------------------------------------------------------------- too fast

  /** The input with this high half whose low half is all ones. */
  function Worst(high: nat): (x: nat)
    ensures high < TWO_32 ==> x < TWO_64 && x / TWO_32 == high && x % TWO_32 == TWO_32 - 1
  {
    high * TWO_32 + (TWO_32 - 1)
  }

  lemma WorstOverflows(h: nat, mul: nat, div: uint64, r: nat)
    requires div > 0 && (h * mul) % div == r && r + mul > TWO_32 && mul <= TWO_32
    ensures Carried(h * mul, (TWO_32 - 1) * mul, div) >= TWO_64
  {
  }

  lemma WorstIsWrong(h: nat, mul: uint64, div: uint64, r: nat)
    requires div > 0 && h < TWO_32 && (h * mul) % div == r && r + mul > TWO_32 && mul <= TWO_32
    ensures ScaleByHalves(Worst(h), mul, div) != Worst(h) * mul / div
  {
    var x := Worst(h);
    ScaleExactIff(x, mul, div);
    WorstOverflows(h, mul, div, r);
  }

  /** It still has a result that fits, when its high half is below div / g. */
  lemma WorstFits(h: nat, mul: nat, div: nat, g: nat, e: nat, n: nat)
    requires div == g * e && mul == g * n && div > 0 && mul > 0 && h < e && n <= TWO_32
    ensures Worst(h) * mul / div < TWO_64
  {
    MulMonotone(Worst(h), e * TWO_32, mul);
    CommonProduct(g, e, n);
    QuotientBounded(Worst(h) * mul, n * TWO_32, div);
  }

  lemma CommonProduct(g: nat, e: nat, n: nat)
    ensures e * TWO_32 * (g * n) == n * TWO_32 * (g * e)
  {
    assert e * (g * n) == n * (g * e);
  }

  lemma FastCountWrong(perfFreq: uint64) returns (count: uint64)
    requires 0 < perfFreq && !SlowEnough(perfFreq)
    ensures count * MICROS / perfFreq < TWO_64
    ensures QuicTimePlatToUs64(count, perfFreq) != count * MICROS / perfFreq
  {
    if perfFreq <= TWO_32 {
      var g, e, n, x, y := Divided(perfFreq);
      FactorBounds(perfFreq, g, e);
      FactorBounds(MICROS, g, n);
      var h := RemainderReached(MICROS, perfFreq, g, e, n, x, y);
      WorstIsWrong(h, MICROS, perfFreq, perfFreq - g);
      WorstFits(h, MICROS, perfFreq, g, e, n);
      count := Worst(h);
    } else {
      QuotientUnique(4294 * MICROS, perfFreq, 0, 4294 * MICROS);
      WorstIsWrong(4294, MICROS, perfFreq, 4294 * MICROS);
      count := Worst(4294);
      MulMonotone(2, perfFreq, TWO_64);
      QuotientBounded(count * MICROS, TWO_64, perfFreq);
    }
  }

  lemma FastTimeWrong(perfFreq: uint64) returns (timeUs: uint64)
    requires 0 < perfFreq && !SlowEnough(perfFreq)
    ensures timeUs * perfFreq / MICROS < TWO_64
    ensures CxPlatTimeUs64ToPlat(timeUs, perfFreq) != timeUs * perfFreq / MICROS
  {
    if perfFreq <= TWO_32 {
      var g, e, n, x, y := Divided(perfFreq);
      FactorBounds(perfFreq, g, e);
      FactorBounds(MICROS, g, n);
      var h := RemainderReached(perfFreq, MICROS, g, n, e, y, x);
      WorstIsWrong(h, perfFreq, MICROS, MICROS - g);
      WorstFits(h, perfFreq, MICROS, g, n, e);
      timeUs := Worst(h);
    } else if perfFreq == TWO_32 + 1 {
      timeUs := Worst(1);
      ScaleExactIff(timeUs, perfFreq, MICROS);
    } else {
      timeUs := ProductOverflows(perfFreq);
    }
  }

  /** A frequency above 2^32 + 1 overflows in the product of the low half. */
  lemma ProductOverflows(perfFreq: uint64) returns (timeUs: uint64)
    requires perfFreq > TWO_32 + 1
    ensures timeUs * perfFreq / MICROS < TWO_64
    ensures CxPlatTimeUs64ToPlat(timeUs, perfFreq) != timeUs * perfFreq / MICROS
  {
    var q, r := QuotientRemainder(TWO_64, perfFreq);
    MulMonotone(TWO_32 + 2, perfFreq, TWO_32 - 1);
    QuotientBounded(TWO_64, TWO_32 - 1, perfFreq);
    timeUs := q + 1;
    MulDistributes(q, 1, perfFreq);
    QuotientBounded(timeUs * perfFreq, TWO_64, MICROS);
    ScaleExactIff(timeUs, perfFreq, MICROS);
  }

  // ---------------------------------------------------------------- exactly which frequencies

  /** Both conversions are exact for all inputs whose result fits, or neither is: it depends
      on the frequency and its common divisor with a million. */
  lemma ConversionsExactIff(perfFreq: uint64)
    requires perfFreq > 0
    ensures CountsExact(perfFreq) <==> SlowEnough(perfFreq)
    ensures TimesExact(perfFreq) <==> SlowEnough(perfFreq)
  {
    if SlowEnough(perfFreq) {
      forall x: uint64
        ensures x * MICROS / perfFreq < TWO_64 ==> QuicTimePlatToUs64(x, perfFreq) == x * MICROS / perfFreq
        ensures x * perfFreq / MICROS < TWO_64 ==> CxPlatTimeUs64ToPlat(x, perfFreq) == x * perfFreq / MICROS
      {
        ConversionsExact(x, perfFreq);
      }
    } else {
      var count := FastCountWrong(perfFreq);
      var timeUs := FastTimeWrong(perfFreq);
    }
  }

  lemma EvenIsSlow(perfFreq: uint64)
    requires 0 < perfFreq <= TWO_32 - 999_998 && perfFreq % 2 == 0
    ensures SlowEnough(perfFreq)
  {
    var e, n, x, y := GcdSplits(perfFreq, MICROS);
    EvenCombination(perfFreq, MICROS, x, y);
    var g, _, _, _, _ := Divided(perfFreq);
  }

  lemma EvenCombination(a: nat, b: nat, x: int, y: int)
    requires a % 2 == 0 && b % 2 == 0
    ensures a * x + b * y != 1
  {
    var p, q := a / 2, b / 2;
    assert a * x + b * y == 2 * (p * x + q * y) by {
      assert a * x == 2 * p * x == 2 * (p * x);
      assert b * y == 2 * q * y == 2 * (q * y);
    }
  }

  lemma MillionDoesNotDivide(perfFreq: uint64)
    requires perfFreq >= TWO_32 && perfFreq % MICROS != 0
    ensures !SlowEnough(perfFreq)
  {
    var g, e, _, _, _ := Divided(perfFreq);
    if g == MICROS {
      QuotientUnique(perfFreq, MICROS, e, 0);
    }
  }

  /** At 2^32 - 999998 every conversion is exact still, at 2^32 not every one. */
  lemma FrequencyExamples()
    ensures SlowEnough(TWO_32 - 999_998) && !SlowEnough(TWO_32)
  {
    EvenIsSlow(TWO_32 - 999_998);
    MillionDoesNotDivide(TWO_32);
  }

  /** A count that is converted wrongly at 2^32 though its result would fit. */
  lemma FastCounterLosesBits()
    ensures QuicTimePlatToUs64(233_517_333_229_089_214, TWO_32) != 233_517_333_229_089_214 * MICROS / TWO_32 < TWO_64
  {
    var count: uint64 := 233_517_333_229_089_214;
    ScaleExactIff(count, MICROS, TWO_32);
    QuotientUnique(count, TWO_32, 54_369_991, 274_878);
  }
}
