/** Machine integers, and the bytes that make them up in memory.

    A shift to the left by n is a multiplication by 2^n truncated to the width,
    a shift to the right a division by 2^n, and a mask of n low bits a remainder
    modulo 2^n. */
module Bytes {

  type uint8 = x: nat | x < 0x100
  type uint16 = x: nat | x < 0x1_0000
  type uint32 = x: nat | x < 0x1_0000_0000
  type uint64 = x: nat | x < 0x1_0000_0000_0000_0000

  const TWO_56: nat := 0x100_0000_0000_0000
  const TWO_62: nat := 0x4000_0000_0000_0000
  const TWO_64: nat := 0x1_0000_0000_0000_0000

  datatype Option<+T> = None | Some(value: T)

  function Pow256(k: nat): (p: nat)
    ensures p >= 1
  {
    if k == 0 then 1 else 256 * Pow256(k - 1)
  }

  lemma {:induction false} Pow256Add(a: nat, b: nat)
    ensures Pow256(a + b) == Pow256(a) * Pow256(b)
  {
    if a == 0 {
    } else {
      Pow256Add(a - 1, b);
      assert Pow256(a + b) == 256 * Pow256(a + b - 1);
    }
  }

  lemma Pow256Values()
    ensures Pow256(0) == 1 && Pow256(1) == 0x100 && Pow256(2) == 0x1_0000 && Pow256(3) == 0x100_0000
    ensures Pow256(4) == 0x1_0000_0000 && Pow256(5) == 0x100_0000_0000 && Pow256(6) == 0x1_0000_0000_0000
    ensures Pow256(7) == TWO_56 && Pow256(8) == TWO_64
  {
  }

  lemma Pow256UpTo(k: nat)
    requires k <= 8
    ensures Pow256(k) in {1, 0x100, 0x1_0000, 0x100_0000, 0x1_0000_0000, 0x100_0000_0000, 0x1_0000_0000_0000,
                          TWO_56, TWO_64}
    ensures k <= 7 ==> Pow256(k) <= TWO_56
  {
    Pow256Values();
  }

  lemma QuotientUnique(x: nat, b: nat, q: nat, r: nat)
    requires r < b && x == q * b + r
    ensures x / b == q && x % b == r
  {
    var k := x / b;
    assert x == k * b + x % b;
    assert k < q ==> (k + 1) * b <= q * b by {
      if k < q { MulMonotone(k + 1, q, b); }
    }
    assert q < k ==> (q + 1) * b <= k * b by {
      if q < k { MulMonotone(q + 1, k, b); }
    }
    assert (k + 1) * b == k * b + b && (q + 1) * b == q * b + b;
  }

  lemma MulMonotone(a: nat, b: nat, c: nat)
    requires a <= b
    ensures a * c <= b * c
    ensures a < b && c > 0 ==> a * c < b * c
  {
  }

  lemma MulBy256(a: nat, p: nat)
    ensures a * (256 * p) == 256 * (a * p)
  {
  }

  lemma QuotientRemainder(x: nat, b: nat) returns (q: nat, r: nat)
    requires b > 0
    ensures q == x / b && r == x % b && x == q * b + r && r < b
  {
    q, r := x / b, x % b;
  }

  lemma MulAssociative(a: nat, b: nat, c: nat)
    ensures a * b * c == a * (b * c)
  {
  }

  lemma MulDistributes(a: nat, b: nat, c: nat)
    ensures (a + b) * c == a * c + b * c
  {
  }

  lemma ScaledUp(v: nat, a: nat, b: nat)
    requires b > 0
    ensures (v * (a * b)) / b == v * a
  {
    MulAssociative(v, a, b);
    QuotientUnique(v * (a * b), b, v * a, 0);
  }

  lemma ScaledDown(v: nat, a: nat, b: nat)
    requires a > 0 && b > 0
    ensures a * b > 0
    ensures (v * b) / (a * b) == v / a
  {
    var q, r := QuotientRemainder(v, a);
    calc {
      v * b;
      (q * a + r) * b;
    == { MulDistributes(q * a, r, b); }
      q * a * b + r * b;
    == { MulAssociative(q, a, b); }
      q * (a * b) + r * b;
    }
    MulMonotone(r, a, b);
    QuotientUnique(v * b, a * b, q, r * b);
  }

  /** A byte below a number: the quotient and the remainder by 256. */
  lemma ByteBelow(h: nat, lo: nat)
    ensures (256 * h + lo) / 256 == h + lo / 256 && (256 * h + lo) % 256 == lo % 256
  {
  }

  /** Truncating before or after adding one more byte is the same. */
  lemma TruncatedStep(a: nat, b: uint8)
    ensures ((a % 0x1_0000_0000) * 0x100 % 0x1_0000_0000 + b) % 0x1_0000_0000 == (a * 0x100 + b) % 0x1_0000_0000
  {
    var q, r := QuotientRemainder(a, 0x1_0000_0000);
    TruncatedSum32(q * 0x100, r * 0x100, b);
  }

  /** Whole multiples of 2^32 are dropped, early or late. */
  lemma TruncatedSum32(q: nat, x: nat, b: nat)
    ensures (x % 0x1_0000_0000 + b) % 0x1_0000_0000 == (q * 0x1_0000_0000 + x + b) % 0x1_0000_0000
  {
  }

  /** The k bytes of x, least significant first. */
  function MemLE(x: nat, k: nat): (s: seq<uint8>)
    ensures |s| == k
  {
    if k == 0 then [] else [x % 256] + MemLE(x / 256, k - 1)
  }

  /** The k bytes of x, most significant first. */
  function MemBE(x: nat, k: nat): (s: seq<uint8>)
    ensures |s| == k
  {
    if k == 0 then [] else MemBE(x / 256, k - 1) + [x % 256]
  }

  /** The number whose bytes, most significant first, are s. */
  function FromBE(s: seq<uint8>): nat
  {
    if |s| == 0 then 0 else FromBE(s[..|s| - 1]) * 256 + s[|s| - 1]
  }

  lemma {:induction false} FromBEBound(s: seq<uint8>)
    ensures FromBE(s) < Pow256(|s|)
  {
    if s == [] {
    } else {
      FromBEBound(s[..|s| - 1]);
    }
  }

  lemma {:induction false} FromMemBE(x: nat, k: nat)
    requires x < Pow256(k)
    ensures FromBE(MemBE(x, k)) == x
  {
    if k == 0 {
    } else {
      FromMemBE(x / 256, k - 1);
      assert MemBE(x, k)[..k - 1] == MemBE(x / 256, k - 1);
    }
  }

  lemma {:induction false} MemFromBE(s: seq<uint8>)
    ensures MemBE(FromBE(s), |s|) == s
  {
    if s == [] {
    } else {
      MemFromBE(s[..|s| - 1]);
      assert FromBE(s) / 256 == FromBE(s[..|s| - 1]);
      assert s == s[..|s| - 1] + [s[|s| - 1]];
    }
  }

  lemma {:induction false} MemBEConcat(hi: nat, lo: nat, k: nat, j: nat)
    requires lo < Pow256(j)
    ensures MemBE(hi * Pow256(j) + lo, k + j) == MemBE(hi, k) + MemBE(lo, j)
  {
    if j == 0 {
      assert MemBE(lo, 0) == [];
    } else {
      var x := hi * Pow256(j) + lo;
      MulBy256(hi, Pow256(j - 1));
      ByteBelow(hi * Pow256(j - 1), lo);
      MemBEConcat(hi, lo / 256, k, j - 1);
      assert MemBE(x, k + j) == MemBE(x / 256, k + j - 1) + [x % 256];
    }
  }

  /** The first bytes of a word are those of its high part. */
  lemma MemBEFront(x: nat, k: nat, j: nat)
    ensures MemBE(x, k + j)[..k] == MemBE(x / Pow256(j), k)
  {
    var hi, lo := QuotientRemainder(x, Pow256(j));
    MemBEConcat(hi, lo, k, j);
    assert MemBE(x, k + j) == MemBE(hi, k) + MemBE(lo, j);
  }

  lemma {:induction false} MemLEConcat(hi: nat, lo: nat, k: nat, j: nat)
    requires lo < Pow256(j)
    ensures MemLE(hi * Pow256(j) + lo, j + k) == MemLE(lo, j) + MemLE(hi, k)
  {
    if j == 0 {
      assert MemLE(lo, 0) == [];
    } else {
      var x := hi * Pow256(j) + lo;
      MulBy256(hi, Pow256(j - 1));
      ByteBelow(hi * Pow256(j - 1), lo);
      MemLEConcat(hi, lo / 256, k, j - 1);
      assert MemLE(x, j + k) == [x % 256] + MemLE(x / 256, j + k - 1);
    }
  }

  /** The first bytes of a little-endian image do not depend on the width of the integer. */
  lemma {:induction false} MemLEPrefix(x: nat, k: nat, j: nat)
    requires j <= k
    ensures MemLE(x, k)[..j] == MemLE(x, j)
  {
    if j == 0 {
    } else {
      MemLEPrefix(x / 256, k - 1, j - 1);
    }
  }

  lemma ConcatAssociative(a: seq<uint8>, b: seq<uint8>, c: seq<uint8>)
    ensures (a + b) + c == a + (b + c)
  {
  }

  /** Pieces one behind the other. */
  function Flatten(parts: seq<seq<uint8>>): seq<uint8>
  {
    if parts == [] then [] else Flatten(parts[..|parts| - 1]) + parts[|parts| - 1]
  }

  lemma {:induction false} FlattenCons(parts: seq<seq<uint8>>)
    requires parts != []
    ensures Flatten(parts) == parts[0] + Flatten(parts[1..])
  {
    var n := |parts| - 1;
    if n == 0 {
      assert parts[..0] == [] && parts[1..] == [];
      assert Flatten(parts) == [] + parts[0] == parts[0] + [];
    } else {
      FlattenCons(parts[..n]);
      assert parts[..n][1..] == parts[1..][..n - 1];
      assert Flatten(parts[1..]) == Flatten(parts[1..][..n - 1]) + parts[n];
      ConcatAssociative(parts[0], Flatten(parts[1..][..n - 1]), parts[n]);
    }
  }

  /** Each piece lies right behind those before it. */
  lemma FlattenSlice(parts: seq<seq<uint8>>, i: nat)
    requires i < |parts|
    ensures Flatten(parts[..i + 1]) == Flatten(parts[..i]) + parts[i]
  {
    assert parts[..i + 1][..i] == parts[..i];
  }

  /** What lies before the end of a piece stays the beginning of the whole. */
  lemma {:induction false} FlattenPrefix(parts: seq<seq<uint8>>, i: nat)
    requires i <= |parts|
    ensures |Flatten(parts[..i])| <= |Flatten(parts)|
    ensures Flatten(parts)[..|Flatten(parts[..i])|] == Flatten(parts[..i])
    decreases |parts| - i
  {
    if i == |parts| {
      assert parts[..i] == parts;
    } else {
      FlattenPrefix(parts, i + 1);
      FlattenSlice(parts, i);
    }
  }

  /** Copying src over dst from at on, as memcpy does. */
  method CopyInto(dst: array<uint8>, at: nat, src: seq<uint8>)
    requires at + |src| <= dst.Length
    modifies dst
    ensures dst[..at + |src|] == old(dst[..at]) + src
    ensures dst[at + |src|..] == old(dst[at + |src|..])
  {
    for i := 0 to |src|
      invariant dst[..at] == old(dst[..at])
      invariant dst[at..at + i] == src[..i]
      invariant dst[at + i..] == old(dst[at + i..])
    {
      dst[at + i] := src[i];
    }
    assert dst[..at + |src|] == dst[..at] + dst[at..at + |src|];
  }
}
