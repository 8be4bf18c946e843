/** The two variable-length integers: the logarithmic one, whose first two bits
    give its size (section 16 of RFC 9000), and the direct one, whose size is
    stated elsewhere in the message. */
module VarInt {
  import opened Bytes
  import opened ByteSwap

  // ---------------------------------------------------------------- sizes

  function LVISize(lvi: uint64): nat
  {
    if lvi / 0x40 != 0 then
      if lvi / 0x4000 != 0 then
        if lvi / 0x4000_0000 != 0 then 8 else 4
      else 2
    else 1
  }

  function DVISize(dvi: uint32): nat
  {
    if dvi / 0x100 != 0 then
      if dvi / 0x1_0000 != 0 then
        if dvi / 0x100_0000 != 0 then 4 else 3
      else 2
    else 1
  }

  // ---------------------------------------------------------------- what the bytes mean

  /** The size announced by the two high bits of a first byte. */
  function LogSize(first: uint8): nat
  {
    match first / 64
    case 0 => 1
    case 1 => 2
    case 2 => 4
    case _ => 8
  }

  /** A whole logarithmic integer stands at the front of s. */
  predicate LogFits(s: seq<uint8>)
  {
    |s| > 0 && LogSize(s[0]) <= |s|
  }

  /** The value of a whole integer: its size bits dropped, the other bytes shifted in. */
  function LogValue(t: seq<uint8>): nat
    requires |t| > 0
  {
    if |t| == 1 then t[0] % 64 else LogValue(t[..|t| - 1]) * 256 + t[|t| - 1]
  }

  /** The value at the front of s. */
  function DecodeLog(s: seq<uint8>): (v: nat)
    requires LogFits(s)
    ensures v < TWO_62
  {
    LogValueBound(s[..LogSize(s[0])]);
    LogValue(s[..LogSize(s[0])])
  }

  lemma {:induction false} LogValueDigits(t: seq<uint8>)
    requires |t| > 0
    ensures LogValue(t) == FromBE([t[0] % 64] + t[1..])
  {
    var digits := [t[0] % 64] + t[1..];
    if |t| == 1 {
      assert digits == [t[0] % 64];
      FirstDigit(t[0] % 64, []);
      assert [t[0] % 64] + [] == digits;
    } else {
      LogValueDigits(t[..|t| - 1]);
      assert digits[..|digits| - 1] == [t[0] % 64] + t[..|t| - 1][1..];
    }
  }

  lemma LogValueBound(t: seq<uint8>)
    requires 1 <= |t| <= 8
    ensures LogValue(t) < 64 * Pow256(|t| - 1) <= TWO_62
  {
    LogValueDigits(t);
    LogDigitsBound([t[0] % 64] + t[1..]);
  }

  lemma LogDigitsBound(s: seq<uint8>)
    requires 1 <= |s| <= 8 && s[0] < 64
    ensures FromBE(s) < 64 * Pow256(|s| - 1) <= TWO_62
  {
    assert s == [s[0]] + s[1..];
    FirstDigit(s[0], s[1..]);
    FromBEBound(s[1..]);
    var p := Pow256(|s| - 1);
    Pow256UpTo(|s| - 1);
    MulMonotone(s[0], 63, p);
  }

  lemma FirstDigit(a: uint8, t: seq<uint8>)
    ensures FromBE([a] + t) == a * Pow256(|t|) + FromBE(t)
  {
    FromBEConcat([a], t);
    assert FromBE([a]) == a by { assert [a][..0] == []; }
  }

  lemma {:induction false} FromBEConcat(s: seq<uint8>, t: seq<uint8>)
    ensures FromBE(s + t) == FromBE(s) * Pow256(|t|) + FromBE(t)
  {
    if t == [] {
      assert s + t == s;
    } else {
      var t' := t[..|t| - 1];
      assert (s + t)[..|s + t| - 1] == s + t';
      FromBEConcat(s, t');
      MulBy256(FromBE(s), Pow256(|t'|));
    }
  }

  /** The size of a logarithmic integer is the least of the four that leaves two bits free:
      half the size is too small. */
  lemma LVISizeLeast(lvi: uint64)
    requires lvi < TWO_62
    ensures var size := LVISize(lvi);
            && size in {1, 2, 4, 8} && lvi < 64 * Pow256(size - 1)
            && (size > 1 ==> lvi >= 64 * Pow256(size / 2 - 1))
  {
    Pow256Values();
  }

  /** The size of a direct integer is its number of bytes, and one for zero. */
  lemma DVISizeLeast(dvi: uint32)
    ensures var size := DVISize(dvi);
            1 <= size <= 4 && dvi < Pow256(size) && (size > 1 ==> dvi >= Pow256(size - 1))
  {
    Pow256Values();
  }

  // ---------------------------------------------------------------- packing

  /** The two size bits, placed above a value of the given size. */
  function Tag(size: nat): nat
  {
    if size > 4 then 3 * TWO_62
    else if size > 2 then 0x8000_0000
    else if size > 1 then 0x4000
    else 0
  }

  /** The bytes that stand for v on the wire; a value above 2^62 - 1 is packed as zeros. */
  function EncodeLog(v: uint64): (s: seq<uint8>)
    ensures |s| == LVISize(v)
  {
    if v < TWO_62 then MemBE(Tag(LVISize(v)) + v, LVISize(v)) else MemBE(0, 8)
  }

  /** The 64-bit word that has those bytes in front and zeros behind. */
  function LogWord(v: uint64): (w: nat)
    ensures w < TWO_64
  {
    if v < TWO_62 then
      TaggedBounds(v);
      (Tag(LVISize(v)) + v) * Pow256(8 - LVISize(v))
    else 0
  }

  lemma TaggedBounds(v: uint64)
    requires v < TWO_62
    ensures Tag(LVISize(v)) + v < TWO_64 && Tag(LVISize(v)) + v < Pow256(LVISize(v))
    ensures v != 0 ==> Tag(LVISize(v)) + v >= Pow256(LVISize(v) - 1)
    ensures (Tag(LVISize(v)) + v) * Pow256(8 - LVISize(v)) < TWO_64
  {
    Pow256Values();
  }

  /** Shifting c left by whole bytes reaches the top byte exactly at 8 - size shifts. */
  lemma ReachesFront(c: nat, size: nat, k: nat)
    requires size in {1, 2, 4, 8} && Pow256(size - 1) <= c < Pow256(size) && k <= 8 - size
    ensures c * Pow256(k) < TWO_64
    ensures c * Pow256(k) < TWO_56 <==> k < 8 - size
  {
    Pow256Values();
    if k == 8 - size {
      Pow256Add(size - 1, k);
      Pow256Add(size, k);
      assert Pow256(size - 1) * Pow256(k) <= c * Pow256(k);
      assert c * Pow256(k) < Pow256(size) * Pow256(k);
    } else {
      Pow256Add(size, k);
      Pow256Add(size + k, 7 - size - k);
      assert c * Pow256(k) < Pow256(size) * Pow256(k) == Pow256(size + k);
      assert Pow256(size + k) <= Pow256(size + k) * Pow256(7 - size - k) == TWO_56;
    }
  }

  /** c shifted left by k bytes. */
  function ByteShifted(c: nat, k: nat): nat
  {
    if k == 0 then c else 256 * ByteShifted(c, k - 1)
  }

  lemma {:induction false} ByteShiftedProduct(c: nat, k: nat)
    ensures ByteShifted(c, k) == c * Pow256(k)
  {
    if k == 0 {
    } else {
      ByteShiftedProduct(c, k - 1);
      MulBy256(c, Pow256(k - 1));
    }
  }

  lemma FrontReached(c: nat, size: nat, k: nat)
    requires size in {1, 2, 4, 8} && Pow256(size - 1) <= c < Pow256(size) && k <= 8 - size
    ensures ByteShifted(c, k) < TWO_64 && (ByteShifted(c, k) < TWO_56 <==> k < 8 - size)
  {
    ReachesFront(c, size, k);
    ByteShiftedProduct(c, k);
  }

  /** Moves the value, tagged with its size, to the front of the word. */
  method ShiftToFront(value: uint64, lviSize: nat) returns (codified: uint64)
    requires 0 < value < TWO_62 && lviSize == LVISize(value)
    ensures codified == LogWord(value)
  {
    codified := SizeTag(lviSize);
    TaggedFits(value);
    WordShifted(value);
    codified := (codified + value) % TWO_64;
    codified := ShiftBytes(codified, lviSize);
  }

  /** Shifts by whole bytes until the top byte is in use. */
  method ShiftBytes(c: uint64, ghost size: nat) returns (codified: uint64)
    requires size in {1, 2, 4, 8} && Pow256(size - 1) <= c < Pow256(size)
    ensures codified == ByteShifted(c, 8 - size)
  {
    codified := c;
    ghost var k := 0;
    while codified / TWO_62 == 0 && codified / TWO_56 == 0
      invariant k <= 8 - size && codified == ByteShifted(c, k)
      decreases 8 - size - k
    {
      FrontReached(c, size, k);
      TopByteFree(codified);
      codified := codified * 0x100 % TWO_64;
      k := k + 1;
    }
    TopByteFree(codified);
    FrontReached(c, size, k);
  }

  lemma WordShifted(value: uint64)
    requires value < TWO_62
    ensures LogWord(value) == ByteShifted(Tag(LVISize(value)) + value, 8 - LVISize(value))
  {
    ByteShiftedProduct(Tag(LVISize(value)) + value, 8 - LVISize(value));
  }

  lemma TaggedFits(value: uint64)
    requires 0 < value < TWO_62
    ensures
      var size := LVISize(value);
      var c := Tag(size) + value;
      size in {1, 2, 4, 8} && c % TWO_64 == c < TWO_64 && Pow256(size - 1) <= c < Pow256(size)
  {
    TaggedBounds(value);
  }

  /** What the loop tests: the top byte is free, and a shift by a byte drops nothing. */
  lemma TopByteFree(x: uint64)
    ensures x / TWO_62 == 0 && x / TWO_56 == 0 <==> x < TWO_56
    ensures x < TWO_56 ==> x * 0x100 % TWO_64 == 256 * x
  {
  }

  /** The size bits, shifted to their place. */
  method SizeTag(lviSize: nat) returns (codified: uint64)
    ensures codified == Tag(lviSize)
  {
    if lviSize > 4 {
      codified := 3 * TWO_62;
    } else if lviSize > 2 {
      codified := 2 * 0x4000_0000;
    } else if lviSize > 1 {
      codified := 1 * 0x4000;
    } else {
      codified := 0;
    }
  }

  /** Packs a logarithmic integer; zero, and a value that is too large, give zero. */
  method PackLogVarInt(order: ByteOrder, value: uint64) returns (packed: uint64)
    ensures Image(order, packed, 8) == MemBE(LogWord(value), 8)
  {
    if value == 0 || value / TWO_62 != 0 {
      ZeroWord(value);
      ZeroImage(8);
      return 0;
    }
    var codified := ShiftToFront(value, LVISize(value));
    EndiannessIndependence(order, codified, 0);
    packed := ToWire64(order, codified);
  }

  lemma ZeroWord(value: uint64)
    requires value == 0 || value / TWO_62 != 0
    ensures LogWord(value) == 0
  {
  }

  lemma {:induction false} ZeroImage(k: nat)
    ensures MemLE(0, k) == MemBE(0, k) == seq(k, i => 0)
  {
    if k == 0 {
    } else {
      ZeroImage(k - 1);
    }
  }

  /** The front of the word is the encoding. */
  lemma LogFront(v: uint64)
    ensures MemBE(LogWord(v), 8)[..LVISize(v)] == EncodeLog(v)
  {
    var n := LVISize(v);
    if v < TWO_62 {
      MemBEConcat(Tag(n) + v, 0, n, 8 - n);
    }
  }

  /** Packs v and copies its first bytes, as every serializer does. */
  method LogBytes(order: ByteOrder, v: uint64) returns (s: seq<uint8>)
    ensures s == EncodeLog(v)
  {
    var packed := PackLogVarInt(order, v);
    LogFront(v);
    s := Image(order, packed, 8)[..LVISize(v)];
  }

  /** Expands the logarithmic integer at loc. */
  method UnpackLogVarInt(bytes: seq<uint8>, loc: nat) returns (numValue: uint64)
    requires loc <= |bytes| && LogFits(bytes[loc..])
    ensures numValue == DecodeLog(bytes[loc..])
  {
    var first := bytes[loc];
    var numSize := LogSize(first);
    numValue := first % 64;
    ghost var s := bytes[loc..];
    for i := 1 to numSize
      invariant numValue == LogValue(s[..i])
    {
      LogValueBound(s[..i + 1]);
      assert s[..i + 1][..i] == s[..i];
      assert s[i] == bytes[loc + i];
      numValue := ByteIn(numValue, bytes[loc + i]);
    }
  }

  /** Makes room for one more byte and adds it. */
  method ByteIn(x: uint64, b: uint8) returns (y: uint64)
    requires 256 * x + b < TWO_64
    ensures y == x * 256 + b
  {
    y := x * 0x100 % TWO_64;
    y := (y + b) % TWO_64;
  }

  /** The same in a word of 32 bits. */
  method ByteIn32(x: uint32, b: uint8) returns (y: uint32)
    requires x < 0x100_0000
    ensures y == x * 256 + b
  {
    y := x * 0x100 % 0x1_0000_0000;
    y := (y + b) % 0x1_0000_0000;
  }

  lemma FourDigits(s: seq<uint8>)
    requires |s| == 4
    ensures FromBE(s) == (s[0] as int) * 0x100_0000 + (s[1] as int) * 0x1_0000 + (s[2] as int) * 0x100 + s[3]
  {
    var t := s[..3];
    assert t[..2] == s[..2] && s[..2][..1] == s[..1] && s[..1][..0] == [];
    assert FromBE(s[..1]) == s[0];
    assert FromBE(t) == FromBE(s[..2]) * 0x100 + s[2];
  }

  // ---------------------------------------------------------------- laws of the logarithmic integer

  /** A tag of two bits above the 6 + 8 * (n - 1) bits of v, and where the first byte ends. */
  lemma SplitAtFirstByte(tag: nat, v: nat, p: nat) returns (hi: nat, lo: nat)
    requires tag < 4 && v < 64 * p
    ensures hi < 256 && hi / 64 == tag && lo < p
    ensures 64 * tag * p + v == hi * p + lo && v == (hi % 64) * p + lo
  {
    var q, r := QuotientRemainder(v, p);
    if q >= 64 {
      MulMonotone(64, q, p);
    }
    hi, lo := 64 * tag + q, r;
    MulDistributes(64 * tag, q, p);
  }

  /** The first byte of an encoding carries the size and the top bits of the value. */
  lemma TaggedSplit(v: uint64) returns (hi: uint8, lo: nat)
    requires v < TWO_62
    ensures var n := LVISize(v);
            && Tag(n) + v == hi * Pow256(n - 1) + lo && lo < Pow256(n - 1)
            && v == (hi % 64) * Pow256(n - 1) + lo
            && LogSize(hi) == n
  {
    var n := LVISize(v);
    LVISizeLeast(v);
    hi, lo := SplitAtFirstByte(TagBits(n), v, Pow256(n - 1));
    TagValue(n);
  }

  function TagBits(size: nat): nat
  {
    if size > 4 then 3 else if size > 2 then 2 else if size > 1 then 1 else 0
  }

  lemma TagValue(n: nat)
    requires n in {1, 2, 4, 8}
    ensures Tag(n) == 64 * TagBits(n) * Pow256(n - 1)
  {
    Pow256Values();
  }

  lemma LogEncoded(v: uint64)
    requires v < TWO_62
    ensures var s := EncodeLog(v);
            LogSize(s[0]) == |s| && LogValue(s) == v
  {
    var n := LVISize(v);
    var hi, lo := TaggedSplit(v);
    var t := MemBE(lo, n - 1);
    MemBEConcat(hi, lo, 1, n - 1);
    FromMemBE(lo, n - 1);
    FirstDigit(hi % 64, t);
    assert MemBE(hi, 1) == [hi];
    var s := EncodeLog(v);
    assert s == [hi] + t && s[1..] == t;
    LogValueDigits(s);
  }

  /** Decoding an encoding, whatever follows it, gives the value back. */
  lemma LogRoundTrip(v: uint64, tail: seq<uint8>)
    requires v < TWO_62
    ensures var s := EncodeLog(v) + tail;
            LogFits(s) && LogSize(s[0]) == LVISize(v) && DecodeLog(s) == v
  {
    LogEncoded(v);
    var e := EncodeLog(v);
    var s := e + tail;
    assert s[..|e|] == e;
  }

  /** No encoding is the beginning of another one. */
  lemma LogPrefixFree(v: uint64, w: uint64)
    requires v < TWO_62 && w < TWO_62
    requires EncodeLog(v) <= EncodeLog(w)
    ensures v == w
  {
    LogRoundTrip(v, EncodeLog(w)[|EncodeLog(v)|..]);
    LogRoundTrip(w, []);
    assert EncodeLog(w) + [] == EncodeLog(w) == EncodeLog(v) + EncodeLog(w)[|EncodeLog(v)|..];
  }

  /** There is one encoding of a given size for each value. */
  lemma EncodingUnique(t: seq<uint8>, e: seq<uint8>)
    requires |t| == |e| > 0 && t[0] / 64 == e[0] / 64 && LogValue(t) == LogValue(e)
    ensures t == e
  {
    LogValueDigits(t);
    LogValueDigits(e);
    var d, f := [t[0] % 64] + t[1..], [e[0] % 64] + e[1..];
    MemFromBE(d);
    MemFromBE(f);
    SameByte(t[0], e[0], d[0], f[0]);
    assert t == [t[0]] + d[1..];
    assert e == [e[0]] + f[1..];
  }

  lemma SameByte(x: nat, y: nat, lowX: nat, lowY: nat)
    requires x / 64 == y / 64 && lowX == x % 64 && lowY == y % 64
    ensures lowX == lowY ==> x == y
  {
  }

  /** The minimal size of a decoded value is never more than the size it was read from,
      and equal to it exactly when the bytes read are the ones the packer writes. */
  lemma MinimalAdvance(s: seq<uint8>)
    requires LogFits(s)
    ensures LVISize(DecodeLog(s)) <= LogSize(s[0])
    ensures LVISize(DecodeLog(s)) == LogSize(s[0]) <==> s[..LogSize(s[0])] == EncodeLog(DecodeLog(s))
  {
    var t, v := s[..LogSize(s[0])], DecodeLog(s);
    LogValueBound(t);
    LVISizeLeast(v);
    if LVISize(v) == |t| {
      LogEncoded(v);
      EncodingUnique(t, EncodeLog(v));
    }
  }

  // ---------------------------------------------------------------- the direct integer

  /** Packs a direct integer: its bytes are moved to the front of the word. */
  method PackDirVarInt(order: ByteOrder, value: uint32) returns (packed: uint32)
    ensures Image(order, packed, 4) == MemBE(DirWord(value), 4)
  {
    var dviSize := DVISize(value);
    DirWordBound(value);
    packed := value * Pow256(4 - dviSize) % 0x1_0000_0000;
    assert packed == DirWord(value);
    EndiannessIndependence(order, 0, packed);
    packed := ToWire32(order, packed);
  }

  /** The value shifted to the most significant of four bytes; the shift drops no bit. */
  function DirWord(v: uint32): (w: nat)
    ensures w < 0x1_0000_0000
  {
    DirWordBound(v);
    v * Pow256(4 - DVISize(v))
  }

  lemma DirWordBound(v: uint32)
    ensures v < Pow256(DVISize(v)) && v * Pow256(4 - DVISize(v)) < 0x1_0000_0000
  {
    Pow256Values();
  }

  /** Expands the direct integer of the given length at loc; a length below 1 reads one byte. */
  method UnpackDirVarInt(bytes: seq<uint8>, loc: nat, length: int) returns (numVal: uint32)
    requires loc + 1 <= |bytes| && loc + length <= |bytes|
    ensures var n := if length < 1 then 1 else length;
            numVal == FromBE(bytes[loc..loc + n]) % 0x1_0000_0000
  {
    numVal := bytes[loc];
    assert bytes[loc..loc + 1][..0] == [];
    var i := 1;
    while i < length
      invariant 1 <= i && (i <= length || i == 1)
      invariant numVal == FromBE(bytes[loc..loc + i]) % 0x1_0000_0000
    {
      assert bytes[loc..loc + i + 1][..i] == bytes[loc..loc + i];
      TruncatedStep(FromBE(bytes[loc..loc + i]), bytes[loc + i]);
      numVal := numVal * 0x100 % 0x1_0000_0000;
      numVal := (numVal + bytes[loc + i]) % 0x1_0000_0000;
      i := i + 1;
    }
  }

  /** What is left of v when size bytes are read as len bytes. */
  function Rescaled(v: uint32, len: nat): (r: nat)
    requires 1 <= len <= 4
    ensures r < Pow256(len) <= 0x1_0000_0000
  {
    RescaledBound(v, len);
    var size := DVISize(v);
    if len >= size then v * Pow256(len - size) else v / Pow256(size - len)
  }

  lemma RescaledBound(v: uint32, len: nat)
    requires 1 <= len <= 4
    ensures Pow256(len) <= 0x1_0000_0000
    ensures DVISize(v) <= len ==> v * Pow256(len - DVISize(v)) < Pow256(len)
    ensures DVISize(v) > len ==> v / Pow256(DVISize(v) - len) < Pow256(len)
  {
    Pow256Values();
  }

  /** The first len bytes of a packed direct integer, on every host. */
  function DirBytes(v: uint32, len: nat): (s: seq<uint8>)
    requires 1 <= len <= 4
    ensures |s| == len
  {
    MemBE(Rescaled(v, len), len)
  }

  lemma FrontRescaled(v: uint32, len: nat)
    requires 1 <= len <= 4
    ensures DirWord(v) / Pow256(4 - len) == Rescaled(v, len)
  {
    var s := DVISize(v);
    if len >= s {
      Pow256Add(len - s, 4 - len);
      ScaledUp(v, Pow256(len - s), Pow256(4 - len));
    } else {
      Pow256Add(s - len, 4 - s);
      ScaledDown(v, Pow256(s - len), Pow256(4 - s));
    }
  }

  /** The first len bytes of the word are what a header carries. */
  lemma DirFront(v: uint32, len: nat)
    requires 1 <= len <= 4
    ensures MemBE(DirWord(v), 4)[..len] == DirBytes(v, len)
  {
    FrontRescaled(v, len);
    MemBEFront(DirWord(v), len, 4 - len);
  }

  lemma DirBytesRead(v: uint32, len: nat)
    requires 1 <= len <= 4
    ensures FromBE(DirBytes(v, len)) == Rescaled(v, len)
  {
    FromMemBE(Rescaled(v, len), len);
  }

  /** Reading back the first len bytes of the packed word scales the value by the difference in length. */
  lemma DirAtAnyLength(v: uint32, len: nat)
    requires 1 <= len <= 4
    ensures FromBE(MemBE(DirWord(v), 4)[..len]) ==
            var size := DVISize(v);
            if len >= size then v * Pow256(len - size) else v / Pow256(size - len)
  {
    DirFront(v, len);
    DirBytesRead(v, len);
  }

  lemma RescaledSame(v: uint32, len: nat)
    requires 1 <= len <= 4
    ensures Rescaled(v, len) == v <==> v == 0 || DVISize(v) == len
  {
    Pow256Values();
  }

  /** The value survives exactly when it is zero or the length is its own size. */
  lemma DirRoundTripIff(v: uint32, len: nat)
    requires 1 <= len <= 4
    ensures FromBE(MemBE(DirWord(v), 4)[..len]) == v <==> v == 0 || DVISize(v) == len
  {
    DirFront(v, len);
    DirBytesRead(v, len);
    RescaledSame(v, len);
  }

  lemma DirThereAndBack(v: uint32, len: nat, bytes: seq<uint8>)
    requires 1 <= len <= 4 && bytes == MemBE(DirWord(v), 4)[..len]
    ensures bytes[0..len] == DirBytes(v, len) && FromBE(bytes[0..len]) == Rescaled(v, len)
  {
    DirFront(v, len);
    DirBytesRead(v, len);
    assert bytes[0..len] == bytes;
  }

  lemma Truncated32(x: nat)
    ensures x < 0x1_0000_0000 ==> x % 0x1_0000_0000 == x
  {
  }

  /** A direct integer packed on any host, of which the first len bytes are unpacked again. */
  method PackThenUnpackDir(order: ByteOrder, v: uint32, len: nat) returns (w: uint32)
    requires 1 <= len <= 4
    ensures w == Rescaled(v, len)
    ensures w == v <==> v == 0 || DVISize(v) == len
  {
    var packed := PackDirVarInt(order, v);
    var bytes := Image(order, packed, 4)[..len];
    w := UnpackDirVarInt(bytes, 0, len);
    DirThereAndBack(v, len, bytes);
    Truncated32(Rescaled(v, len));
    RescaledSame(v, len);
  }
}
