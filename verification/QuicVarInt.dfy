/** The independent encoder and decoder of the QUIC library the client links with
    (section 16 of RFC 9000), and their agreement with the logarithmic integer.
    The compiler's byte-swap built-ins are the reversals of module ByteSwap. */
module QuicVarInt {
  import opened Bytes
  import opened ByteSwap
  import opened VarInt

  // ---------------------------------------------------------------- bits

  function BitOr(a: nat, b: nat): nat
    decreases a + b
  {
    if a == 0 && b == 0 then 0
    else 2 * BitOr(a / 2, b / 2) + if a % 2 == 1 || b % 2 == 1 then 1 else 0
  }

  function Pow2(k: nat): (p: nat)
    ensures p >= 1
  {
    if k == 0 then 1 else 2 * Pow2(k - 1)
  }

  lemma BitOrStep(y: nat, c: nat, bit: nat)
    requires bit < 2
    ensures BitOr(2 * y, 2 * c + bit) == 2 * BitOr(y, c) + bit
  {
    assert (2 * y) / 2 == y && (2 * c + bit) / 2 == c;
    assert (2 * y) % 2 == 0 && (2 * c + bit) % 2 == bit;
  }

  lemma {:induction false} BitOrZero(a: nat)
    ensures BitOr(a, 0) == a
  {
    if a == 0 {
    } else {
      BitOrZero(a / 2);
    }
  }

  function Doubled(a: nat, k: nat): nat
  {
    if k == 0 then a else 2 * Doubled(a, k - 1)
  }

  lemma {:induction false} DoubledIsProduct(a: nat, k: nat)
    ensures Doubled(a, k) == a * Pow2(k)
  {
    if k == 0 {
    } else {
      DoubledIsProduct(a, k - 1);
      assert a * Pow2(k) == 2 * (a * Pow2(k - 1));
    }
  }

  lemma {:induction false} BitOrDoubled(a: nat, b: nat, k: nat)
    requires b < Pow2(k)
    ensures BitOr(Doubled(a, k), b) == Doubled(a, k) + b
  {
    if k == 0 {
      BitOrZero(a);
    } else {
      BitOrDoubled(a, b / 2, k - 1);
      BitOrStep(Doubled(a, k - 1), b / 2, b % 2);
    }
  }

  /** Two numbers without a common bit: or is addition. */
  lemma BitOrDisjoint(a: nat, b: nat, k: nat)
    requires b < Pow2(k)
    ensures BitOr(a * Pow2(k), b) == a * Pow2(k) + b
  {
    DoubledIsProduct(a, k);
    BitOrDoubled(a, b, k);
  }

  lemma Pow2Values()
    ensures Pow2(8) == 0x100 && Pow2(14) == 0x4000 && Pow2(30) == 0x4000_0000 && Pow2(62) == TWO_62
  {
    assert Pow2(6) == 0x40 && Pow2(8) == 0x100;
    Pow2Add(8, 6);
    Pow2Add(8, 8);
    Pow2Add(14, 16);
    Pow2Add(16, 16);
    Pow2Add(30, 32);
  }

  lemma {:induction false} Pow2Add(a: nat, b: nat)
    ensures Pow2(a + b) == Pow2(a) * Pow2(b)
  {
    if a == 0 {
    } else {
      Pow2Add(a - 1, b);
    }
  }

  // ---------------------------------------------------------------- encoding

  /** What the encoder writes, branch by branch. */
  function QuicBytes(value: uint64): seq<uint8>
    requires value < TWO_62
  {
    OrTags(value);
    if value < 0x40 then [value]
    else if value < 0x4000 then MemLE(Rev16(BitOr(0x4000, value)), 2)
    else if value < 0x4000_0000 then MemLE(Rev32(BitOr(0x8000_0000, value)), 4)
    else MemLE(Rev64(BitOr(3 * TWO_62, value)), 8)
  }

  lemma OrTags(value: uint64)
    requires value < TWO_62
    ensures value < 0x4000 ==> BitOr(0x4000, value) == 0x4000 + value
    ensures value < 0x4000_0000 ==> BitOr(0x8000_0000, value) == 0x8000_0000 + value
    ensures BitOr(3 * TWO_62, value) == 3 * TWO_62 + value
  {
    Pow2Values();
    if value < 0x4000 {
      BitOrDisjoint(1, value, 14);
    }
    if value < 0x4000_0000 {
      BitOrDisjoint(2, value, 30);
    }
    BitOrDisjoint(3, value, 62);
  }

  lemma QuicBytesShort(value: uint64)
    requires 0x40 <= value < 0x4000
    ensures QuicBytes(value) == EncodeLog(value)
  {
    OrTags(value);
    Rev16Image(0x4000 + value);
  }

  lemma QuicBytesMiddle(value: uint64)
    requires 0x4000 <= value < 0x4000_0000
    ensures QuicBytes(value) == EncodeLog(value)
  {
    OrTags(value);
    Rev32Image(0x8000_0000 + value);
  }

  lemma QuicBytesLong(value: uint64)
    requires 0x4000_0000 <= value < TWO_62
    ensures QuicBytes(value) == EncodeLog(value)
  {
    OrTags(value);
    Rev64Image(3 * TWO_62 + value);
  }

  /** Both libraries write the same bytes. */
  lemma QuicBytesAreEncodeLog(value: uint64)
    requires value < TWO_62
    ensures QuicBytes(value) == EncodeLog(value)
  {
    if value < 0x40 {
      assert MemBE(value, 1) == MemBE(value / 256, 0) + [value];
    } else if value < 0x4000 {
      QuicBytesShort(value);
    } else if value < 0x4000_0000 {
      QuicBytesMiddle(value);
    } else {
      QuicBytesLong(value);
    }
  }

  method QuicVarIntEncode(value: uint64, buffer: array<uint8>, at: nat) returns (next: nat)
    requires value < TWO_62 && at + LVISize(value) <= buffer.Length
    modifies buffer
    ensures next == at + LVISize(value)
    ensures buffer[..next] == old(buffer[..at]) + EncodeLog(value)
    ensures buffer[next..] == old(buffer[next..])
  {
    QuicBytesAreEncodeLog(value);
    if value < 0x40 {
      CopyInto(buffer, at, [value]);
      next := at + 1;
    } else if value < 0x4000 {
      OrTags(value);
      CopyInto(buffer, at, MemLE(Rev16(BitOr(0x4000, value)), 2));
      next := at + 2;
    } else if value < 0x4000_0000 {
      OrTags(value);
      CopyInto(buffer, at, MemLE(Rev32(BitOr(0x8000_0000, value)), 4));
      next := at + 4;
    } else {
      OrTags(value);
      CopyInto(buffer, at, MemLE(Rev64(BitOr(3 * TWO_62, value)), 8));
      next := at + 8;
    }
  }

  // ---------------------------------------------------------------- decoding

  /** The number that a little-endian host loads from the bytes s. */
  function FromLE(s: seq<uint8>): nat
  {
    if |s| == 0 then 0 else s[0] + 256 * FromLE(s[1..])
  }

  lemma {:induction false} MemFromLE(s: seq<uint8>)
    ensures FromLE(s) < Pow256(|s|)
    ensures MemLE(FromLE(s), |s|) == s
  {
    if s == [] {
    } else {
      MemFromLE(s[1..]);
      var first: nat, rest := s[0], FromLE(s[1..]);
      LowByte(first, rest);
      assert FromLE(s) == first + 256 * rest;
      assert MemLE(first + 256 * rest, |s|) == [s[0]] + MemLE(rest, |s| - 1);
      assert s == [s[0]] + s[1..];
    }
  }

  lemma LowByte(first: nat, rest: nat)
    requires first < 256
    ensures (first + 256 * rest) % 256 == first && (first + 256 * rest) / 256 == rest
  {
  }

  /** Loading four bytes and swapping them reads them most significant first. */
  lemma SwappedLoad32(s: seq<uint8>)
    requires |s| == 4
    ensures FromLE(s) < 0x1_0000_0000 && Rev32(FromLE(s)) == FromBE(s)
  {
    Pow256Values();
    MemFromLE(s);
    var y: uint32 := FromLE(s);
    Rev32Involution(y);
    Rev32Image(Rev32(y));
    FromMemBE(Rev32(y), 4);
  }

  lemma SwappedLoad64(s: seq<uint8>)
    requires |s| == 8
    ensures FromLE(s) < TWO_64 && Rev64(FromLE(s)) == FromBE(s)
  {
    Pow256Values();
    MemFromLE(s);
    var y: uint64 := FromLE(s);
    Rev64Involution(y);
    Rev64Image(Rev64(y));
    FromMemBE(Rev64(y), 8);
  }

  /** Masking out the two size bits of a whole word is masking them out of its first byte. */
  lemma MaskedWord(a: uint8, t: seq<uint8>)
    ensures FromBE([a] + t) % (64 * Pow256(|t|)) == FromBE([a % 64] + t)
  {
    var p, low := Pow256(|t|), FromBE(t);
    FirstDigit(a, t);
    FirstDigit(a % 64, t);
    FromBEBound(t);
    MaskedProduct(a, p, low);
    assert FromBE([a] + t) == a * p + low;
  }

  lemma MaskedProduct(a: nat, p: nat, low: nat)
    requires low < p
    ensures (a * p + low) % (64 * p) == (a % 64) * p + low
  {
    var q, r := a / 64, a % 64;
    MulMonotone(r, 63, p);
    assert a * p == q * (64 * p) + r * p;
    QuotientUnique(a * p + low, 64 * p, q, r * p + low);
  }

  /** What the decoder returns for the bytes from its offset on: the value and
      how far it moves, or nothing when the buffer is too short. */
  function QuicDecoded(s: seq<uint8>): Option<(nat, nat)>
  {
    if |s| < 1 then None
    else if s[0] < 0x40 then Some((s[0], 1))
    else if s[0] < 0x80 then
      if |s| < 2 then None else
        var high: nat := s[0] % 0x40;
        Some((BitOr(high * 0x100, s[1]), 2))
    else if s[0] < 0xc0 then
      if |s| < 4 then None else
        SwappedLoad32(s[..4]);
        Some((Rev32(FromLE(s[..4])) % 0x4000_0000, 4))
    else
      if |s| < 8 then None else
        SwappedLoad64(s[..8]);
        Some((Rev64(FromLE(s[..8])) % TWO_62, 8))
  }

  /** The decoder succeeds exactly when a whole integer is there, and both decoders read the same value. */
  lemma DecodersAgree(s: seq<uint8>)
    ensures QuicDecoded(s).Some? <==> LogFits(s)
    ensures LogFits(s) ==> QuicDecoded(s) == Some((DecodeLog(s), LogSize(s[0])))
  {
    if LogFits(s) {
      var n := LogSize(s[0]);
      Pow256Values();
      var t := s[..n];
      assert t == [s[0]] + t[1..];
      MaskedWord(s[0], t[1..]);
      LogValueDigits(t);
      if s[0] < 0x40 {
        assert LogValue(t) == s[0];
      } else if s[0] < 0x80 {
        TwoBytes(s[0] % 64, s[1]);
        assert t[1..] == [s[1]];
      } else if s[0] < 0xc0 {
        SwappedLoad32(t);
      } else {
        SwappedLoad64(t);
      }
    }
  }

  lemma TwoBytes(a: nat, b: uint8)
    requires a < 0x40
    ensures FromBE([a] + [b]) == BitOr(a * 0x100, b) == a * 0x100 + b
  {
    Pow2Values();
    BitOrDisjoint(a, b, 8);
    var s: seq<uint8> := [a] + [b];
    assert s[..1] == [a] && [a][..0] == [];
    assert FromBE([a]) == a;
  }

  /** The message parser moves by the minimal size of the value it read: never past
      the encoding, and exactly to its end when the encoding is the packer's. */
  lemma ParserAdvance(s: seq<uint8>)
    requires QuicDecoded(s).Some?
    ensures LogFits(s)
    ensures var (value, consumed) := QuicDecoded(s).value;
            && DecodeLog(s) == value < TWO_62
            && LVISize(value) <= consumed
            && (LVISize(value) == consumed <==> s[..consumed] == QuicBytes(value))
  {
    DecodersAgree(s);
    MinimalAdvance(s);
    QuicBytesAreEncodeLog(DecodeLog(s));
  }

  method QuicVarIntDecode(bufferLength: uint16, buffer: seq<uint8>, offset: uint16)
    returns (ok: bool, newOffset: uint16, value: nat)
    requires bufferLength == |buffer| && offset <= bufferLength
    ensures ok <==> LogFits(buffer[offset..])
    ensures ok ==> value == DecodeLog(buffer[offset..]) && newOffset == offset + LogSize(buffer[offset])
    ensures !ok ==> newOffset == offset
  {
    ghost var s := buffer[offset..];
    DecodersAgree(s);
    newOffset := offset;
    value := 0;
    if bufferLength < 1 + offset {
      return false, newOffset, value;
    }
    if buffer[offset] < 0x40 {
      value := buffer[offset];
      newOffset := offset + 1;
    } else if buffer[offset] < 0x80 {
      if bufferLength < 2 + offset {
        return false, newOffset, value;
      }
      value := buffer[offset] % 0x40;
      value := BitOr(value * 0x100, buffer[offset + 1]);
      newOffset := offset + 2;
    } else if buffer[offset] < 0xc0 {
      if bufferLength < 4 + offset {
        return false, newOffset, value;
      }
      var v := FromLE(buffer[offset..offset + 4]);
      assert buffer[offset..offset + 4] == s[..4];
      SwappedLoad32(s[..4]);
      value := Rev32(v) % 0x4000_0000;
      newOffset := offset + 4;
    } else {
      if bufferLength < 8 + offset {
        return false, newOffset, value;
      }
      var v := FromLE(buffer[offset..offset + 8]);
      assert buffer[offset..offset + 8] == s[..8];
      SwappedLoad64(s[..8]);
      value := Rev64(v) % TWO_62;
      newOffset := offset + 8;
    }
    ok := true;
  }
}
