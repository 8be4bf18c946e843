/** Byte reversal, and why the serialized bytes do not depend on the host's byte order. */
module ByteSwap {
  import opened Bytes

  datatype ByteOrder = LittleEndian | BigEndian

  /** What the k bytes of x look like in the memory of a host. */
  function Image(order: ByteOrder, x: nat, k: nat): seq<uint8>
  {
    match order
    case LittleEndian => MemLE(x, k)
    case BigEndian => MemBE(x, k)
  }

  /** A word put together from two halves below b; shifting the high half up drops no bit. */
  function Join(high: nat, low: nat, b: nat): nat
  {
    high * b + low
  }

  lemma JoinParts(high: nat, low: nat, b: nat)
    requires low < b && high < b
    ensures Join(high, low, b) / b == high && Join(high, low, b) % b == low && Join(high, low, b) < b * b
  {
    QuotientUnique(high * b + low, b, high, low);
    JoinBelow(high, low, b);
  }

  lemma JoinBelow(high: nat, low: nat, b: nat)
    requires low < b && high < b
    ensures high * b + low < b * b
  {
    MulMonotone(high + 1, b, b);
    MulDistributes(high, 1, b);
  }

  function Rev16(orig: uint16): uint16
  {
    var hold1 := orig / 0x100;
    var hold2 := orig % 0x100;
    Join(hold2, hold1, 0x100)
  }

  function Rev32(orig: uint32): uint32
  {
    var hold1 := orig / 0x1_0000;
    var hold2 := orig % 0x1_0000;
    Join(Rev16(hold2), Rev16(hold1), 0x1_0000)
  }

  function Rev64(orig: uint64): uint64
  {
    var hold1 := orig / 0x1_0000_0000;
    var hold2 := orig % 0x1_0000_0000;
    Join(Rev32(hold2), Rev32(hold1), 0x1_0000_0000)
  }

  lemma Rev16Involution(x: uint16)
    ensures Rev16(Rev16(x)) == x
  {
    JoinParts(x % 0x100, x / 0x100, 0x100);
  }

  lemma Rev32Involution(x: uint32)
    ensures Rev32(Rev32(x)) == x
  {
    var hi, lo := x / 0x1_0000, x % 0x1_0000;
    Rev16Involution(hi);
    Rev16Involution(lo);
    JoinParts(Rev16(lo), Rev16(hi), 0x1_0000);
  }

  lemma Rev64Involution(x: uint64)
    ensures Rev64(Rev64(x)) == x
  {
    var hi, lo := x / 0x1_0000_0000, x % 0x1_0000_0000;
    Rev32Involution(hi);
    Rev32Involution(lo);
    JoinParts(Rev32(lo), Rev32(hi), 0x1_0000_0000);
  }

  lemma Rev16Image(x: uint16)
    ensures MemLE(Rev16(x), 2) == MemBE(x, 2)
  {
    var hi, lo := x / 0x100, x % 0x100;
    JoinParts(lo, hi, 0x100);
    var y := Rev16(x);
    assert y % 256 == hi && y / 256 == lo;
    assert MemLE(y, 2) == [hi] + MemLE(lo, 1) == [hi, lo];
    assert MemBE(x, 2) == MemBE(hi, 1) + [lo] == [hi, lo];
  }

  /** Swapping the halves of 2n bytes, each half already reversed. */
  lemma HalvesImage(hi: nat, lo: nat, revHi: nat, revLo: nat, n: nat)
    requires lo < Pow256(n) && revHi < Pow256(n)
    requires MemLE(revHi, n) == MemBE(hi, n) && MemLE(revLo, n) == MemBE(lo, n)
    ensures MemLE(Join(revLo, revHi, Pow256(n)), n + n) == MemBE(Join(hi, lo, Pow256(n)), n + n)
  {
    MemLEConcat(revLo, revHi, n, n);
    MemBEConcat(hi, lo, n, n);
  }

  lemma Rev32Image(x: uint32)
    ensures MemLE(Rev32(x), 4) == MemBE(x, 4)
  {
    var hi, lo := x / 0x1_0000, x % 0x1_0000;
    Rev16Image(hi);
    Rev16Image(lo);
    Pow256Values();
    HalvesImage(hi, lo, Rev16(hi), Rev16(lo), 2);
  }

  lemma Rev64Image(x: uint64)
    ensures MemLE(Rev64(x), 8) == MemBE(x, 8)
  {
    var hi, lo := x / 0x1_0000_0000, x % 0x1_0000_0000;
    Rev32Image(hi);
    Rev32Image(lo);
    Pow256Values();
    HalvesImage(hi, lo, Rev32(hi), Rev32(lo), 4);
  }

  /** What the packers do last: reverse the bytes on a little-endian host only. */
  function ToWire64(order: ByteOrder, x: uint64): uint64
  {
    if order.LittleEndian? then Rev64(x) else x
  }

  function ToWire32(order: ByteOrder, x: uint32): uint32
  {
    if order.LittleEndian? then Rev32(x) else x
  }

  /** Whatever the host, memory then holds the bytes of x most significant first. */
  lemma EndiannessIndependence(order: ByteOrder, x: uint64, y: uint32)
    ensures Image(order, ToWire64(order, x), 8) == MemBE(x, 8)
    ensures Image(order, ToWire32(order, y), 4) == MemBE(y, 4)
  {
    Rev64Image(x);
    Rev32Image(y);
  }

  /** The byte-order probe, which looks at the first byte of the int 1 once and then remembers. */
  class EndianProbe {
    const order: ByteOrder
    var litend: int

    ghost predicate Valid()
      reads this
    {
      litend == -1 || litend == if order.LittleEndian? then 1 else 0
    }

    constructor (order: ByteOrder)
      ensures Valid() && this.order == order && litend == -1
    {
      this.order := order;
      litend := -1;
    }

    method IsLittleEndian() returns (r: int)
      requires Valid()
      modifies this
      ensures Valid() && litend == r
      ensures r != 0 <==> order.LittleEndian?
    {
      if litend < 0 {
        var tst := Image(order, 1, 4);
        assert MemBE(1, 4)[0] == 0 by {
          Pow256Values();
          MemBEConcat(0, 1, 1, 3);
        }
        litend := tst[0];
      }
      r := litend;
    }
  }
}
