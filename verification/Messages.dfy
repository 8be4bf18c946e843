/** Message headers: a bit-packed stub byte that states the widths of two of the
    fields that follow it. */
module Messages {
  import opened Bytes
  import opened ByteSwap
  import opened VarInt

  type uint1 = x: nat | x < 2
  type uint2 = x: nat | x < 4

  datatype MessageStub = MessageStub(
    messageClass: uint1, controlType: uint2, messageNumberLength: uint2, chatIDLength: uint2, dataFlag: uint1)

  datatype Header =
    | Data(stub: MessageStub, chatID: uint32, sourceID: uint64, messageNumber: uint32)
    | Control(stub: MessageStub, version: uint32, chatID: uint32, sourceID: uint64, messageNumber: uint32)

  // ---------------------------------------------------------------- the stub byte

  /** The byte a little-endian compiler lays the bit fields out in: the first field in the lowest bit. */
  function StubMemory(stub: MessageStub): uint8
  {
    stub.messageClass
    + 2 * (stub.controlType + 4 * (stub.messageNumberLength + 4 * (stub.chatIDLength + 4 * stub.dataFlag)))
  }

  /** The stub byte on the wire: the first field in the highest bit. */
  function StubByte(stub: MessageStub): uint8
  {
    128 * stub.messageClass + 32 * stub.controlType + 8 * stub.messageNumberLength + 2 * stub.chatIDLength
    + stub.dataFlag
  }

  /** Takes the fields one by one from the low end of the memory byte and shifts them in. */
  method SerializeMessageStub(stub: MessageStub) returns (hold: uint8)
    ensures hold == StubByte(stub)
  {
    var stubByte: uint8 := StubMemory(stub);
    ghost var chat: nat := stub.chatIDLength + 4 * stub.dataFlag;
    ghost var number: nat := stub.messageNumberLength + 4 * chat;
    hold, stubByte := ShiftBitIn(0, stubByte, stub.messageClass, stub.controlType + 4 * number);
    hold, stubByte := ShiftIn(hold, stubByte, stub.controlType, number);
    hold, stubByte := ShiftIn(hold, stubByte, stub.messageNumberLength, chat);
    hold, stubByte := ShiftIn(hold, stubByte, stub.chatIDLength, stub.dataFlag);
    hold, stubByte := ShiftBitIn(hold, stubByte, stub.dataFlag, 0);
  }

  /** Moves the field in the low bit of stubByte to the low end of hold. */
  method ShiftBitIn(hold: uint8, stubByte: uint8, ghost field: nat, ghost rest: nat)
    returns (hold': uint8, stubByte': uint8)
    requires hold < 128 && field < 2 && stubByte == field + 2 * rest
    ensures hold' == hold * 2 + field && stubByte' == rest
  {
    hold' := hold * 2 % 0x100;
    hold' := hold' + stubByte % 2;
    stubByte' := stubByte / 2;
  }

  /** Moves the field in the two low bits of stubByte to the low end of hold. */
  method ShiftIn(hold: uint8, stubByte: uint8, ghost field: nat, ghost rest: nat)
    returns (hold': uint8, stubByte': uint8)
    requires hold < 64 && field < 4 && stubByte == field + 4 * rest
    ensures hold' == hold * 4 + field && stubByte' == rest
  {
    hold' := hold * 4 % 0x100;
    hold' := hold' + stubByte % 4;
    stubByte' := stubByte / 4;
  }

  function RebuildMessageStub(serialized: uint8): MessageStub
  {
    MessageStub(serialized / 128, serialized / 32 % 4, serialized / 8 % 4, serialized / 2 % 4, serialized % 2)
  }

  lemma StubRoundTrip(stub: MessageStub)
    ensures RebuildMessageStub(StubByte(stub)) == stub
  {
    var b: nat := StubByte(stub);
    var high: nat := 4 * stub.messageClass + stub.controlType;
    var middle: nat := 4 * high + stub.messageNumberLength;
    var low: nat := 4 * middle + stub.chatIDLength;
    QuotientUnique(b, 2, low, stub.dataFlag);
    QuotientUnique(low, 4, middle, stub.chatIDLength);
    QuotientUnique(b, 8, middle, 2 * stub.chatIDLength + stub.dataFlag);
    QuotientUnique(middle, 4, high, stub.messageNumberLength);
    QuotientUnique(b, 32, high, 8 * stub.messageNumberLength + 2 * stub.chatIDLength + stub.dataFlag);
    QuotientUnique(high, 4, stub.messageClass, stub.controlType);
    QuotientUnique(b, 128, stub.messageClass, b - 128 * stub.messageClass);
  }

  lemma StubByteRoundTrip(b: uint8)
    ensures StubByte(RebuildMessageStub(b)) == b
  {
    assert b / 2 / 4 == b / 8 && b / 8 / 4 == b / 32 && b / 32 / 4 == b / 128;
  }

  /** Where each field stands in the byte. */
  lemma StubFields(stub: MessageStub)
    ensures StubByte(stub) / 128 == stub.messageClass
    ensures StubByte(stub) / 32 == 4 * stub.messageClass + stub.controlType
    ensures StubByte(stub) / 8 % 4 == stub.messageNumberLength
    ensures StubByte(stub) / 2 % 4 == stub.chatIDLength
    ensures StubByte(stub) % 2 == stub.dataFlag
  {
    StubRoundTrip(stub);
    var b: nat := StubByte(stub);
    QuotientUnique(b, 32, 4 * stub.messageClass + stub.controlType,
                   8 * stub.messageNumberLength + 2 * stub.chatIDLength + stub.dataFlag);
  }

  // ---------------------------------------------------------------- layout and size

  function ChatIDSize(stub: MessageStub): nat { stub.chatIDLength + 1 }

  function MessageNumberSize(stub: MessageStub): nat { stub.messageNumberLength + 1 }

  /** The bytes of a header whose source ID can be packed. */
  function HeaderBytes(h: Header): (s: seq<uint8>)
  {
    Layout(StubByte(h.stub), VersionBytes(h), DirBytes(h.chatID, ChatIDSize(h.stub)), EncodeLog(h.sourceID),
           DirBytes(h.messageNumber, MessageNumberSize(h.stub)))
  }

  function VersionBytes(h: Header): seq<uint8>
  {
    if h.Control? then MemBE(h.version, 4) else []
  }

  function Layout(stubByte: uint8, version: seq<uint8>, chatID: seq<uint8>, sourceID: seq<uint8>, number: seq<uint8>)
    : seq<uint8>
  {
    [stubByte] + version + chatID + sourceID + number
  }

  /** Zero stands for a source ID that is too large. */
  function GetSerializedSizeOfDataMessageHeader(dmh: Header): nat
    requires dmh.Data?
  {
    if dmh.sourceID / TWO_62 != 0 then 0
    else 1 + (dmh.stub.chatIDLength + 1) + (dmh.stub.messageNumberLength + 1) + LVISize(dmh.sourceID)
  }

  function GetSerializedSizeOfControlMessageHeader(cmh: Header): nat
    requires cmh.Control?
  {
    if cmh.sourceID / TWO_62 != 0 then 0
    else 1 + 4 + (cmh.stub.chatIDLength + 1) + (cmh.stub.messageNumberLength + 1) + LVISize(cmh.sourceID)
  }

  lemma SizeIsBytesWritten(h: Header)
    ensures var size := if h.Data? then GetSerializedSizeOfDataMessageHeader(h)
                        else GetSerializedSizeOfControlMessageHeader(h);
            size == if h.sourceID < TWO_62 then |HeaderBytes(h)| else 0
  {
  }

  // ---------------------------------------------------------------- serializing

  /** The first len bytes of the packed v, held in a temporary of eight bytes. */
  method DirBytesOf(v: uint32, len: nat) returns (s: seq<uint8>)
    requires 1 <= len <= 4
    ensures s == DirBytes(v, len)
  {
    var convert := PackDirVarInt(LittleEndian, v);
    MemLEPrefix(convert, 8, len);
    MemLEPrefix(convert, 4, len);
    DirFront(v, len);
    s := MemLE(convert, 8)[..len];
  }

  /** No array stands for the null the source returns when the source ID is too large. */
  method SerializeDataMessageHeader(dmh: Header) returns (mySerial: array?<uint8>)
    requires dmh.Data?
    ensures mySerial == null <==> dmh.sourceID >= TWO_62
    ensures mySerial != null ==> fresh(mySerial) && mySerial[..] == HeaderBytes(dmh)
  {
    var mySize := GetSerializedSizeOfDataMessageHeader(dmh);
    if mySize == 0 {
      return null;
    }
    var sourceIDBytes := LogBytes(LittleEndian, dmh.sourceID);
    var chatIDBytes := DirBytesOf(dmh.chatID, dmh.stub.chatIDLength + 1);
    var msgNumBytes := DirBytesOf(dmh.messageNumber, dmh.stub.messageNumberLength + 1);
    var stubByte := SerializeMessageStub(dmh.stub);
    mySerial := CopyFields(mySize, stubByte, [], chatIDBytes, sourceIDBytes, msgNumBytes);
  }

  method SerializeControlMessageHeader(cmh: Header) returns (mySerial: array?<uint8>)
    requires cmh.Control?
    ensures mySerial == null <==> cmh.sourceID >= TWO_62
    ensures mySerial != null ==> fresh(mySerial) && mySerial[..] == HeaderBytes(cmh)
  {
    var mySize := GetSerializedSizeOfControlMessageHeader(cmh);
    if mySize == 0 {
      return null;
    }
    var sourceIDBytes := LogBytes(LittleEndian, cmh.sourceID);
    var chatIDBytes := DirBytesOf(cmh.chatID, cmh.stub.chatIDLength + 1);
    var msgNumBytes := DirBytesOf(cmh.messageNumber, cmh.stub.messageNumberLength + 1);
    var stubByte := SerializeMessageStub(cmh.stub);
    var versionBytes := SwappedVersion(cmh.version);
    mySerial := CopyFields(mySize, stubByte, versionBytes, chatIDBytes, sourceIDBytes, msgNumBytes);
  }

  /** Copies the fields one behind the other into a buffer of exactly their size. */
  method CopyFields(mySize: nat, stubByte: uint8, version: seq<uint8>, chatID: seq<uint8>, sourceID: seq<uint8>,
                    number: seq<uint8>)
    returns (serial: array<uint8>)
    requires mySize == 1 + |version| + |chatID| + |sourceID| + |number|
    ensures fresh(serial) && serial[..] == Layout(stubByte, version, chatID, sourceID, number)
  {
    serial := new uint8[mySize];
    var at := 1 + |version|;
    CopyInto(serial, 0, [stubByte]);
    CopyInto(serial, 1, version);
    CopyInto(serial, at, chatID);
    assert serial[..at + |chatID|] == [stubByte] + version + chatID;
    CopyInto(serial, at + |chatID|, sourceID);
    CopyInto(serial, at + |chatID| + |sourceID|, number);
    assert serial[..mySize] == serial[..];
  }

  /** The four bytes copied out of the byte-swapped version. */
  method SwappedVersion(version: uint32) returns (s: seq<uint8>)
    ensures s == MemBE(version, 4)
  {
    Rev32Image(version);
    MemLEPrefix(Rev32(version), 8, 4);
    s := MemLE(Rev32(version), 8)[..4];
  }

  // ---------------------------------------------------------------- rebuilding

  /** Where the fields behind the stub start: a control header has a version first. */
  function ChatIDAt(control: bool): nat
  {
    if control then 5 else 1
  }

  /** Every byte the rebuild functions read is inside s. The cursor moves past the
      source ID by the minimal size of its value. */
  predicate HeaderFits(s: seq<uint8>, control: bool)
  {
    && |s| > 0
    && var stub := RebuildMessageStub(s[0]);
       var at := ChatIDAt(control) + ChatIDSize(stub);
       && at <= |s|
       && LogFits(s[at..])
       && at + LVISize(DecodeLog(s[at..])) + MessageNumberSize(stub) <= |s|
  }

  function DecodeDir(s: seq<uint8>): uint32
  {
    FromBE(s) % 0x1_0000_0000
  }

  function RebuiltHeader(s: seq<uint8>, control: bool): Header
    requires HeaderFits(s, control)
  {
    var stub := RebuildMessageStub(s[0]);
    var chatAt := ChatIDAt(control);
    var sourceAt := chatAt + ChatIDSize(stub);
    var sourceID := DecodeLog(s[sourceAt..]);
    var numberAt := sourceAt + LVISize(sourceID);
    var chatID := DecodeDir(s[chatAt..sourceAt]);
    var messageNumber := DecodeDir(s[numberAt..numberAt + MessageNumberSize(stub)]);
    if control then Control(stub, DecodeDir(s[1..5]), chatID, sourceID, messageNumber)
    else Data(stub, chatID, sourceID, messageNumber)
  }

  method RebuildDataMessage(serialized: seq<uint8>) returns (dmh: Header)
    requires HeaderFits(serialized, false)
    ensures dmh == RebuiltHeader(serialized, false)
  {
    var loc := 0;
    var stub := RebuildMessageStub(serialized[loc]);
    loc := loc + 1;
    var chatID := UnpackDirVarInt(serialized, loc, stub.chatIDLength + 1);
    loc := loc + stub.chatIDLength + 1;
    var sourceID := UnpackLogVarInt(serialized, loc);
    var inc := LVISize(sourceID);
    loc := loc + inc;
    var messageNumber := UnpackDirVarInt(serialized, loc, stub.messageNumberLength + 1);
    dmh := Data(stub, chatID, sourceID, messageNumber);
  }

  method RebuildControlMessage(serialized: seq<uint8>) returns (cmh: Header)
    requires HeaderFits(serialized, true)
    ensures cmh == RebuiltHeader(serialized, true)
  {
    var loc := 0;
    var stub := RebuildMessageStub(serialized[loc]);
    loc := loc + 1;
    var version := UnpackFourBytes(serialized, loc);
    loc := loc + 4;
    var chatID := UnpackDirVarInt(serialized, loc, stub.chatIDLength + 1);
    loc := loc + stub.chatIDLength + 1;
    var sourceID := UnpackLogVarInt(serialized, loc);
    var inc := LVISize(sourceID);
    loc := loc + inc;
    var messageNumber := UnpackDirVarInt(serialized, loc, stub.messageNumberLength + 1);
    cmh := Control(stub, version, chatID, sourceID, messageNumber);
  }

  /** Four bytes shifted in one after the other. */
  method UnpackFourBytes(bytes: seq<uint8>, loc: nat) returns (x: uint32)
    requires loc + 4 <= |bytes|
    ensures x == FromBE(bytes[loc..loc + 4]) == DecodeDir(bytes[loc..loc + 4])
  {
    FourDigits(bytes[loc..loc + 4]);
    x := bytes[loc];
    x := ByteIn32(x, bytes[loc + 1]);
    x := ByteIn32(x, bytes[loc + 2]);
    x := ByteIn32(x, bytes[loc + 3]);
  }

  // ---------------------------------------------------------------- round trip

  lemma LayoutSlices(stubByte: uint8, version: seq<uint8>, chat: seq<uint8>, source: seq<uint8>,
                     number: seq<uint8>, tail: seq<uint8>, s: seq<uint8>)
    requires s == Layout(stubByte, version, chat, source, number) + tail
    ensures
      var chatAt, sourceAt := 1 + |version|, 1 + |version| + |chat|;
      var numberAt := sourceAt + |source|;
      && |s| == numberAt + |number| + |tail| && s[0] == stubByte
      && s[1..chatAt] == version && s[chatAt..sourceAt] == chat
      && s[sourceAt..] == source + (number + tail) && s[numberAt..numberAt + |number|] == number
  {
  }

  /** Where the pieces of a serialized header are found again. */
  lemma Pieces(s: seq<uint8>, control: bool, stub: MessageStub,
               version: seq<uint8>, chat: seq<uint8>, sourceID: uint64, number: seq<uint8>, tail: seq<uint8>)
    requires |version| == (if control then 4 else 0) && sourceID < TWO_62
    requires |chat| == ChatIDSize(stub) && |number| == MessageNumberSize(stub)
    requires s == Layout(StubByte(stub), version, chat, EncodeLog(sourceID), number) + tail
    ensures HeaderFits(s, control)
    ensures RebuiltHeader(s, control) ==
            if control then Control(stub, DecodeDir(version), DecodeDir(chat), sourceID, DecodeDir(number))
            else Data(stub, DecodeDir(chat), sourceID, DecodeDir(number))
  {
    StubRoundTrip(stub);
    LayoutSlices(StubByte(stub), version, chat, EncodeLog(sourceID), number, tail, s);
    LogRoundTrip(sourceID, number + tail);
  }

  /** The header with its two direct integers scaled to the lengths in its stub. */
  function ScaledHeader(h: Header): Header
  {
    h.(chatID := Rescaled(h.chatID, ChatIDSize(h.stub)),
       messageNumber := Rescaled(h.messageNumber, MessageNumberSize(h.stub)))
  }

  /** What a rebuilt header says, for any stub, whatever follows the header. */
  lemma HeaderRebuilt(h: Header, tail: seq<uint8>)
    requires h.sourceID < TWO_62
    ensures HeaderFits(HeaderBytes(h) + tail, h.Control?)
    ensures RebuiltHeader(HeaderBytes(h) + tail, h.Control?) == ScaledHeader(h)
  {
    var chat, number := DirBytes(h.chatID, ChatIDSize(h.stub)), DirBytes(h.messageNumber, MessageNumberSize(h.stub));
    DecodedDir(h.chatID, ChatIDSize(h.stub));
    DecodedDir(h.messageNumber, MessageNumberSize(h.stub));
    DecodedVersion(h);
    Pieces(HeaderBytes(h) + tail, h.Control?, h.stub, VersionBytes(h), chat, h.sourceID, number, tail);
  }

  lemma DecodedVersion(h: Header)
    ensures h.Control? ==> DecodeDir(VersionBytes(h)) == h.version
  {
    if h.Control? {
      Pow256Values();
      FromMemBE(h.version, 4);
    }
  }

  lemma DecodedDir(v: uint32, len: nat)
    requires 1 <= len <= 4
    ensures DecodeDir(DirBytes(v, len)) == Rescaled(v, len)
  {
    DirBytesRead(v, len);
  }

  /** The stated length carries the value: the value is zero or the length is its own size. */
  predicate FieldFits(v: uint32, len: nat)
  {
    v == 0 || DVISize(v) == len
  }

  predicate HeaderFaithful(h: Header)
  {
    FieldFits(h.chatID, ChatIDSize(h.stub)) && FieldFits(h.messageNumber, MessageNumberSize(h.stub))
  }

  lemma HeaderRoundTripIff(h: Header, tail: seq<uint8>)
    requires h.sourceID < TWO_62
    ensures HeaderFits(HeaderBytes(h) + tail, h.Control?)
    ensures RebuiltHeader(HeaderBytes(h) + tail, h.Control?) == h <==> HeaderFaithful(h)
  {
    HeaderRebuilt(h, tail);
    RescaledSame(h.chatID, ChatIDSize(h.stub));
    RescaledSame(h.messageNumber, MessageNumberSize(h.stub));
  }

  // ---------------------------------------------------------------- construction

  function ConstructDataMessageHeader(chatID: uint32, sourceID: uint64, messageNumber: uint32): Header
  {
    Data(MessageStub(0, 0, DVISize(messageNumber) - 1, DVISize(chatID) - 1, 0), chatID, sourceID, messageNumber)
  }

  type int8 = x: int | -0x80 <= x < 0x80

  /** The mask with 3 keeps the two low bits of a signed char: its Euclidean remainder by 4. */
  function ConstructControlMessageHeader(
      controlType: int8, version: uint32, chatID: uint32, sourceID: uint64, messageNumber: uint32, hasData: int8)
    : Header
  {
    Control(MessageStub(1, controlType % 4, DVISize(messageNumber) - 1, DVISize(chatID) - 1,
                        if hasData != 0 then 1 else 0),
            version, chatID, sourceID, messageNumber)
  }

  predicate Constructed(h: Header)
  {
    && h.stub.chatIDLength == DVISize(h.chatID) - 1
    && h.stub.messageNumberLength == DVISize(h.messageNumber) - 1
    && h.stub.messageClass == (if h.Control? then 1 else 0)
    && (h.Data? ==> h.stub.controlType == 0 && h.stub.dataFlag == 0)
  }

  /** The headers the two construct functions build are those whose stub fits, and they are faithful. */
  lemma ConstructedHeaders(h: Header)
    ensures Constructed(h) <==>
            || h == ConstructDataMessageHeader(h.chatID, h.sourceID, h.messageNumber)
            || (h.Control? && exists c: int8, d: int8 ::
                  h == ConstructControlMessageHeader(c, h.version, h.chatID, h.sourceID, h.messageNumber, d))
    ensures Constructed(h) ==> HeaderFaithful(h) && (h.Control? <==> StubByte(h.stub) / 128 == 1)
  {
    if Constructed(h) && h.Control? {
      assert h == ConstructControlMessageHeader(
                    h.stub.controlType, h.version, h.chatID, h.sourceID, h.messageNumber, h.stub.dataFlag);
    }
  }

  /** What the arguments of a control message become: its first three bits, by which the kernel
      tells messages apart, its data flag and its two lengths. */
  lemma ConstructedControl(t: int8, version: uint32, chatID: uint32, sourceID: uint64, messageNumber: uint32, d: int8)
    ensures
      var h := ConstructControlMessageHeader(t, version, chatID, sourceID, messageNumber, d);
      var b := StubByte(h.stub);
      && h == Control(h.stub, version, chatID, sourceID, messageNumber)
      && (b % 2 == 1 <==> d != 0)
      && (0 <= t < 4 ==> b / 32 == 4 + t)
      && b / 128 == 1 && (b / 32 - t) % 4 == 0
      && b / 8 % 4 == DVISize(messageNumber) - 1 && b / 2 % 4 == DVISize(chatID) - 1
  {
    StubFields(ConstructControlMessageHeader(t, version, chatID, sourceID, messageNumber, d).stub);
  }

  lemma ConstructedData(chatID: uint32, sourceID: uint64, messageNumber: uint32)
    ensures
      var h := ConstructDataMessageHeader(chatID, sourceID, messageNumber);
      var b := StubByte(h.stub);
      && h == Data(h.stub, chatID, sourceID, messageNumber)
      && b / 32 == 0 && b % 2 == 0
      && b / 8 % 4 == DVISize(messageNumber) - 1 && b / 2 % 4 == DVISize(chatID) - 1
  {
    StubFields(ConstructDataMessageHeader(chatID, sourceID, messageNumber).stub);
  }

  // ---------------------------------------------------------------- a source ID that is not minimal

  /** As many bytes as number has, from the end of the minimal size of the source ID on. */
  function BehindMinimal(source: seq<uint8>, number: seq<uint8>): (r: seq<uint8>)
    requires LogFits(source) && |source| == LogSize(source[0])
    ensures |r| == |number|
  {
    MinimalAdvance(source);
    var n := LVISize(DecodeLog(source));
    (source + number)[n..n + |number|]
  }

  /** A source ID whose bytes are longer than minimal is read whole, but the cursor moves past it
      by the minimal size only: the message number is read too early. */
  lemma NumberReadEarly(s: seq<uint8>, stub: MessageStub, version: seq<uint8>, chat: seq<uint8>, source: seq<uint8>,
                        number: seq<uint8>, tail: seq<uint8>)
    requires |version| in {0, 4} && |chat| == ChatIDSize(stub) && |number| == MessageNumberSize(stub)
    requires LogFits(source) && |source| == LogSize(source[0])
    requires s == Layout(StubByte(stub), version, chat, source, number) + tail
    ensures HeaderFits(s, |version| == 4)
    ensures
      var h := RebuiltHeader(s, |version| == 4);
      && h.stub == stub && h.chatID == DecodeDir(chat) && h.sourceID == DecodeLog(source)
      && h.messageNumber == DecodeDir(BehindMinimal(source, number))
  {
    var v, early, at := DecodeLog(source), BehindMinimal(source, number), 1 + |version| + |chat|;
    var numberAt := at + LVISize(v);
    StubRoundTrip(stub);
    MinimalAdvance(source);
    EarlyPieces(s, StubByte(stub), version, chat, source, number, tail, LVISize(v), early);
    FrontLog(source, number + tail, s[at..]);
    RebuiltAt(s, |version| == 4, stub, 1 + |version|, at, numberAt, numberAt + |number|, chat, v, early);
  }

  lemma RebuiltAt(s: seq<uint8>, control: bool, stub: MessageStub, chatAt: nat, at: nat, numberAt: nat, end: nat,
                  chat: seq<uint8>, v: uint64, early: seq<uint8>)
    requires chatAt == ChatIDAt(control) && at == chatAt + ChatIDSize(stub) && numberAt == at + LVISize(v)
    requires end == numberAt + MessageNumberSize(stub) <= |s| && RebuildMessageStub(s[0]) == stub
    requires s[chatAt..at] == chat && s[numberAt..end] == early
    requires LogFits(s[at..]) && DecodeLog(s[at..]) == v
    ensures HeaderFits(s, control)
    ensures
      var h := RebuiltHeader(s, control);
      h.stub == stub && h.chatID == DecodeDir(chat) && h.sourceID == v && h.messageNumber == DecodeDir(early)
  {
  }

  lemma FrontLog(source: seq<uint8>, rest: seq<uint8>, s: seq<uint8>)
    requires LogFits(source) && |source| == LogSize(source[0]) && s == source + rest
    ensures LogFits(s) && DecodeLog(s) == DecodeLog(source)
  {
    assert s[..|source|] == source == source[..|source|];
  }

  lemma EarlyPieces(s: seq<uint8>, b: uint8, version: seq<uint8>, chat: seq<uint8>, source: seq<uint8>,
                    number: seq<uint8>, tail: seq<uint8>, n: nat, early: seq<uint8>)
    requires s == Layout(b, version, chat, source, number) + tail && n <= |source|
    requires early == (source + number)[n..n + |number|]
    ensures
      var at := 1 + |version| + |chat|;
      && at + n + |number| <= |s| && s[0] == b && s[1 + |version|..at] == chat
      && s[at..] == source + (number + tail) && s[at + n..at + n + |number|] == early
  {
    LayoutSlices(b, version, chat, source, number, tail, s);
  }
}
