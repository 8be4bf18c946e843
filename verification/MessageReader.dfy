/** Whole messages: a serialized header followed by serialized frames. */
module MessageReader {
  import opened Bytes
  import opened VarInt
  import opened Messages
  import opened Frames
  import opened FrameLists

  datatype Message = Message(msghead: Header, msgframes: seq<Frame>)

  /** The buffer the reallocation asks for exists: it is smaller than 2^63 bytes. */
  predicate Allocatable(headLen: nat, fs: seq<Frame>)
    requires AllWellFormed(fs)
  {
    headLen + |ListBytes(fs)| < 0x8000_0000_0000_0000
  }

  /** The first pass: the header length and the sizes of all frames. */
  method TotalLength(headLen: nat, allFrames: seq<Frame>) returns (curlen: nat)
    requires AllWellFormed(allFrames)
    ensures curlen == headLen + |ListBytes(allFrames)|
  {
    ghost var parts := Parts(allFrames);
    curlen := headLen;
    for i := 0 to |allFrames|
      invariant curlen == headLen + |Flatten(parts[..i])|
    {
      FlattenSlice(parts, i);
      PartsAt(allFrames, i);
      var size := GetSerializedSizeOfFrame(allFrames[i]);
      curlen := curlen + size;
    }
    assert parts[..|allFrames|] == parts;
  }

  /** The second pass: each frame is written at a moving place, in its own slice. */
  method WriteFrames(mySerial: array<uint8>, headLen: nat, allFrames: seq<Frame>) returns (ppoint: nat)
    requires AllWellFormed(allFrames) && headLen + |ListBytes(allFrames)| == mySerial.Length
    modifies mySerial
    ensures ppoint == mySerial.Length
    ensures mySerial[..] == old(mySerial[..headLen]) + ListBytes(allFrames)
  {
    ghost var parts := Parts(allFrames);
    ghost var head := mySerial[..headLen];
    ghost var done := [];
    ppoint := headLen;
    for i := 0 to |allFrames|
      invariant done == Flatten(parts[..i])
      invariant ppoint == headLen + |done| <= mySerial.Length
      invariant mySerial[..ppoint] == head + done
    {
      FlattenSlice(parts, i);
      FlattenPrefix(parts, i + 1);
      PartsAt(allFrames, i);
      ghost var bytes := parts[i];
      ConcatAssociative(head, done, bytes);
      ppoint := SerializeFrameInto(allFrames[i], mySerial, ppoint);
      done := done + bytes;
    }
    assert parts[..|allFrames|] == parts;
    assert mySerial[..ppoint] == mySerial[..];
  }

  /** One pass adds up the sizes, a second one writes into the reallocated buffer; the
      place it ends at is exactly the end of the buffer, and the header is unchanged. */
  method PackMessage(header: array<uint8>, allFrames: seq<Frame>, headLen: nat, frameCount: nat)
    returns (mySerial: array<uint8>)
    requires headLen == header.Length && frameCount == |allFrames| && AllWellFormed(allFrames)
    requires Allocatable(headLen, allFrames)
    ensures fresh(mySerial) && mySerial[..] == header[..] + ListBytes(allFrames)
  {
    var curlen := TotalLength(headLen, allFrames);
    mySerial := new uint8[curlen];
    CopyInto(mySerial, 0, header[..]);
    assert mySerial[..headLen] == header[..];
    var ppoint := WriteFrames(mySerial, headLen, allFrames);
  }

  /** A byte stream whose first bit tells a control header from a data header. */
  function Unpacked(s: seq<uint8>): Option<Message>
  {
    if |s| == 0 || !HeaderFits(s, s[0] / 128 != 0) then None
    else
      var h := RebuiltHeader(s, s[0] / 128 != 0);
      match Extract(s[HeaderEnd(s)..])
      case None => None
      case Some(fs) => Some(Message(h, fs))
  }

  /** Where the frames start. */
  function HeaderEnd(s: seq<uint8>): (n: nat)
    requires |s| > 0 && HeaderFits(s, s[0] / 128 != 0)
    ensures n <= |s|
  {
    var h := RebuiltHeader(s, s[0] / 128 != 0);
    ChatIDAt(h.Control?) + ChatIDSize(h.stub) + LVISize(h.sourceID) + MessageNumberSize(h.stub)
  }

  /** Every read is inside the stream when the message can be unpacked at all. */
  method UnpackMessage(byteStream: seq<uint8>, byteCount: nat) returns (newMsg: Message)
    requires byteCount == |byteStream| && Unpacked(byteStream).Some?
    ensures Unpacked(byteStream) == Some(newMsg)
  {
    var curLoc := 0;
    var head: Header;
    if byteStream[0] / 128 != 0 {
      head := RebuildControlMessage(byteStream);
      curLoc := 1 + 4 + (head.stub.chatIDLength + 1) + LVISize(head.sourceID) + (head.stub.messageNumberLength + 1);
    } else {
      head := RebuildDataMessage(byteStream);
      curLoc := 1 + (head.stub.chatIDLength + 1) + LVISize(head.sourceID) + (head.stub.messageNumberLength + 1);
    }
    assert head == RebuiltHeader(byteStream, byteStream[0] / 128 != 0) && curLoc == HeaderEnd(byteStream);
    var frames, iterations := ExtractFrames(byteCount - curLoc, byteStream[curLoc..]);
    newMsg := Message(head, frames);
  }

  // ---------------------------------------------------------------- whole messages

  /** The stub says truthfully whether a version follows. */
  predicate ClassConsistent(h: Header)
  {
    h.stub.messageClass == if h.Control? then 1 else 0
  }

  lemma UnpackedParts(h: Header, fs: seq<Frame>)
    requires h.sourceID < TWO_62 && ClassConsistent(h) && AllWellFormed(fs)
    ensures var s := HeaderBytes(h) + ListBytes(fs);
            Unpacked(s) == match Extract(ListBytes(fs))
                           case None => None
                           case Some(gs) => Some(Message(ScaledHeader(h), gs))
  {
    var s := HeaderBytes(h) + ListBytes(fs);
    HeaderRebuilt(h, ListBytes(fs));
    assert s[0] == StubByte(h.stub);
    assert s[0] / 128 == h.stub.messageClass;
    SizeIsBytesWritten(h);
    assert s[HeaderEnd(s)..] == ListBytes(fs);
  }

  /** A message comes back, header and frames in order, exactly when the stub states the
      widths of its two direct integers and the frame list is one the parser recovers. */
  lemma MessageExact(h: Header, fs: seq<Frame>)
    requires h.sourceID < TWO_62 && ClassConsistent(h) && AllPackable(fs)
    ensures Unpacked(HeaderBytes(h) + ListBytes(fs)) == Some(Message(h, NormalList(fs)))
            <==> HeaderFaithful(h) && ListFaithful(fs)
  {
    UnpackedParts(h, fs);
    HeaderRoundTripIff(h, ListBytes(fs));
    HeaderRebuilt(h, ListBytes(fs));
    FrameListExact(fs);
  }

  /** The sequence of calls in MessagePackTest.c, for every constructed header and every list
      that is empty or has at least three bytes and whose only 0x02 frame is the last: packing
      and unpacking give header and frames back. */
  method PackThenUnpack(h: Header, fs: seq<Frame>) returns (newMsg: Message)
    requires Constructed(h) && h.sourceID < TWO_62
    requires AllPackable(fs) && Allocatable(|HeaderBytes(h)|, fs)
    requires fs == [] || |ListBytes(fs)| >= 3
    requires forall i :: 0 <= i < |fs| - 1 ==> !Terminated(fs[i])
    ensures newMsg == Message(h, NormalList(fs))
  {
    var head: array?<uint8>;
    if h.Data? {
      head := SerializeDataMessageHeader(h);
    } else {
      head := SerializeControlMessageHeader(h);
    }
    var mySerial := PackMessage(head, fs, head.Length, |fs|);
    ConstructedHeaders(h);
    FrameListInversion(fs);
    FrameListExact(fs);
    MessageExact(h, fs);
    newMsg := UnpackMessage(mySerial[..], mySerial.Length);
  }

  /** Behind a header whose source ID is longer than minimal the frames are read too early, by as
      many bytes as the source ID has too many. */
  lemma FramesReadEarly(s: seq<uint8>, stub: MessageStub, version: seq<uint8>, chat: seq<uint8>, source: seq<uint8>,
                        number: seq<uint8>, tail: seq<uint8>)
    requires |version| == (if stub.messageClass == 1 then 4 else 0)
    requires |chat| == ChatIDSize(stub) && |number| == MessageNumberSize(stub)
    requires LogFits(source) && |source| == LogSize(source[0])
    requires s == Layout(StubByte(stub), version, chat, source, number) + tail
    ensures |s| > 0 && HeaderFits(s, s[0] / 128 != 0)
    ensures HeaderEnd(s) == |s| - |tail| - (|source| - LVISize(DecodeLog(source)))
    ensures Unpacked(s).Some? <==> Extract(s[HeaderEnd(s)..]).Some?
    ensures Unpacked(s).Some? ==>
              && Extract(s[HeaderEnd(s)..]) == Some(Unpacked(s).value.msgframes)
              && Unpacked(s).value.msghead.messageNumber == DecodeDir(BehindMinimal(source, number))
  {
    StubFields(stub);
    assert s[0] == StubByte(stub);
    NumberReadEarly(s, stub, version, chat, source, number, tail);
    LayoutLength(s, StubByte(stub), version, chat, source, number, tail);
  }

  lemma LayoutLength(s: seq<uint8>, b: uint8, version: seq<uint8>, chat: seq<uint8>, source: seq<uint8>,
                     number: seq<uint8>, tail: seq<uint8>)
    requires s == Layout(b, version, chat, source, number) + tail
    ensures |s| == 1 + |version| + |chat| + |source| + |number| + |tail|
  {
  }
}
