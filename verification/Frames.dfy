/** Frames of types 0x00 (transit metadata), 0x02 and 0x03 (plaintext): their
    serialized form, the serializers, and the parser with its stop rule. */
module Frames {
  import opened Bytes
  import opened ByteSwap
  import opened VarInt

  /** A transit metadata frame has type 0x00. txtdta is the memory behind the fixed
      part of a plaintext frame: at least length bytes for type 0x03, and for type
      0x02, whose length field is ignored, at least up to a terminating zero. */
  datatype Frame =
    | TMD(postTransitID: uint32, totalMessageCount: uint64, specificMessageCount: uint64)
    | PTF(ty: uint64, length: uint64, txtdta: seq<uint8>)

  function TypeOf(f: Frame): uint64
  {
    if f.TMD? then 0 else f.ty
  }

  /** The memory the serializers read is there; no object has 2^63 bytes. */
  predicate WellFormed(f: Frame)
  {
    f.PTF? ==>
      && |f.txtdta| < 0x8000_0000_0000_0000
      && (f.ty == 2 || f.ty == 3)
      && (f.ty == 2 ==> 0 in f.txtdta)
      && (f.ty == 3 ==> f.length <= |f.txtdta|)
  }

  predicate Terminated(f: Frame)
  {
    f.PTF? && f.ty == 2
  }

  // ---------------------------------------------------------------- text

  /** The place of the first zero byte. */
  function Terminator(s: seq<uint8>): (n: nat)
    requires 0 in s
    ensures n < |s| && s[n] == 0
    ensures forall i :: 0 <= i < n ==> s[i] != 0
  {
    if s[0] == 0 then 0 else 1 + Terminator(s[1..])
  }

  method CountUntilTerminator(bytes: seq<uint8>, start: nat) returns (counter: nat)
    requires start <= |bytes| && 0 in bytes[start..]
    ensures counter == Terminator(bytes[start..])
  {
    ghost var s := bytes[start..];
    ghost var n := Terminator(s);
    counter := 0;
    var pointer := start;
    while bytes[pointer] != 0
      invariant pointer == start + counter && counter <= n
      decreases n - counter
    {
      assert bytes[pointer] == s[counter];
      counter := counter + 1;
      pointer := pointer + 1;
    }
    assert bytes[pointer] == s[counter];
  }

  function TextLength(f: Frame): (n: nat)
    requires f.PTF? && WellFormed(f)
    ensures n <= |f.txtdta|
  {
    if f.ty == 2 then Terminator(f.txtdta) else f.length
  }

  // ---------------------------------------------------------------- serialized form

  function FrameBytes(f: Frame): seq<uint8>
    requires WellFormed(f)
  {
    match f
    case TMD(id, total, specific) => EncodeLog(0) + MemBE(id, 4) + EncodeLog(total) + EncodeLog(specific)
    case PTF(ty, length, txtdta) =>
      if ty == 2 then EncodeLog(2) + txtdta[..TextLength(f) + 1]
      else EncodeLog(3) + EncodeLog(length) + txtdta[..length]
  }

  method GetSerializedSizeOfTMD(frame: Frame) returns (mySize: nat)
    requires frame.TMD?
    ensures mySize == |FrameBytes(frame)|
  {
    mySize := 1;
    mySize := mySize + 4;
    mySize := mySize + LVISize(frame.totalMessageCount);
    mySize := mySize + LVISize(frame.specificMessageCount);
  }

  method GetSerializedSizeOfPTF(frame: Frame) returns (mySize: nat)
    requires frame.PTF? && WellFormed(frame)
    ensures mySize == |FrameBytes(frame)| < TWO_64
  {
    if frame.ty % 2 == 1 {
      return frame.length + LVISize(frame.length) + 1;
    }
    var totalBytesCounted := 1;
    var counter := 0;
    ghost var n := Terminator(frame.txtdta);
    while frame.txtdta[counter] != 0
      invariant totalBytesCounted == counter + 1 && counter <= n
      decreases n - counter
    {
      counter := counter + 1;
      totalBytesCounted := totalBytesCounted + 1;
    }
    return 1 + totalBytesCounted;
  }

  method GetSerializedSizeOfFrame(frame: Frame) returns (mySize: nat)
    requires WellFormed(frame)
    ensures mySize == |FrameBytes(frame)|
  {
    if TypeOf(frame) == 0 {
      mySize := GetSerializedSizeOfTMD(frame);
    } else {
      mySize := GetSerializedSizeOfPTF(frame);
    }
  }

  /** Writes the frame at loc and returns the place behind it. Only its own slice changes. */
  method SerializeTMDInto(frame: Frame, buf: array<uint8>, loc: nat) returns (next: nat)
    requires frame.TMD? && loc + |FrameBytes(frame)| <= buf.Length
    modifies buf
    ensures next == loc + |FrameBytes(frame)|
    ensures buf[..next] == old(buf[..loc]) + FrameBytes(frame)
    ensures buf[next..] == old(buf[next..])
  {
    var packedType := LogBytes(LittleEndian, 0);
    var packedTMsg := LogBytes(LittleEndian, frame.totalMessageCount);
    var packedSMsg := LogBytes(LittleEndian, frame.specificMessageCount);
    Rev32Image(frame.postTransitID);
    var packedTrID := MemLE(Rev32(frame.postTransitID), 4);
    next := CopyPieces(buf, loc, packedType, packedTrID, packedTMsg, packedSMsg);
  }

  method SerializePTFInto(frame: Frame, buf: array<uint8>, loc: nat) returns (next: nat)
    requires frame.PTF? && WellFormed(frame) && loc + |FrameBytes(frame)| <= buf.Length
    modifies buf
    ensures next == loc + |FrameBytes(frame)|
    ensures buf[..next] == old(buf[..loc]) + FrameBytes(frame)
    ensures buf[next..] == old(buf[next..])
  {
    var packedType := LogBytes(LittleEndian, frame.ty);
    var packedLen := [];
    if frame.ty % 2 == 1 {
      packedLen := LogBytes(LittleEndian, frame.length);
    }
    var size := GetSerializedSizeOfPTF(frame);
    var textSize := size - 1 - |packedLen|;
    PTFPieces(frame, packedType, packedLen);
    next := CopyPieces(buf, loc, packedType, packedLen, frame.txtdta[..textSize], []);
  }

  lemma PTFPieces(frame: Frame, ty: seq<uint8>, length: seq<uint8>)
    requires frame.PTF? && WellFormed(frame)
    requires ty == EncodeLog(frame.ty) && length == if frame.ty == 3 then EncodeLog(frame.length) else []
    ensures var textSize := |FrameBytes(frame)| - 1 - |length|;
            0 <= textSize <= |frame.txtdta| && ty + length + frame.txtdta[..textSize] + [] == FrameBytes(frame)
  {
  }

  /** Copies four pieces one behind the other. */
  method CopyPieces(buf: array<uint8>, loc: nat, a: seq<uint8>, b: seq<uint8>, c: seq<uint8>, d: seq<uint8>)
    returns (next: nat)
    requires loc + |a| + |b| + |c| + |d| <= buf.Length
    modifies buf
    ensures next == loc + |a + b + c + d|
    ensures buf[..next] == old(buf[..loc]) + (a + b + c + d)
    ensures buf[next..] == old(buf[next..])
  {
    var middle := CopyTwo(buf, loc, a, b);
    ghost var half := buf[..middle];
    next := CopyTwo(buf, middle, c, d);
    assert old(buf[next..]) == old(buf[middle..])[|c + d|..];
    assert half + (c + d) == old(buf[..loc]) + (a + b + c + d);
  }

  method CopyTwo(buf: array<uint8>, loc: nat, a: seq<uint8>, b: seq<uint8>) returns (next: nat)
    requires loc + |a| + |b| <= buf.Length
    modifies buf
    ensures next == loc + |a + b|
    ensures buf[..next] == old(buf[..loc]) + (a + b)
    ensures buf[next..] == old(buf[next..])
  {
    next := loc + |a| + |b|;
    CopyInto(buf, loc, a);
    assert buf[next..] == buf[loc + |a|..][|b|..];
    CopyInto(buf, loc + |a|, b);
  }

  method SerializeFrameInto(frame: Frame, buf: array<uint8>, loc: nat) returns (next: nat)
    requires WellFormed(frame) && loc + |FrameBytes(frame)| <= buf.Length
    modifies buf
    ensures next == loc + |FrameBytes(frame)|
    ensures buf[..next] == old(buf[..loc]) + FrameBytes(frame)
    ensures buf[next..] == old(buf[next..])
  {
    if TypeOf(frame) == 0 {
      next := SerializeTMDInto(frame, buf, loc);
    } else {
      next := SerializePTFInto(frame, buf, loc);
    }
  }

  // ---------------------------------------------------------------- parsing one frame

  /** The frame at the front of s and the bytes up to its end, or nothing when a byte
      outside s would be read. */
  function ParseTMD(s: seq<uint8>): (r: Option<(Frame, nat)>)
    requires LogFits(s) && DecodeLog(s) == 0
    ensures r.Some? ==> 1 <= r.value.1 <= |s|
  {
    if |s| < 5 || !LogFits(s[5..]) then None
    else
      MinimalAdvance(s[5..]);
      var total := DecodeLog(s[5..]);
      var at := 5 + LVISize(total);
      if !LogFits(s[at..]) then None
      else
        MinimalAdvance(s[at..]);
        var specific := DecodeLog(s[at..]);
        Some((TMD(FromFour(s[1..5]), total, specific), at + LVISize(specific)))
  }

  function FromFour(s: seq<uint8>): uint32
    requires |s| == 4
  {
    FromBEBound(s);
    Pow256Values();
    FromBE(s)
  }

  function ParsePTF(s: seq<uint8>): (r: Option<(Frame, nat)>)
    requires LogFits(s) && (DecodeLog(s) == 2 || DecodeLog(s) == 3)
    ensures r.Some? ==> 1 <= r.value.1 <= |s|
  {
    if DecodeLog(s) == 3 then
      if !LogFits(s[1..]) then None
      else
        MinimalAdvance(s[1..]);
        var length := DecodeLog(s[1..]);
        var at := 1 + LVISize(length);
        if at + length > |s| then None
        else Some((PTF(3, length, s[at..at + length]), at + length))
    else if 0 !in s[1..] then None
    else
      var n := Terminator(s[1..]);
      if n < TWO_64 then Some((PTF(2, n, s[1..1 + n]), 1 + n)) else None
  }

  function ParseFrame(s: seq<uint8>): (r: Option<(Frame, nat)>)
    ensures r.Some? ==> 1 <= r.value.1 <= |s|
  {
    if !LogFits(s) then None
    else if DecodeLog(s) == 0 then ParseTMD(s)
    else if DecodeLog(s) == 2 || DecodeLog(s) == 3 then ParsePTF(s)
    else None
  }

  /** myEnd is the place of the last byte of the frame. */
  method UnpackTransitMetadata(bytes: seq<uint8>, frameStart: nat) returns (newTMD: Frame, myEnd: nat)
    requires frameStart <= |bytes|
    requires LogFits(bytes[frameStart..]) && DecodeLog(bytes[frameStart..]) == 0
    requires ParseTMD(bytes[frameStart..]).Some?
    ensures ParseTMD(bytes[frameStart..]) == Some((newTMD, myEnd + 1 - frameStart))
  {
    ghost var s := bytes[frameStart..];
    var curLoc := frameStart;
    var ty := UnpackLogVarInt(bytes, curLoc);
    curLoc := curLoc + LVISize(ty);
    var id := UnpackID(bytes, curLoc);
    assert bytes[curLoc..curLoc + 4] == s[1..5];
    curLoc := curLoc + 4;
    assert bytes[curLoc..] == s[5..];
    var total := UnpackLogVarInt(bytes, curLoc);
    curLoc := curLoc + LVISize(total);
    assert bytes[curLoc..] == s[5 + LVISize(total)..];
    var specific := UnpackLogVarInt(bytes, curLoc);
    newTMD := TMD(id, total, specific);
    myEnd := curLoc + LVISize(specific) - 1;
  }

  /** The four bytes of the post transit ID, shifted in one after the other. */
  method UnpackID(bytes: seq<uint8>, loc: nat) returns (id: uint32)
    requires loc + 4 <= |bytes|
    ensures id == FromFour(bytes[loc..loc + 4])
  {
    FourDigits(bytes[loc..loc + 4]);
    id := bytes[loc];
    id := ByteIn32(id, bytes[loc + 1]);
    id := ByteIn32(id, bytes[loc + 2]);
    id := ByteIn32(id, bytes[loc + 3]);
  }

  lemma LengthTyped(s: seq<uint8>)
    requires LogFits(s) && DecodeLog(s) == 3 && ParsePTF(s).Some?
    ensures LVISize(3) == 1 <= |s| && LogFits(s[1..])
    ensures var length := DecodeLog(s[1..]);
            var at := 1 + LVISize(length);
            at + length <= |s| && ParsePTF(s) == Some((PTF(3, length, s[at..at + length]), at + length))
  {
  }

  lemma TerminatorTyped(s: seq<uint8>)
    requires LogFits(s) && DecodeLog(s) == 2 && ParsePTF(s).Some?
    ensures LVISize(2) == 1 <= |s| && 0 in s[1..]
    ensures var n := Terminator(s[1..]);
            n < TWO_64 && ParsePTF(s) == Some((PTF(2, n, s[1..1 + n]), 1 + n))
  {
  }

  lemma Inside(bytes: seq<uint8>, start: nat, at: nat, length: nat)
    requires start <= |bytes| && at + length <= |bytes[start..]|
    ensures bytes[start..][at..] == bytes[start + at..]
    ensures bytes[start..][at..at + length] == bytes[start + at..start + at + length]
  {
  }

  /** Where the text of a 0x03 frame stands: behind its length. */
  method GivenLength(bytes: seq<uint8>, frameStart: nat) returns (hold: uint64, curLoc: nat)
    requires frameStart <= |bytes| && LogFits(bytes[frameStart..])
    requires DecodeLog(bytes[frameStart..]) == 3 && ParsePTF(bytes[frameStart..]).Some?
    ensures curLoc > frameStart && curLoc + hold <= |bytes|
    ensures ParsePTF(bytes[frameStart..]) ==
            Some((PTF(3, hold, bytes[curLoc..curLoc + hold]), curLoc + hold - frameStart))
  {
    LengthTyped(bytes[frameStart..]);
    Inside(bytes, frameStart, 1, 0);
    curLoc := frameStart + LVISize(3);
    hold := UnpackLogVarInt(bytes, curLoc);
    curLoc := curLoc + LVISize(hold);
    Inside(bytes, frameStart, 1 + LVISize(hold), hold);
  }

  /** And that of a 0x02 frame: up to the first zero byte. */
  method CountedLength(bytes: seq<uint8>, frameStart: nat) returns (hold: uint64, curLoc: nat)
    requires frameStart <= |bytes| && LogFits(bytes[frameStart..])
    requires DecodeLog(bytes[frameStart..]) == 2 && ParsePTF(bytes[frameStart..]).Some?
    ensures curLoc > frameStart && curLoc + hold <= |bytes|
    ensures ParsePTF(bytes[frameStart..]) ==
            Some((PTF(2, hold, bytes[curLoc..curLoc + hold]), curLoc + hold - frameStart))
  {
    TerminatorTyped(bytes[frameStart..]);
    Inside(bytes, frameStart, 1, 0);
    curLoc := frameStart + LVISize(2);
    hold := CountUntilTerminator(bytes, curLoc);
    Inside(bytes, frameStart, 1, hold);
  }

  method UnpackPlaintext(bytes: seq<uint8>, frameStart: nat) returns (newPTF: Frame, myEnd: nat)
    requires frameStart <= |bytes|
    requires LogFits(bytes[frameStart..])
    requires DecodeLog(bytes[frameStart..]) == 2 || DecodeLog(bytes[frameStart..]) == 3
    requires ParsePTF(bytes[frameStart..]).Some?
    ensures ParsePTF(bytes[frameStart..]) == Some((newPTF, myEnd + 1 - frameStart))
  {
    var ty := UnpackLogVarInt(bytes, frameStart);
    var hold: uint64, curLoc: nat;
    if ty % 2 == 1 {
      assert ty == 3;
      hold, curLoc := GivenLength(bytes, frameStart);
    } else {
      assert ty == 2;
      hold, curLoc := CountedLength(bytes, frameStart);
    }
    newPTF := PTF(ty, hold, bytes[curLoc..curLoc + hold]);
    myEnd := curLoc + hold - 1;
  }

  /** Calls the unpacker for the type found at curLoc. */
  method UnpackFrame(bytes: seq<uint8>, curLoc: nat) returns (frame: Frame, lastEnd: nat)
    requires curLoc <= |bytes| && ParseFrame(bytes[curLoc..]).Some?
    ensures ParseFrame(bytes[curLoc..]) == Some((frame, lastEnd + 1 - curLoc)) && lastEnd >= curLoc
  {
    var typeValue := UnpackLogVarInt(bytes, curLoc);
    if typeValue == 0 {
      frame, lastEnd := UnpackTransitMetadata(bytes, curLoc);
    } else {
      frame, lastEnd := UnpackPlaintext(bytes, curLoc);
    }
  }

  // ---------------------------------------------------------------- parsing a list of frames

  /** All frames in the unread bytes r, or nothing when a byte outside them would be
      read or a type has no parser. Fewer than two bytes are left alone. */
  function ExtractRest(r: seq<uint8>): Option<seq<Frame>>
  {
    if |r| < 2 then Some([])
    else
      match ParseFrame(r)
      case None => None
      case Some((f, n)) =>
        match ExtractRest(r[n..])
        case None => None
        case Some(rest) => Some([f] + rest)
  }

  /** The first frame wants three bytes, not two. */
  function Extract(s: seq<uint8>): Option<seq<Frame>>
  {
    if |s| < 3 then Some([]) else ExtractRest(s)
  }

  /** What the recursive definition says of the frame at the front. */
  lemma FrontFrame(r: seq<uint8>, frame: Frame, n: nat)
    requires |r| >= 2 && ParseFrame(r) == Some((frame, n))
    ensures n <= |r|
    ensures ExtractRest(r) == match ExtractRest(r[n..])
                              case None => None
                              case Some(rest) => Some([frame] + rest)
  {
  }

  /** A parser of one frame. The lemmas up to Places do not depend on which one it is. */
  type Parser = seq<uint8> -> Option<(Frame, nat)>

  /** The list parser gives the frame that parse finds at the front, then those behind it. */
  ghost predicate Repeats(parse: Parser, list: seq<uint8> -> Option<seq<Frame>>)
  {
    && (forall r {:trigger list(r)} :: |r| < 2 ==> list(r) == Some([]))
    && forall r {:trigger parse(r)} :: |r| >= 2 && list(r).Some? ==>
         && parse(r).Some?
         && 1 <= parse(r).value.1 <= |r|
         && list(r[parse(r).value.1..]).Some?
         && list(r).value == [parse(r).value.0] + list(r[parse(r).value.1..]).value
  }

  lemma ExtractRepeats()
    ensures Repeats(ParseFrame, ExtractRest)
  {
    forall r: seq<uint8> | |r| >= 2 && ExtractRest(r).Some?
      ensures ParseFrame(r).Some? && ExtractRest(r[ParseFrame(r).value.1..]).Some?
      ensures ExtractRest(r).value == [ParseFrame(r).value.0] + ExtractRest(r[ParseFrame(r).value.1..]).value
    {
      FrontFrame(r, ParseFrame(r).value.0, ParseFrame(r).value.1);
    }
  }

  /** Frame i of all stands between ends[i] and ends[i + 1]. */
  ghost predicate FrameAt(parse: Parser, bytes: seq<uint8>, all: seq<Frame>, ends: seq<nat>, i: nat)
    requires i < |all| && |ends| == |all| + 1
  {
    ends[i] < ends[i + 1] <= |bytes| && parse(bytes[ends[i]..]) == Some((all[i], ends[i + 1] - ends[i]))
  }

  ghost predicate FramesAt(parse: Parser, bytes: seq<uint8>, all: seq<Frame>, ends: seq<nat>)
  {
    && |ends| == |all| + 1
    && forall i {:trigger FrameAt(parse, bytes, all, ends, i)} :: 0 <= i < |all| ==> FrameAt(parse, bytes, all, ends, i)
  }

  /** There are two bytes where a frame starts, and fewer where none does. */
  predicate Starts(size: nat, count: nat, ends: seq<nat>)
  {
    && |ends| == count + 1
    && forall i :: 0 <= i <= count ==> ends[i] <= size && (i < count <==> ends[i] + 2 <= size)
  }

  lemma ConsFrame(parse: Parser, bytes: seq<uint8>, frame: Frame, from: nat, rest: seq<Frame>, ends: seq<nat>)
    requires FramesAt(parse, bytes, rest, ends) && from < ends[0] <= |bytes|
    requires parse(bytes[from..]) == Some((frame, ends[0] - from))
    ensures FramesAt(parse, bytes, [frame] + rest, [from] + ends)
  {
    var all, ends' := [frame] + rest, [from] + ends;
    forall i | 0 <= i < |all|
      ensures FrameAt(parse, bytes, all, ends', i)
    {
      assert i == 0 || FrameAt(parse, bytes, rest, ends, i - 1);
    }
  }

  lemma ConsStart(size: nat, count: nat, from: nat, ends: seq<nat>)
    requires Starts(size, count, ends) && from + 2 <= size
    ensures Starts(size, count + 1, [from] + ends)
  {
  }

  /** Where the unread frames start and end. */
  lemma {:induction false} Places(parse: Parser, list: seq<uint8> -> Option<seq<Frame>>, bytes: seq<uint8>, from: nat)
    returns (ends: seq<nat>)
    requires Repeats(parse, list) && from <= |bytes| && list(bytes[from..]).Some?
    ensures FramesAt(parse, bytes, list(bytes[from..]).value, ends)
    ensures Starts(|bytes|, |list(bytes[from..]).value|, ends) && ends[0] == from
    decreases |bytes| - from
  {
    var r := bytes[from..];
    if |r| < 2 {
      ends := [from];
    } else {
      var (frame, n) := parse(r).value;
      assert r[n..] == bytes[from + n..];
      ends := Places(parse, list, bytes, from + n);
      ConsFrame(parse, bytes, frame, from, list(r[n..]).value, ends);
      ConsStart(|bytes|, |list(r[n..]).value|, from, ends);
      ends := [from] + ends;
    }
  }

  /** The same for all frames; of fewer than three bytes none is read. */
  lemma AllPlaces(bytes: seq<uint8>, all: seq<Frame>) returns (ends: seq<nat>)
    requires Extract(bytes) == Some(all)
    ensures FramesAt(ParseFrame, bytes, all, ends) && ends[0] == 0
    ensures if |bytes| < 3 then |all| == 0 else Starts(|bytes|, |all|, ends)
  {
    if |bytes| < 3 {
      ends := [0];
    } else {
      assert bytes[0..] == bytes;
      ExtractRepeats();
      ends := Places(ParseFrame, ExtractRest, bytes, 0);
    }
  }

  method UnpackNth(bytes: seq<uint8>, curLoc: nat, ghost all: seq<Frame>, ghost ends: seq<nat>, ghost i: nat)
    returns (frame: Frame, lastEnd: nat)
    requires FramesAt(ParseFrame, bytes, all, ends) && i < |all| && curLoc == ends[i]
    ensures frame == all[i] && lastEnd + 1 == ends[i + 1] && lastEnd >= curLoc
  {
    assert FrameAt(ParseFrame, bytes, all, ends, i);
    frame, lastEnd := UnpackFrame(bytes, curLoc);
  }

  /** The parser loop, told where the frames are. Its test compares the end of the last frame
      with the byte count; before the first frame that end is the first byte. */
  method ExtractLoop(byteCount: nat, bytes: seq<uint8>, ghost all: seq<Frame>, ghost ends: seq<nat>)
    returns (frames: seq<Frame>, ghost iterations: nat)
    requires byteCount == |bytes| && FramesAt(ParseFrame, bytes, all, ends) && ends[0] == 0
    requires if byteCount < 3 then |all| == 0 else Starts(byteCount, |all|, ends)
    ensures frames == all && iterations == |all|
  {
    var curLoc: nat, lastEnd: nat := 0, 0;
    frames, iterations := [], 0;
    while lastEnd + 2 < byteCount
      invariant iterations <= |all| && frames == all[..iterations] && curLoc == ends[iterations]
      invariant if iterations == 0 then lastEnd == 0 else curLoc == lastEnd + 1
      decreases |all| - iterations
    {
      var frame: Frame;
      frame, lastEnd := UnpackNth(bytes, curLoc, all, ends, iterations);
      curLoc := lastEnd + 1;
      frames := frames + [frame];
      iterations := iterations + 1;
    }
    assert all[..|all|] == all;
  }

  /** Takes one iteration for each frame. */
  method ExtractFrames(byteCount: nat, bytes: seq<uint8>) returns (frames: seq<Frame>, ghost iterations: nat)
    requires byteCount == |bytes| && Extract(bytes).Some?
    ensures Extract(bytes) == Some(frames) && iterations == |frames|
  {
    ghost var all := Extract(bytes).value;
    ghost var ends := AllPlaces(bytes, all);
    frames, iterations := ExtractLoop(byteCount, bytes, all, ends);
  }
}
