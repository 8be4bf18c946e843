/** The other way round: of which received bytes packing what was unpacked gives the same bytes. */
module Repack {
  import opened Bytes
  import opened VarInt
  import opened Messages
  import opened Frames
  import opened FrameLists
  import opened MessageReader

  /** A parsed frame as the packer needs it: the text of a 0x02 frame, which the parser stores
      without its terminator, gets one again. */
  function Ready(f: Frame): Frame
  {
    if Terminated(f) then PTF(f.ty, f.length, f.txtdta + [0]) else f
  }

  function ReadyList(fs: seq<Frame>): (r: seq<Frame>)
    ensures |r| == |fs| && forall i :: 0 <= i < |fs| ==> r[i] == Ready(fs[i])
  {
    if fs == [] then [] else [Ready(fs[0])] + ReadyList(fs[1..])
  }

  // ---------------------------------------------------------------- integers

  /** The integer at the front of s is encoded as the packer would. */
  predicate Minimal(s: seq<uint8>)
    requires LogFits(s)
  {
    LogSize(s[0]) == LVISize(DecodeLog(s))
  }

  lemma MinimalFront(s: seq<uint8>)
    requires LogFits(s)
    ensures LVISize(DecodeLog(s)) <= |s|
    ensures s[..LVISize(DecodeLog(s))] == EncodeLog(DecodeLog(s)) <==> Minimal(s)
  {
    MinimalAdvance(s);
    LogEncoded(DecodeLog(s));
    if !Minimal(s) {
      assert s[..LVISize(DecodeLog(s))][0] == s[0];
    }
  }

  // ---------------------------------------------------------------- one frame

  /** All integers of the frame at the front of s are encoded as the packer would. */
  predicate MinimalFrame(s: seq<uint8>)
    requires ParseFrame(s).Some?
  {
    && Minimal(s)
    && match ParseFrame(s).value.0
       case TMD(_, total, _) => Minimal(s[5..]) && Minimal(s[5 + LVISize(total)..])
       case PTF(ty, _, _) => ty == 3 ==> Minimal(s[1..])
  }

  /** A parsed frame is one the packer can be given, and normal. */
  lemma ParsedReady(s: seq<uint8>)
    requires |s| < 0x8000_0000_0000_0000 && ParseFrame(s).Some?
    ensures var (f, n) := ParseFrame(s).value;
            && Packable(Ready(f)) && Normal(Ready(f)) == f && (Terminated(f) ==> n < |s|)
            && |FrameBytes(Ready(f))| == if Terminated(f) then n + 1 else n
  {
    var (f, n) := ParseFrame(s).value;
    if DecodeLog(s) == 2 {
      assert f.txtdta == s[1..][..f.length];
      TerminatorUnique(f.txtdta + [0], f.length);
    }
  }

  /** The packer can be given a parsed frame as it stands exactly when it is not a 0x02 frame:
      of that one it would look for the terminator behind the text. */
  lemma ParsedReadable(s: seq<uint8>)
    requires |s| < 0x8000_0000_0000_0000 && ParseFrame(s).Some?
    ensures WellFormed(ParseFrame(s).value.0) <==> !Terminated(ParseFrame(s).value.0)
  {
    ParsedReady(s);
    var f := ParseFrame(s).value.0;
    if Terminated(f) {
      assert 0 !in f.txtdta;
    }
  }

  /** Equal pieces make equal wholes, and different ones different wholes. */
  lemma SamePieces(a: seq<uint8>, b: seq<uint8>, a': seq<uint8>, b': seq<uint8>)
    requires |a| == |a'|
    ensures a + b == a' + b' <==> a == a' && b == b'
  {
    if a + b == a' + b' {
      assert a == (a + b)[..|a|] == (a' + b')[..|a|] == a';
      assert b == (a + b)[|a|..] == (a' + b')[|a|..] == b';
    }
  }

  lemma FourRepacked(s: seq<uint8>)
    requires |s| == 4
    ensures MemBE(FromFour(s), 4) == s
  {
    MemFromBE(s);
  }

  /** The first bytes of s, cut in two. */
  lemma Cut(s: seq<uint8>, i: nat, j: nat)
    requires i <= j <= |s|
    ensures s[..j] == s[..i] + s[i..j] && s[i..j] == s[i..][..j - i]
  {
  }

  /** The integer at a place of s. */
  lemma IntegerRepacked(s: seq<uint8>, at: nat, to: nat)
    requires at <= |s| && LogFits(s[at..]) && to == at + LVISize(DecodeLog(s[at..]))
    ensures to <= |s| && (s[at..to] == EncodeLog(DecodeLog(s[at..])) <==> Minimal(s[at..]))
  {
    MinimalFront(s[at..]);
    Cut(s, at, to);
  }

  /** The first bytes of s, compared piece by piece. */
  lemma PiecesSame(s: seq<uint8>, i: nat, j: nat, k: nat, n: nat,
                   a: seq<uint8>, b: seq<uint8>, c: seq<uint8>, d: seq<uint8>)
    requires i <= j <= k <= n <= |s| && |a| == i && |b| == j - i && |c| == k - j && |d| == n - k
    ensures s[..n] == a + b + c + d <==> s[..i] == a && s[i..j] == b && s[j..k] == c && s[k..n] == d
  {
    Cut(s, k, n);
    Cut(s, j, k);
    Cut(s, i, j);
    SamePieces(a + b + c, d, s[..k], s[k..n]);
    SamePieces(a + b, c, s[..j], s[j..k]);
    SamePieces(a, b, s[..i], s[i..j]);
  }

  lemma TMDRepacked(s: seq<uint8>)
    requires |s| < 0x8000_0000_0000_0000 && ParseFrame(s).Some? && ParseFrame(s).value.0.TMD?
    ensures var (f, n) := ParseFrame(s).value;
            s[..n] == FrameBytes(f) <==> MinimalFrame(s)
  {
    var (f, n) := ParseFrame(s).value;
    var at := 5 + LVISize(f.totalMessageCount);
    MinimalFront(s);
    FourRepacked(s[1..5]);
    IntegerRepacked(s, 5, at);
    IntegerRepacked(s, at, n);
    PiecesSame(s, 1, 5, at, n, EncodeLog(0), MemBE(f.postTransitID, 4), EncodeLog(f.totalMessageCount),
               EncodeLog(f.specificMessageCount));
  }

  lemma LengthRepacked(s: seq<uint8>)
    requires |s| < 0x8000_0000_0000_0000 && ParseFrame(s).Some? && DecodeLog(s) == 3
    ensures ParseFrame(s).value.0.PTF? && ParseFrame(s).value.0.ty == 3 && WellFormed(ParseFrame(s).value.0)
    ensures var (f, n) := ParseFrame(s).value;
            s[..n] == FrameBytes(f) <==> MinimalFrame(s)
  {
    var (f, n) := ParseFrame(s).value;
    var at := 1 + LVISize(f.length);
    LengthTyped(s);
    MinimalFront(s);
    IntegerRepacked(s, 1, at);
    assert f.txtdta == s[at..n] == f.txtdta[..f.length];
    PiecesSame(s, 1, at, n, n, EncodeLog(3), EncodeLog(f.length), f.txtdta, []);
  }

  lemma TerminatedRepacked(s: seq<uint8>)
    requires |s| < 0x8000_0000_0000_0000 && ParseFrame(s).Some? && DecodeLog(s) == 2
    ensures Terminated(ParseFrame(s).value.0) && WellFormed(Ready(ParseFrame(s).value.0))
    ensures var (f, n) := ParseFrame(s).value;
            && FrameBytes(Ready(f)) == EncodeLog(2) + f.txtdta + [0] && n == 1 + |f.txtdta|
            && (s[..n] == EncodeLog(2) + f.txtdta <==> MinimalFrame(s))
  {
    var (f, n) := ParseFrame(s).value;
    ParsedReady(s);
    TerminatedBytes(Ready(f));
    TerminatorUnique(f.txtdta + [0], f.length);
    assert (f.txtdta + [0])[..f.length] == f.txtdta;
    MinimalFront(s);
    Cut(s, 1, n);
    SamePieces(s[..1], s[1..n], EncodeLog(2), f.txtdta);
  }

  /** The bytes of a parsed frame are those the packer writes, up to the terminator of a 0x02
      frame, exactly when its integers are minimal. */
  lemma FrameRepacked(s: seq<uint8>)
    requires |s| < 0x8000_0000_0000_0000 && ParseFrame(s).Some?
    ensures var (f, n) := ParseFrame(s).value;
            && WellFormed(Ready(f)) && n <= |FrameBytes(Ready(f))|
            && FrameBytes(Ready(f))[n..] == (if Terminated(f) then [0] else [])
            && (s[..n] == FrameBytes(Ready(f))[..n] <==> MinimalFrame(s))
  {
    var (f, n) := ParseFrame(s).value;
    ParsedReady(s);
    if f.TMD? {
      TMDRepacked(s);
    } else if DecodeLog(s) == 3 {
      LengthRepacked(s);
    } else {
      TerminatedRepacked(s);
      assert (EncodeLog(2) + f.txtdta + [0])[..n] == EncodeLog(2) + f.txtdta;
    }
    if !Terminated(f) {
      assert FrameBytes(f)[..n] == FrameBytes(f);
    }
  }

  // ---------------------------------------------------------------- lists of frames

  predicate Zeros(s: seq<uint8>)
  {
    forall i :: 0 <= i < |s| ==> s[i] == 0
  }

  /** What may follow the text of a 0x02 frame: its terminator, and all-zero transit metadata. */
  predicate OnlyTerminator(s: seq<uint8>)
  {
    Zeros(s) && |s| % 7 == 1
  }

  /** Each frame is encoded as the packer would, nothing is left over, and a 0x02 frame is last
      but for all-zero transit metadata. */
  predicate CanonicalRest(r: seq<uint8>)
  {
    if |r| < 2 then r == []
    else
      match ParseFrame(r)
      case None => false
      case Some((f, n)) =>
        MinimalFrame(r) && if Terminated(f) then OnlyTerminator(r[n..]) else CanonicalRest(r[n..])
  }

  predicate Canonical(s: seq<uint8>)
  {
    if |s| < 3 then s == [] else CanonicalRest(s)
  }

  function ZeroFrames(k: nat): (fs: seq<Frame>)
    ensures |fs| == k && AllPackable(fs) && AllZero(fs)
  {
    if k == 0 then [] else [ZERO_TMD] + ZeroFrames(k - 1)
  }

  lemma {:induction false} ZeroFramesBytes(k: nat)
    ensures Zeros(ListBytes(ZeroFrames(k))) && |ListBytes(ZeroFrames(k))| == 7 * k
    ensures NormalList(ZeroFrames(k)) == ReadyList(ZeroFrames(k)) == ZeroFrames(k)
  {
    if k == 0 {
    } else {
      ZeroFramesBytes(k - 1);
      ZeroEncodings();
      SplitFirst(ZeroFrames(k), ZERO_TMD, ZeroFrames(k - 1));
    }
  }

  lemma {:induction false} AllZeroFrames(fs: seq<Frame>)
    requires AllZero(fs)
    ensures fs == ZeroFrames(|fs|)
  {
    if fs == [] {
    } else {
      AllZeroFrames(fs[1..]);
      assert fs == [fs[0]] + fs[1..];
    }
  }

  lemma SameZeros(s: seq<uint8>, t: seq<uint8>)
    requires Zeros(s) && Zeros(t) && |s| == |t|
    ensures s == t
  {
  }

  lemma {:induction false} ParsedListReady(r: seq<uint8>)
    requires |r| < 0x8000_0000_0000_0000 && ExtractRest(r).Some?
    ensures AllPackable(ReadyList(ExtractRest(r).value))
    ensures NormalList(ReadyList(ExtractRest(r).value)) == ExtractRest(r).value
    decreases |r|
  {
    if |r| < 2 {
    } else {
      var (f, n) := ParseFrame(r).value;
      FrontFrame(r, f, n);
      ParsedReady(r);
      ParsedListReady(r[n..]);
      var rest := ExtractRest(r[n..]).value;
      ReadyCons(f, rest);
    }
  }

  lemma ReadyCons(f: Frame, rest: seq<Frame>)
    requires Packable(Ready(f)) && Normal(Ready(f)) == f
    requires AllPackable(ReadyList(rest)) && NormalList(ReadyList(rest)) == rest
    ensures ReadyList([f] + rest) == [Ready(f)] + ReadyList(rest)
    ensures AllPackable(ReadyList([f] + rest)) && NormalList(ReadyList([f] + rest)) == [f] + rest
  {
    assert ([f] + rest)[1..] == rest;
    assert ([Ready(f)] + ReadyList(rest))[1..] == ReadyList(rest);
  }

  /** Behind the text of a 0x02 frame: what repacks to the same bytes is its terminator only. */
  lemma OnlyTerminatorRepacked(u: seq<uint8>, hs: seq<Frame>)
    requires AllPackable(hs) && ExtractRest(u) == Some(NormalList(hs)) && u == [0] + ListBytes(hs)
    ensures OnlyTerminator(u)
  {
    AfterTerminator(hs);
    AllZeroBytes(hs);
    BehindText(u, ListBytes(hs), |hs|);
  }

  lemma AllZeroBytes(hs: seq<Frame>)
    requires AllZero(hs)
    ensures AllWellFormed(hs) && Zeros(ListBytes(hs)) && |ListBytes(hs)| == 7 * |hs|
  {
    AllZeroFrames(hs);
    ZeroFramesBytes(|hs|);
  }

  lemma BehindText(u: seq<uint8>, l: seq<uint8>, k: nat)
    requires u == [0] + l && Zeros(l) && |l| == 7 * k
    ensures OnlyTerminator(u)
  {
  }

  lemma TerminatorParsed(u: seq<uint8>)
    requires OnlyTerminator(u)
    ensures ExtractRest(u) == Some(ZeroFrames(|u| / 7)) && ReadyList(ZeroFrames(|u| / 7)) == ZeroFrames(|u| / 7)
    ensures u == [0] + ListBytes(ZeroFrames(|u| / 7))
  {
    var zs := ZeroFrames(|u| / 7);
    ZeroFramesBytes(|u| / 7);
    SameZeros(u, [0] + ListBytes(zs));
    AfterTerminator(zs);
  }

  lemma TerminatorRepacked(u: seq<uint8>)
    requires |u| < 0x8000_0000_0000_0000 && ExtractRest(u).Some?
    ensures AllPackable(ReadyList(ExtractRest(u).value))
    ensures u == [0] + ListBytes(ReadyList(ExtractRest(u).value)) <==> OnlyTerminator(u)
  {
    ParsedListReady(u);
    var hs := ReadyList(ExtractRest(u).value);
    if u == [0] + ListBytes(hs) {
      OnlyTerminatorRepacked(u, hs);
    }
    if OnlyTerminator(u) {
      TerminatorParsed(u);
    }
  }

  lemma {:induction false} RestRepacked(r: seq<uint8>)
    requires |r| < 0x8000_0000_0000_0000 && ExtractRest(r).Some?
    ensures AllPackable(ReadyList(ExtractRest(r).value))
    ensures ListBytes(ReadyList(ExtractRest(r).value)) == r <==> CanonicalRest(r)
    decreases |r|
  {
    ParsedListReady(r);
    if |r| < 2 {
    } else {
      var (f, n) := ParseFrame(r).value;
      FrontFrame(r, f, n);
      FrameRepacked(r);
      ParsedListReady(r[n..]);
      var rest := ExtractRest(r[n..]).value;
      RepackedCons(r, f, n, rest);
      if Terminated(f) {
        TerminatorRepacked(r[n..]);
      } else {
        RestRepacked(r[n..]);
      }
    }
  }

  /** The bytes of the list are those of its first frame, then those of the others. */
  lemma RepackedCons(r: seq<uint8>, f: Frame, n: nat, rest: seq<Frame>)
    requires n <= |r| && WellFormed(Ready(f)) && AllWellFormed(ReadyList([f] + rest)) && n <= |FrameBytes(Ready(f))|
    ensures AllWellFormed(ReadyList(rest))
    ensures ListBytes(ReadyList([f] + rest)) == r <==>
            && r[..n] == FrameBytes(Ready(f))[..n]
            && r[n..] == FrameBytes(Ready(f))[n..] + ListBytes(ReadyList(rest))
  {
    ReadyTail(f, rest);
    SplitFirst(ReadyList([f] + rest), Ready(f), ReadyList(rest));
    SameAround(FrameBytes(Ready(f)), n, ListBytes(ReadyList(rest)), r);
  }

  lemma SplitFirst(fs: seq<Frame>, f: Frame, rest: seq<Frame>)
    requires AllWellFormed(fs) && fs != [] && fs[0] == f && fs[1..] == rest
    ensures WellFormed(f) && AllWellFormed(rest) && ListBytes(fs) == FrameBytes(f) + ListBytes(rest)
  {
    ListBytesCons(fs);
  }

  lemma ReadyTail(f: Frame, rest: seq<Frame>)
    ensures ReadyList([f] + rest)[0] == Ready(f) && ReadyList([f] + rest)[1..] == ReadyList(rest)
  {
    assert ([f] + rest)[1..] == rest;
  }

  lemma SameAround(b: seq<uint8>, n: nat, l: seq<uint8>, r: seq<uint8>)
    requires n <= |b| && n <= |r|
    ensures b + l == r <==> r[..n] == b[..n] && r[n..] == b[n..] + l
  {
    assert b + l == b[..n] + (b[n..] + l);
    assert r == r[..n] + r[n..];
    SamePieces(b[..n], b[n..] + l, r[..n], r[n..]);
  }

  /** The frames of a list of bytes are packed to the same bytes exactly when these are canonical. */
  lemma FramesRepackedIff(s: seq<uint8>)
    requires |s| < 0x8000_0000_0000_0000 && Extract(s).Some?
    ensures AllPackable(ReadyList(Extract(s).value))
    ensures ListBytes(ReadyList(Extract(s).value)) == s <==> Canonical(s)
  {
    if |s| >= 3 {
      RestRepacked(s);
    }
  }

  // ---------------------------------------------------------------- headers

  lemma FromBESame(a: seq<uint8>, b: seq<uint8>)
    requires |a| == |b|
    ensures FromBE(a) == FromBE(b) <==> a == b
  {
    MemFromBE(a);
    MemFromBE(b);
  }

  lemma FourFit(k: nat)
    requires k <= 4
    ensures Pow256(k) <= 0x1_0000_0000
  {
    Pow256Values();
  }

  /** At most four bytes are read whole. */
  lemma DirRead(b: seq<uint8>)
    requires |b| <= 4
    ensures DecodeDir(b) == FromBE(b) && MemBE(DecodeDir(b), |b|) == b
  {
    FromBEBound(b);
    FourFit(|b|);
    Truncated32(FromBE(b));
    MemFromBE(b);
  }

  /** A direct integer is packed to the bytes it was read from exactly when these state its size. */
  lemma DirRepacked(b: seq<uint8>)
    requires 1 <= |b| <= 4
    ensures DirBytes(DecodeDir(b), |b|) == b <==> FieldFits(DecodeDir(b), |b|)
  {
    var v := DecodeDir(b);
    DirRead(b);
    DirBytesRead(v, |b|);
    RescaledSame(v, |b|);
    FromBESame(DirBytes(v, |b|), b);
  }

  /** The source ID is encoded as the packer would, and the two direct integers have their own sizes. */
  predicate CanonicalHeader(s: seq<uint8>)
    requires |s| > 0 && HeaderFits(s, s[0] / 128 != 0)
  {
    var control := s[0] / 128 != 0;
    Minimal(s[ChatIDAt(control) + ChatIDSize(RebuildMessageStub(s[0]))..]) && HeaderFaithful(RebuiltHeader(s, control))
  }

  lemma LayoutSame(s: seq<uint8>, n: nat, chatAt: nat, sourceAt: nat, numberAt: nat,
                   version: seq<uint8>, chat: seq<uint8>, source: seq<uint8>, number: seq<uint8>)
    requires 1 <= chatAt <= sourceAt <= numberAt <= n <= |s|
    requires |version| == chatAt - 1 && |chat| == sourceAt - chatAt
    requires |source| == numberAt - sourceAt && |number| == n - numberAt
    ensures s[..n] == Layout(s[0], version, chat, source, number) <==>
            && s[1..chatAt] == version && s[chatAt..sourceAt] == chat
            && s[sourceAt..numberAt] == source && s[numberAt..n] == number
  {
    Cut(s, 1, chatAt);
    assert s[..1] == [s[0]];
    SamePieces([s[0]], version, s[..1], s[1..chatAt]);
    PiecesSame(s, chatAt, sourceAt, numberAt, n, [s[0]] + version, chat, source, number);
  }

  lemma VersionRepacked(s: seq<uint8>, h: Header)
    requires h.Control? ==> |s| >= 5 && h.version == DecodeDir(s[1..5])
    requires |s| > 0
    ensures |VersionBytes(h)| == ChatIDAt(h.Control?) - 1 && s[1..ChatIDAt(h.Control?)] == VersionBytes(h)
  {
    if h.Control? {
      DirRead(s[1..5]);
    }
  }

  /** The bytes of h are those of s when its fields stand in s one behind the other. */
  lemma FieldsRepacked(s: seq<uint8>, h: Header, n: nat, chatAt: nat, sourceAt: nat, numberAt: nat)
    requires chatAt == ChatIDAt(h.Control?) && sourceAt == chatAt + ChatIDSize(h.stub)
    requires numberAt == sourceAt + LVISize(h.sourceID) && n == numberAt + MessageNumberSize(h.stub) <= |s|
    requires s[0] == StubByte(h.stub) && LogFits(s[sourceAt..]) && h.sourceID == DecodeLog(s[sourceAt..])
    requires h.Control? ==> h.version == DecodeDir(s[1..5])
    requires h.chatID == DecodeDir(s[chatAt..sourceAt]) && h.messageNumber == DecodeDir(s[numberAt..n])
    ensures HeaderBytes(h) == s[..n] <==> Minimal(s[sourceAt..]) && HeaderFaithful(h)
  {
    VersionRepacked(s, h);
    DirRepacked(s[chatAt..sourceAt]);
    IntegerRepacked(s, sourceAt, numberAt);
    DirRepacked(s[numberAt..n]);
    LayoutSame(s, n, chatAt, sourceAt, numberAt, VersionBytes(h), DirBytes(h.chatID, ChatIDSize(h.stub)),
               EncodeLog(h.sourceID), DirBytes(h.messageNumber, MessageNumberSize(h.stub)));
  }

  /** A rebuilt header is serialized to the bytes it was read from exactly when these are canonical. */
  lemma HeaderRepacked(s: seq<uint8>, control: bool)
    requires |s| > 0 && control == (s[0] / 128 != 0) && HeaderFits(s, control)
    ensures HeaderBytes(RebuiltHeader(s, control)) == s[..HeaderEnd(s)] <==> CanonicalHeader(s)
  {
    var h := RebuiltHeader(s, control);
    var chatAt := ChatIDAt(control);
    var sourceAt := chatAt + ChatIDSize(h.stub);
    StubByteRoundTrip(s[0]);
    FieldsRepacked(s, h, HeaderEnd(s), chatAt, sourceAt, sourceAt + LVISize(h.sourceID));
  }

  // ---------------------------------------------------------------- whole messages

  /** What the packing functions write for a message that was unpacked. */
  function Repacked(m: Message): seq<uint8>
    requires AllWellFormed(ReadyList(m.msgframes))
  {
    HeaderBytes(m.msghead) + ListBytes(ReadyList(m.msgframes))
  }

  /** An unpacked message is packed to the bytes it came from exactly when its header and its
      frames are canonical. */
  lemma MessageRepackedIff(s: seq<uint8>)
    requires |s| < 0x8000_0000_0000_0000 && Unpacked(s).Some?
    ensures AllPackable(ReadyList(Unpacked(s).value.msgframes)) && Unpacked(s).value.msghead.sourceID < TWO_62
    ensures Repacked(Unpacked(s).value) == s <==> CanonicalHeader(s) && Canonical(s[HeaderEnd(s)..])
  {
    var m := Unpacked(s).value;
    UnpackedOf(s, m);
    HeaderRepacked(s, s[0] / 128 != 0);
    FramesRepackedIff(s[HeaderEnd(s)..]);
    SplitAt(s, HeaderEnd(s), HeaderBytes(m.msghead), ListBytes(ReadyList(m.msgframes)));
  }

  lemma UnpackedOf(s: seq<uint8>, m: Message)
    requires Unpacked(s) == Some(m)
    ensures m.msghead == RebuiltHeader(s, s[0] / 128 != 0) && Extract(s[HeaderEnd(s)..]) == Some(m.msgframes)
    ensures m.msghead.sourceID < TWO_62 && |HeaderBytes(m.msghead)| == HeaderEnd(s)
  {
    SizeIsBytesWritten(m.msghead);
  }

  lemma SplitAt(s: seq<uint8>, n: nat, a: seq<uint8>, b: seq<uint8>)
    requires n == |a| <= |s|
    ensures a + b == s <==> a == s[..n] && b == s[n..]
  {
    SamePieces(a, b, s[..n], s[n..]);
    assert s == s[..n] + s[n..];
  }

  // ---------------------------------------------------------------- without adding terminators

  predicate NoTerminated(fs: seq<Frame>)
  {
    forall i :: 0 <= i < |fs| ==> !Terminated(fs[i])
  }

  lemma ReadableCons(f: Frame, rest: seq<Frame>)
    requires WellFormed(f) <==> !Terminated(f)
    requires AllWellFormed(rest) <==> NoTerminated(rest)
    ensures AllWellFormed([f] + rest) <==> NoTerminated([f] + rest)
  {
    var fs := [f] + rest;
    assert fs[0] == f && forall i :: 0 <= i < |rest| ==> rest[i] == fs[i + 1];
    assert AllWellFormed(fs) <==> WellFormed(f) && AllWellFormed(rest) by {
      assert forall i :: 0 < i < |fs| ==> fs[i] == rest[i - 1];
    }
    assert NoTerminated(fs) <==> !Terminated(f) && NoTerminated(rest) by {
      assert forall i :: 0 < i < |fs| ==> fs[i] == rest[i - 1];
    }
  }

  lemma {:induction false} ParsedListReadable(r: seq<uint8>)
    requires |r| < 0x8000_0000_0000_0000 && ExtractRest(r).Some?
    ensures AllWellFormed(ExtractRest(r).value) <==> NoTerminated(ExtractRest(r).value)
    decreases |r|
  {
    if |r| < 2 {
    } else {
      var (f, n) := ParseFrame(r).value;
      FrontFrame(r, f, n);
      ParsedReadable(r);
      ParsedListReadable(r[n..]);
      ReadableCons(f, ExtractRest(r[n..]).value);
    }
  }

  lemma {:induction false} ReadySame(fs: seq<Frame>)
    requires NoTerminated(fs)
    ensures ReadyList(fs) == fs
  {
    if fs == [] {
    } else {
      ReadySame(fs[1..]);
      assert fs == [fs[0]] + fs[1..];
    }
  }

  /** The packer can be given the frames of an unpacked message as they stand exactly when none
      is a 0x02 frame; then it writes the same bytes exactly when they were canonical. */
  lemma UnpackedAsItStands(s: seq<uint8>)
    requires |s| < 0x8000_0000_0000_0000 && Unpacked(s).Some?
    ensures
      var m := Unpacked(s).value;
      && (AllWellFormed(m.msgframes) <==> NoTerminated(m.msgframes))
      && (NoTerminated(m.msgframes) ==>
            (HeaderBytes(m.msghead) + ListBytes(m.msgframes) == s <==>
             CanonicalHeader(s) && Canonical(s[HeaderEnd(s)..])))
  {
    var m := Unpacked(s).value;
    UnpackedOf(s, m);
    MessageRepackedIff(s);
    if |s[HeaderEnd(s)..]| >= 3 {
      ParsedListReadable(s[HeaderEnd(s)..]);
    }
    if NoTerminated(m.msgframes) {
      ReadySame(m.msgframes);
    }
  }

  /** The buffer that repacking asks for exists. */
  predicate Repackable(m: Message)
  {
    AllWellFormed(ReadyList(m.msgframes)) && Allocatable(|HeaderBytes(m.msghead)|, ReadyList(m.msgframes))
  }

  /** Unpacks a stream, puts the terminators back and packs the result again. */
  method UnpackThenPack(byteStream: seq<uint8>) returns (mySerial: array<uint8>)
    requires |byteStream| < 0x8000_0000_0000_0000 && Unpacked(byteStream).Some?
    requires Repackable(Unpacked(byteStream).value)
    ensures fresh(mySerial) && mySerial[..] == Repacked(Unpacked(byteStream).value)
    ensures mySerial[..] == byteStream <==>
            CanonicalHeader(byteStream) && Canonical(byteStream[HeaderEnd(byteStream)..])
  {
    var m := UnpackMessage(byteStream, |byteStream|);
    MessageRepackedIff(byteStream);
    var head: array?<uint8>;
    if m.msghead.Data? {
      head := SerializeDataMessageHeader(m.msghead);
    } else {
      head := SerializeControlMessageHeader(m.msghead);
    }
    mySerial := PackMessage(head, ReadyList(m.msgframes), head.Length, |m.msgframes|);
  }
}
