/** Lists of frames on the wire: what the parser gives back, and exactly for which
    lists that is what was sent. */
module FrameLists {
  import opened Bytes
  import opened VarInt
  import opened Frames

  /** A frame as the parser builds it: text of exactly Length bytes. */
  function Normal(f: Frame): Frame
    requires WellFormed(f)
  {
    if f.TMD? then f else PTF(f.ty, TextLength(f), f.txtdta[..TextLength(f)])
  }

  /** The serializers are given what they can read, and integers that can be packed. */
  predicate Packable(f: Frame)
  {
    && WellFormed(f)
    && (f.TMD? ==> f.totalMessageCount < TWO_62 && f.specificMessageCount < TWO_62)
    && (f.PTF? && f.ty == 3 ==> f.length < TWO_62)
  }

  predicate AllWellFormed(fs: seq<Frame>)
  {
    forall i :: 0 <= i < |fs| ==> WellFormed(fs[i])
  }

  predicate AllPackable(fs: seq<Frame>)
  {
    forall i :: 0 <= i < |fs| ==> Packable(fs[i])
  }

  /** The serialized frames of a list. */
  function Parts(fs: seq<Frame>): (r: seq<seq<uint8>>)
    requires AllWellFormed(fs)
    ensures |r| == |fs|
  {
    if fs == [] then [] else [FrameBytes(fs[0])] + Parts(fs[1..])
  }

  lemma {:induction false} PartsAt(fs: seq<Frame>, i: nat)
    requires AllWellFormed(fs) && i < |fs|
    ensures Parts(fs)[i] == FrameBytes(fs[i])
  {
    PartsTail(fs);
    if i == 0 {
    } else {
      var rest := fs[1..];
      PartsAt(rest, i - 1);
      assert rest[i - 1] == fs[i];
      assert Parts(fs)[i] == Parts(fs)[1..][i - 1];
    }
  }

  function ListBytes(fs: seq<Frame>): seq<uint8>
    requires AllWellFormed(fs)
  {
    Flatten(Parts(fs))
  }

  lemma PartsTail(fs: seq<Frame>)
    requires AllWellFormed(fs) && fs != []
    ensures Parts(fs)[0] == FrameBytes(fs[0]) && Parts(fs)[1..] == Parts(fs[1..])
  {
    ConsParts(FrameBytes(fs[0]), Parts(fs[1..]));
  }

  lemma ConsParts(a: seq<uint8>, rest: seq<seq<uint8>>)
    ensures ([a] + rest)[0] == a && ([a] + rest)[1..] == rest
  {
  }

  lemma ListBytesCons(fs: seq<Frame>)
    requires AllWellFormed(fs) && fs != []
    ensures ListBytes(fs) == FrameBytes(fs[0]) + ListBytes(fs[1..])
  {
    FlattenCons(Parts(fs));
    PartsTail(fs);
  }

  function NormalList(fs: seq<Frame>): (r: seq<Frame>)
    requires AllWellFormed(fs)
    ensures |r| == |fs|
  {
    if fs == [] then [] else [Normal(fs[0])] + NormalList(fs[1..])
  }

  // ---------------------------------------------------------------- one frame

  /** Where four pieces stand in the bytes. */
  lemma PieceSlices(a: seq<uint8>, b: seq<uint8>, c: seq<uint8>, d: seq<uint8>, tail: seq<uint8>, s: seq<uint8>)
    requires s == a + b + c + d + tail
    ensures s == a + (b + c + d + tail) && s[|a|..|a| + |b|] == b && s[|a|..] == b + (c + d + tail)
    ensures s[|a| + |b|..] == c + (d + tail) && s[|a| + |b|..|a| + |b| + |c|] == c
    ensures s[|a| + |b| + |c|..] == d + tail
  {
  }

  lemma TMDRead(s: seq<uint8>, total: nat, specific: nat)
    requires LogFits(s) && DecodeLog(s) == 0 && |s| >= 5 && total < TWO_62 && specific < TWO_62
    requires LogFits(s[5..]) && DecodeLog(s[5..]) == total && 5 + LVISize(total) <= |s|
    requires LogFits(s[5 + LVISize(total)..]) && DecodeLog(s[5 + LVISize(total)..]) == specific
    ensures ParseFrame(s) ==
            Some((TMD(FromFour(s[1..5]), total, specific), 5 + LVISize(total) + LVISize(specific)))
  {
  }

  lemma FourRead(x: uint32)
    ensures FromFour(MemBE(x, 4)) == x
  {
    Pow256Values();
    FromMemBE(x, 4);
  }

  lemma ParseTMDInverts(f: Frame, tail: seq<uint8>)
    requires f.TMD? && Packable(f)
    ensures ParseFrame(FrameBytes(f) + tail) == Some((f, |FrameBytes(f)|))
  {
    var id := MemBE(f.postTransitID, 4);
    var total, specific := EncodeLog(f.totalMessageCount), EncodeLog(f.specificMessageCount);
    var s := FrameBytes(f) + tail;
    PieceSlices(EncodeLog(0), id, total, specific, tail, s);
    LogRoundTrip(0, id + total + specific + tail);
    LogRoundTrip(f.totalMessageCount, specific + tail);
    LogRoundTrip(f.specificMessageCount, tail);
    FourRead(f.postTransitID);
    TMDRead(s, f.totalMessageCount, f.specificMessageCount);
  }

  lemma LengthRead(s: seq<uint8>, length: nat)
    requires LogFits(s) && DecodeLog(s) == 3 && LogFits(s[1..]) && DecodeLog(s[1..]) == length < TWO_62
    requires 1 + LVISize(length) + length <= |s|
    ensures
      var at := 1 + LVISize(length);
      ParseFrame(s) == Some((PTF(3, length, s[at..at + length]), at + length))
  {
  }

  lemma ParseLengthInverts(f: Frame, tail: seq<uint8>)
    requires f.PTF? && f.ty == 3 && Packable(f)
    ensures ParseFrame(FrameBytes(f) + tail) == Some((Normal(f), |FrameBytes(f)|))
  {
    var length, text := EncodeLog(f.length), f.txtdta[..f.length];
    var s := FrameBytes(f) + tail;
    PieceSlices(EncodeLog(3), length, text, [], tail, s);
    LogRoundTrip(3, length + text + [] + tail);
    LogRoundTrip(f.length, text + ([] + tail));
    LengthRead(s, f.length);
  }

  lemma TerminatedRead(s: seq<uint8>, n: nat)
    requires LogFits(s) && DecodeLog(s) == 2 && 1 + n < |s| && n < TWO_64
    requires s[1 + n] == 0 && forall i :: 1 <= i < 1 + n ==> s[i] != 0
    ensures ParseFrame(s) == Some((PTF(2, n, s[1..1 + n]), 1 + n))
  {
    TerminatorUnique(s[1..], n);
  }

  lemma TextSlices(ty: uint8, text: seq<uint8>, tail: seq<uint8>, s: seq<uint8>)
    requires s == [ty] + text + [0] + tail
    ensures 1 + |text| < |s| && s == [ty] + (text + [0] + tail)
    ensures s[1 + |text|] == 0 && s[1..1 + |text|] == text && forall i :: 1 <= i < 1 + |text| ==> s[i] == text[i - 1]
  {
  }

  lemma TerminatedBytes(f: Frame)
    requires Terminated(f) && WellFormed(f)
    ensures EncodeLog(2) == [2] && FrameBytes(f) == [2] + f.txtdta[..Terminator(f.txtdta)] + [0]
  {
    assert MemBE(2, 1) == MemBE(0, 0) + [2] == [2];
    var n := Terminator(f.txtdta);
    assert f.txtdta[..n + 1] == f.txtdta[..n] + [0];
  }

  /** The terminator of a 0x02 frame stays unread. */
  lemma ParseTerminatedInverts(f: Frame, tail: seq<uint8>)
    requires Terminated(f) && Packable(f)
    ensures ParseFrame(FrameBytes(f) + tail) == Some((Normal(f), |FrameBytes(f)| - 1))
    ensures FrameBytes(f)[|FrameBytes(f)| - 1] == 0
  {
    var n := Terminator(f.txtdta);
    var s := FrameBytes(f) + tail;
    TerminatedBytes(f);
    TextSlices(2, f.txtdta[..n], tail, s);
    LogRoundTrip(2, f.txtdta[..n] + [0] + tail);
    TerminatedRead(s, n);
  }

  lemma TerminatorUnique(s: seq<uint8>, n: nat)
    requires n < |s| && s[n] == 0 && forall i :: 0 <= i < n ==> s[i] != 0
    ensures 0 in s && Terminator(s) == n
  {
  }

  /** How many bytes of a serialized frame the parser consumes. */
  function Consumed(f: Frame): (n: nat)
    requires WellFormed(f)
    ensures 1 <= n <= |FrameBytes(f)|
  {
    if Terminated(f) then |FrameBytes(f)| - 1 else |FrameBytes(f)|
  }

  lemma ParseInverts(f: Frame, tail: seq<uint8>)
    requires Packable(f)
    ensures ParseFrame(FrameBytes(f) + tail) == Some((Normal(f), Consumed(f)))
  {
    if f.TMD? {
      ParseTMDInverts(f, tail);
    } else if f.ty == 3 {
      ParseLengthInverts(f, tail);
    } else {
      ParseTerminatedInverts(f, tail);
    }
  }

  // ---------------------------------------------------------------- exactly which lists come back

  const ZERO_TMD: Frame := TMD(0, 0, 0)

  predicate AllZero(fs: seq<Frame>)
  {
    forall i :: 0 <= i < |fs| ==> fs[i] == ZERO_TMD
  }

  /** Behind a 0x02 frame that is not the last, only all-zero transit metadata. */
  predicate Recoverable(fs: seq<Frame>)
  {
    forall i, j :: 0 <= i < j < |fs| && Terminated(fs[i]) ==> fs[j] == ZERO_TMD
  }

  lemma RecoverableCons(fs: seq<Frame>)
    requires fs != []
    ensures Recoverable(fs) <==> if Terminated(fs[0]) then AllZero(fs[1..]) else Recoverable(fs[1..])
  {
    var rest := fs[1..];
    assert forall i :: 0 <= i < |rest| ==> rest[i] == fs[i + 1];
    if Terminated(fs[0]) {
      assert AllZero(rest) ==> forall j :: 1 <= j < |fs| ==> fs[j] == rest[j - 1];
    } else if Recoverable(rest) {
      forall i, j | 0 <= i < j < |fs| && Terminated(fs[i])
        ensures fs[j] == ZERO_TMD
      {
        assert Terminated(rest[i - 1]) && rest[j - 1] == fs[j];
      }
    }
  }

  lemma ZeroFirst(s: seq<uint8>)
    requires |s| > 0 && s[0] == 0
    ensures LogFits(s) && DecodeLog(s) == 0
  {
    assert s[..1] == [0];
  }

  lemma ZeroEncodings()
    ensures EncodeLog(0) == [0] && MemBE(0, 4) == [0, 0, 0, 0]
    ensures FrameBytes(ZERO_TMD) == [0, 0, 0, 0, 0, 0, 0]
  {
    assert MemBE(0, 1) == [0];
    assert MemBE(0, 2) == [0, 0];
    assert MemBE(0, 3) == [0, 0, 0];
    assert FrameBytes(ZERO_TMD) == [0] + [0, 0, 0, 0] + [0] + [0];
  }

  /** Read from one byte earlier, an all-zero frame is still an all-zero frame. */
  lemma ShiftedZero(tail: seq<uint8>)
    ensures var s := [0] + (FrameBytes(ZERO_TMD) + tail);
            ParseFrame(s) == Some((ZERO_TMD, 7)) && s[7..] == [0] + tail
  {
    ZeroEncodings();
    var s := [0] + (FrameBytes(ZERO_TMD) + tail);
    ZeroFirst(s);
    ZeroFirst(s[5..]);
    ZeroFirst(s[6..]);
    assert s[1..5] == MemBE(0, 4);
    FromMemBE(0, 4);
  }

  /** The four ID bytes read from one byte earlier are the ID divided by 256. */
  lemma ShiftedID(id: uint32)
    ensures FromFour([0] + MemBE(id, 4)[..3]) == id / 256
  {
    assert MemBE(id, 4)[..3] == MemBE(id / 256, 3);
    Pow256Values();
    FromMemBE(id / 256, 3);
    FirstDigit(0, MemBE(id / 256, 3));
  }

  /** The bytes of s that a parsed transit metadata frame takes its fields from; with
      zeros there, the two counts are zero. */
  lemma ParsedTMD(s: seq<uint8>)
    requires |s| > 0 && s[0] == 0 && ParseFrame(s).Some?
    ensures |s| > 5 && ParseFrame(s).value.0.TMD?
    ensures ParseFrame(s).value.0.postTransitID == FromFour(s[1..5])
    ensures s[5] == 0 ==> ParseFrame(s).value.0.totalMessageCount == 0
    ensures s[5] == 0 ==> |s| > 6 && (s[6] == 0 ==> ParseFrame(s).value.0.specificMessageCount == 0)
  {
    ZeroFirst(s);
    if s[5] == 0 {
      ZeroFirst(s[5..]);
      if s[6] == 0 {
        ZeroFirst(s[6..]);
      }
    }
  }

  /** Any other transit metadata frame read from one byte earlier is a different frame. */
  lemma ShiftedTMD(f: Frame, tail: seq<uint8>)
    requires f.TMD? && Packable(f)
    requires ParseFrame([0] + (FrameBytes(f) + tail)).Some?
    requires ParseFrame([0] + (FrameBytes(f) + tail)).value.0 == f
    ensures f == ZERO_TMD
  {
    var s := [0] + (FrameBytes(f) + tail);
    ShiftedBytes(f, tail);
    ParsedTMD(s);
    ShiftedID(f.postTransitID);
    assert f.postTransitID == 0;
    ZeroEncodings();
    assert s[5] == MemBE(0, 4)[3] == 0;
    assert f.totalMessageCount == 0;
    assert s[6] == EncodeLog(0)[0] == 0;
  }

  lemma ShiftedBytes(f: Frame, tail: seq<uint8>)
    requires f.TMD?
    ensures var s := [0] + (FrameBytes(f) + tail);
            && |s| >= 8 && s[1..5] == [0] + MemBE(f.postTransitID, 4)[..3]
            && s[5] == MemBE(f.postTransitID, 4)[3] && s[6] == EncodeLog(f.totalMessageCount)[0]
  {
    ZeroEncodings();
    var s := [0] + (FrameBytes(f) + tail);
    assert s[2..6] == MemBE(f.postTransitID, 4);
  }

  lemma ShiftedOther(f: Frame, tail: seq<uint8>)
    requires f != ZERO_TMD && Packable(f)
    ensures var p := ParseFrame([0] + (FrameBytes(f) + tail));
            p.Some? ==> p.value.0 != Normal(f)
  {
    var p := ParseFrame([0] + (FrameBytes(f) + tail));
    if p.Some? {
      ParsedTMD([0] + (FrameBytes(f) + tail));
      if p.value.0 == f {
        ShiftedTMD(f, tail);
      }
    }
  }

  /** One iteration of the parser, seen from the list it should give. */
  lemma RestStep(r: seq<uint8>, g: seq<Frame>)
    requires |r| >= 2 && |g| > 0
    ensures ExtractRest(r) == Some(g) <==>
            && ParseFrame(r).Some?
            && g[0] == ParseFrame(r).value.0
            && ExtractRest(r[ParseFrame(r).value.1..]) == Some(g[1..])
  {
    var p := ParseFrame(r);
    if p.Some? {
      var rest := ExtractRest(r[p.value.1..]);
      assert g == [g[0]] + g[1..];
      assert rest.Some? ==> ([p.value.0] + rest.value)[1..] == rest.value;
    }
  }

  lemma TerminatorStep(fs: seq<Frame>)
    requires AllPackable(fs) && fs != []
    ensures ExtractRest([0] + ListBytes(fs)) == Some(NormalList(fs)) <==>
            fs[0] == ZERO_TMD && ExtractRest([0] + ListBytes(fs[1..])) == Some(NormalList(fs[1..]))
  {
    var f, bytes := fs[0], ListBytes(fs[1..]);
    ListBytesCons(fs);
    RestStep([0] + (FrameBytes(f) + bytes), NormalList(fs));
    assert NormalList(fs)[0] == Normal(f) && NormalList(fs)[1..] == NormalList(fs[1..]);
    if f == ZERO_TMD {
      ShiftedZero(bytes);
    } else {
      ShiftedOther(f, bytes);
    }
  }

  /** What the parser makes of the frames behind an unread terminator. */
  lemma {:induction false} AfterTerminator(fs: seq<Frame>)
    requires AllPackable(fs)
    ensures ExtractRest([0] + ListBytes(fs)) == Some(NormalList(fs)) <==> AllZero(fs)
  {
    if fs == [] {
    } else {
      TerminatorStep(fs);
      AfterTerminator(fs[1..]);
      AllZeroCons(fs);
    }
  }

  lemma AllZeroCons(fs: seq<Frame>)
    requires fs != []
    ensures AllZero(fs) <==> fs[0] == ZERO_TMD && AllZero(fs[1..])
  {
    assert fs == [fs[0]] + fs[1..];
  }

  /** The first frame of a list always comes back; what counts is the rest. */
  lemma FirstComesBack(fs: seq<Frame>)
    requires AllPackable(fs) && fs != []
    ensures var s := FrameBytes(fs[0]) + ListBytes(fs[1..]);
            && ListBytes(fs) == s
            && (ExtractRest(s) == Some(NormalList(fs)) <==>
                ExtractRest(s[Consumed(fs[0])..]) == Some(NormalList(fs[1..])))
  {
    ListBytesCons(fs);
    ParseInverts(fs[0], ListBytes(fs[1..]));
    RestStep(FrameBytes(fs[0]) + ListBytes(fs[1..]), NormalList(fs));
    assert NormalList(fs)[1..] == NormalList(fs[1..]);
  }

  lemma {:induction false} RestExact(fs: seq<Frame>)
    requires AllPackable(fs)
    ensures ExtractRest(ListBytes(fs)) == Some(NormalList(fs)) <==> Recoverable(fs)
  {
    if fs == [] {
    } else {
      var f, tail := fs[0], ListBytes(fs[1..]);
      FirstComesBack(fs);
      RecoverableCons(fs);
      if Terminated(f) {
        LeftTerminator(f, tail);
        AfterTerminator(fs[1..]);
      } else {
        RestOfConcat(FrameBytes(f), tail);
        RestExact(fs[1..]);
      }
    }
  }

  lemma RestOfConcat(a: seq<uint8>, b: seq<uint8>)
    ensures (a + b)[|a|..] == b
  {
  }

  lemma LeftTerminator(f: Frame, tail: seq<uint8>)
    requires Terminated(f) && Packable(f)
    ensures (FrameBytes(f) + tail)[Consumed(f)..] == [0] + tail
  {
    TerminatedBytes(f);
    LastLeft([2] + f.txtdta[..Terminator(f.txtdta)], 0, tail);
  }

  lemma LastLeft(a: seq<uint8>, last: uint8, tail: seq<uint8>)
    ensures (a + [last] + tail)[|a|..] == [last] + tail
  {
  }

  /** The one non-empty list that is too short for the first test. */
  predicate LoneEmptyText(fs: seq<Frame>)
    requires AllWellFormed(fs)
  {
    |fs| == 1 && fs[0].PTF? && TextLength(fs[0]) == 0
  }

  lemma ShortLists(fs: seq<Frame>)
    requires AllWellFormed(fs)
    ensures 0 < |ListBytes(fs)| < 3 <==> LoneEmptyText(fs)
  {
    if fs != [] {
      ListBytesCons(fs);
      FrameSize(fs[0]);
      if |fs| > 1 {
        ListBytesCons(fs[1..]);
        FrameSize(fs[1]);
      }
    }
  }

  lemma FrameSize(f: Frame)
    requires WellFormed(f)
    ensures |FrameBytes(f)| >= 2
    ensures |FrameBytes(f)| < 3 <==> f.PTF? && TextLength(f) == 0
  {
  }

  predicate ListFaithful(fs: seq<Frame>)
    requires AllWellFormed(fs)
  {
    Recoverable(fs) && !LoneEmptyText(fs)
  }

  /** The parser gives a list back exactly when behind a 0x02 frame there is only
      all-zero transit metadata, and the list is not a single frame without text. */
  lemma FrameListExact(fs: seq<Frame>)
    requires AllPackable(fs)
    ensures Extract(ListBytes(fs)) == Some(NormalList(fs)) <==> ListFaithful(fs)
  {
    RestExact(fs);
    ShortLists(fs);
    if fs != [] {
      ListBytesCons(fs);
      FrameSize(fs[0]);
    }
  }

  /** In particular every list of at least three bytes whose 0x02 frame, if any, is the last. */
  lemma FrameListInversion(fs: seq<Frame>)
    requires AllPackable(fs)
    requires forall i :: 0 <= i < |fs| - 1 ==> !Terminated(fs[i])
    requires fs == [] || |ListBytes(fs)| >= 3
    ensures Extract(ListBytes(fs)) == Some(NormalList(fs))
  {
    FrameListExact(fs);
    ShortLists(fs);
  }
}
