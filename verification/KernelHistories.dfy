/** What a run of the connection kernel tells of the events that made it. */
module KernelHistories {
  import opened Bytes
  import opened Kernel
  import opened KernelRuns
  import opened KernelLaws

  lemma RunSnoc(c: Config, es: seq<Event>, e: Event)
    ensures Run(c, es + [e]) == Step(c, Run(c, es), e) && Invariant(c, Run(c, es))
  {
    assert (es + [e])[..|es|] == es;
    InvariantOfAllRuns(c, es);
  }

  lemma RunLast(c: Config, es: seq<Event>)
    requires es != []
    ensures Run(c, es) == Step(c, Run(c, es[..|es| - 1]), es[|es| - 1]) && Invariant(c, Run(c, es[..|es| - 1]))
  {
    InvariantOfAllRuns(c, es[..|es| - 1]);
  }

  // ---------------------------------------------------------------- before the first login

  /** Nothing but a login or a change request does anything in a new process. */
  lemma {:induction false} NothingBeforeLogin(c: Config, es: seq<Event>)
    requires NoChange(es) && forall i :: 0 <= i < |es| ==> !Login(es[i])
    ensures Run(c, es) == Globals(CLOSED, false, 0, c.protocolVersion, 255, 0, 0, c.sendLimit, 0)
  {
    if es == [] {
    } else {
      NothingBeforeLogin(c, es[..|es| - 1]);
    }
  }

  /** A user change that comes before the first login is approved, whoever asks. */
  lemma ApprovedBeforeLogin(c: Config, es: seq<Event>, uid: nat)
    requires NoChange(es) && forall i :: 0 <= i < |es| ==> !Login(es[i])
    ensures Run(c, es + [ChangeUser(uid)]).state == APPROVE_CHANGES
  {
    NothingBeforeLogin(c, es);
    RunSnoc(c, es, ChangeUser(uid));
    ChangeBits();
  }

  lemma ChangeBits()
    ensures Has(255, 32) && Has(255, 64)
  {
  }

  // ---------------------------------------------------------------- logging in

  /** A login, and nothing else but a change request, leads out of CLOSED. */
  lemma LoginOpens(c: Config, es: seq<Event>, e: Event)
    requires Run(c, es).state == CLOSED && !IsChange(e)
    ensures
      var k, k' := Run(c, es), Run(c, es + [e]);
      if e.Received? && e.header >> 5 == 4 && 0x0C in e.frameTypes then
        && k' == k.(state := k'.state, pleaseFetch := true, sourceID := e.sid, usingVersion := c.protocolVersion)
        && k'.state == if e.version == c.protocolVersion then CHECK_JOIN_PERM else VERSION_NEGOTIATE_ALERT
      else k' == k
  {
    RunSnoc(c, es, e);
  }

  /** While the version is negotiated only these messages count: the alert that is sent, and a
      response, which settles on a supported version or closes. */
  lemma AlertLeft(c: Config, es: seq<Event>, e: Event)
    requires Run(c, es).state == VERSION_NEGOTIATE_ALERT && !IsChange(e)
    ensures
      var k, k' := Run(c, es), Run(c, es + [e]);
      k' == if e.Sent? && e.header >> 5 == 7 && !c.signedChar then k.(state := VERSION_NEGOTIATE_AWAIT) else k
  {
    RunSnoc(c, es, e);
  }

  lemma AwaitLeft(c: Config, es: seq<Event>, e: Event)
    requires Run(c, es).state == VERSION_NEGOTIATE_AWAIT && !IsChange(e)
    ensures
      var k, k' := Run(c, es), Run(c, es + [e]);
      && (k'.state != VERSION_NEGOTIATE_AWAIT <==> e.VersionResponse? && e.header >> 5 == 7)
      && (k'.state == VERSION_NEGOTIATE_AWAIT ==> k' == k)
      && (k'.state != VERSION_NEGOTIATE_AWAIT ==>
            k' == if e.version in c.altVersions then k.(state := CHECK_JOIN_PERM, usingVersion := e.version)
                  else k.(state := CLOSED, kickReason := 2))
  {
    RunSnoc(c, es, e);
  }

  lemma SessionBefore(c: Config, es: seq<Event>, i: nat)
    requires SessionSince(c, es, i) && i < |es| - 1
    ensures SessionSince(c, es[..|es| - 1], i) && Run(c, es[..|es| - 1]).state != CLOSED
  {
    var before := es[..|es| - 1];
    assert before[..i] == es[..i];
    forall j | i < j <= |before|
      ensures Run(c, before[..j]).state != CLOSED
    {
      assert before[..j] == es[..j];
    }
    assert before[..|before|] == before;
    SourceIDKept(c, Run(c, before), es[|before|]);
  }

  lemma AlertAtLogin(c: Config, k: Globals, e: Event)
    requires k.state == CLOSED && IsLogin(e) && e.version != c.protocolVersion
    ensures Step(c, k, e).state == VERSION_NEGOTIATE_ALERT
  {
  }

  lemma ReadyBefore(c: Config, k: Globals, e: Event)
    requires k.state != CLOSED && (Step(c, k, e).state == CHECK_JOIN_PERM || Joined(Step(c, k, e).state))
    requires !(k.state == VERSION_NEGOTIATE_AWAIT && e.VersionResponse? && e.header >> 5 == 7
               && e.version in c.altVersions)
    ensures k.state == CHECK_JOIN_PERM || Joined(k.state)
  {
  }

  /** A user who logged in with another version joins only after a response with a supported one
      was accepted. */
  lemma {:induction false} UnsupportedNeverJoins(c: Config, es: seq<Event>, i: nat) returns (v: nat)
    requires SessionSince(c, es, i) && es[i].version != c.protocolVersion
    requires Run(c, es).state == CHECK_JOIN_PERM || Joined(Run(c, es).state)
    ensures i < v < |es| && Accepted(c, es, v)
  {
    var n := |es| - 1;
    RunLast(c, es);
    if i < n {
      if Accepted(c, es, n) {
        v := n;
      } else {
        SessionBefore(c, es, i);
        ReadyBefore(c, Run(c, es[..n]), es[n]);
        v := UnsupportedNeverJoins(c, es[..n], i);
        AcceptedEarlier(c, es, v);
      }
    } else {
      AlertAtLogin(c, Run(c, es[..n]), es[n]);
    }
  }

  // ---------------------------------------------------------------- permissions

  /** The permissions given decide whether the user who waits for them joins. */
  lemma PermissionsDecide(c: Config, es: seq<Event>, p: bv8)
    requires Run(c, es).state == CHECK_JOIN_PERM
    ensures
      var k, k' := Run(c, es), Run(c, es + [Given(p)]);
      && (Joined(k'.state) <==> p & 1 != 0)
      && k' == if p & 1 != 0 then k.(state := NEGOTIATE_OPTIONS, pleaseFetch := false, permissions := p)
               else k.(state := CLOSED, pleaseFetch := false, permissions := p, kickReason := 3)
  {
    RunSnoc(c, es, Given(p));
  }

  /** A user without stored permissions joins with the default ones. */
  lemma DefaultsDecide(c: Config, es: seq<Event>)
    requires Run(c, es).state == CHECK_JOIN_PERM
    ensures
      Run(c, es + [NoneStored]) == Run(c, es).(state := NEGOTIATE_OPTIONS, pleaseFetch := false, permissions := 231)
  {
    RunSnoc(c, es, NoneStored);
  }

  /** What else can happen to a user who waits for permissions. */
  lemma JoinWaits(c: Config, es: seq<Event>, e: Event)
    requires Run(c, es).state == CHECK_JOIN_PERM && !IsChange(e) && !e.Given? && !e.NoneStored?
    ensures
      var k, k' := Run(c, es), Run(c, es + [e]);
      k' == if e.Received? && e.version != c.protocolVersion then k.(state := VERSION_NEGOTIATE_ALERT)
            else if e == GaveUp then k.(state := CLOSED, kickReason := 4)
            else if e == NoSuchChat then k.(state := CLOSED, kickReason := 255)
            else k
  {
    RunSnoc(c, es, e);
  }

  // ---------------------------------------------------------------- options and requests

  lemma OptionsLeft(c: Config, es: seq<Event>, e: Event)
    requires Run(c, es).state == NEGOTIATE_OPTIONS && !IsChange(e)
    ensures
      var k, k' := Run(c, es), Run(c, es + [e]);
      if e == OptionsFailed then k' == k.(state := CLOSED, kickReason := 2)
      else if !(e.Sent? && e.header >> 5 == 4 && !c.signedChar) then k' == k
      else if k.permissions & 2 == 0 then k' == k.(state := IDLE)
      else k' == k.(state := if k.sentInLastLoad + 1 == c.sendLimit || e.outOfMessages then IDLE else RETRIEVE_POSTS,
                    sentInLastLoad := k.sentInLastLoad + 1)
  {
    RunSnoc(c, es, e);
  }

  /** What a joined user can ask for. */
  lemma IdleAnswers(c: Config, k: Globals, e: Event)
    requires k.state == IDLE && e.Received?
    ensures
      var k' := Step(c, k, e);
      && (k'.state == CLOSED <==> e.header >> 5 == 4 && 0x0E in e.frameTypes)
      && (k'.state == CHECK_CHANGE_PERM <==> e.header >> 5 == 5 && 0x09 in e.frameTypes)
      && (k'.state == RETRIEVE_POSTS <==>
            e.header >> 5 !in {4, 5} && 0x07 in e.frameTypes && k.permissions & 2 != 0)
      && (k'.state == REQUEST_RETRANSMIT <==>
            e.header >> 5 !in {4, 5} && 0x07 !in e.frameTypes && e.frameTypes != [] && k.permissions & 4 != 0)
      && k'.state in {CLOSED, CHECK_CHANGE_PERM, RETRIEVE_POSTS, REQUEST_RETRANSMIT, IDLE}
      && k' == k.(state := k'.state,
                  sentInLastLoad := if k'.state == RETRIEVE_POSTS then 0 else k.sentInLastLoad,
                  amassTotal := if k'.state == REQUEST_RETRANSMIT then 0 else k.amassTotal)
  {
  }

  /** Other events do nothing to a session without a request, nor does any to one whose request
      for a change is awaited. */
  lemma {:induction false} RequestsAwaited(c: Config, k: Globals, es: seq<Event>)
    requires k.state == IDLE || k.state == CHECK_CHANGE_PERM
    requires NoChange(es) && forall i :: 0 <= i < |es| ==> k.state == CHECK_CHANGE_PERM || !es[i].Received?
    ensures RunFrom(c, k, es) == k
  {
    if es == [] {
    } else {
      RequestsAwaited(c, k, es[..|es| - 1]);
    }
  }

  // ---------------------------------------------------------------- closing

  /** An event closes a session exactly in these cases, with these reasons. */
  lemma ClosingLaw(c: Config, es: seq<Event>, e: Event)
    requires Run(c, es).state != CLOSED
    ensures
      var k, k' := Run(c, es), Run(c, es + [e]);
      var loggedOut := k.state == IDLE && e.Received? && e.header >> 5 == 4 && 0x0E in e.frameTypes;
      var unsupported :=
        k.state == VERSION_NEGOTIATE_AWAIT && e.VersionResponse? && e.header >> 5 == 7 && e.version !in c.altVersions;
      var refused := k.state == CHECK_JOIN_PERM && e.Given? && e.given & 1 == 0;
      var failed := k.state == NEGOTIATE_OPTIONS && e == OptionsFailed;
      var gaveUp, noChat := k.state == CHECK_JOIN_PERM && e == GaveUp, k.state == CHECK_JOIN_PERM && e == NoSuchChat;
      && (k'.state == CLOSED <==> loggedOut || unsupported || refused || failed || gaveUp || noChat)
      && k'.kickReason == if unsupported || failed then 2 else if refused then 3 else if gaveUp then 4
                          else if noChat then 255 else k.kickReason
  {
    RunSnoc(c, es, e);
    EntersIff(c, Run(c, es), e, CLOSED);
    KicksStep(c, Run(c, es), e);
    KickReasons(c, Run(c, es), e);
  }

  lemma KickReasons(c: Config, k: Globals, e: Event)
    ensures VersionRefused(c, k, e) || OptionsRefused(k, e) ==> Kicks(c, k, e, 2)
    ensures JoinRefused(k, e) ==> Kicks(c, k, e, 3)
    ensures JoinAbandoned(k, e) ==> Kicks(c, k, e, if e == GaveUp then 4 else 255)
    ensures (exists reason :: Kicks(c, k, e, reason)) ==> Closes(c, k, e) && !LoggedOut(k, e)
  {
  }

  /** Event j closed the session for that reason. */
  predicate KickedAt(c: Config, es: seq<Event>, j: nat, reason: nat)
    requires j < |es|
  {
    Kicks(c, Run(c, es[..j]), es[j], reason)
  }

  ghost predicate NoKickFrom(c: Config, es: seq<Event>, from: nat)
  {
    forall j, reason :: from <= j < |es| ==> !KickedAt(c, es, j, reason)
  }

  lemma NoKickSnoc(c: Config, es: seq<Event>, from: nat)
    requires es != [] && from < |es| && NoKickFrom(c, es[..|es| - 1], from)
    requires NoKick(c, Run(c, es[..|es| - 1]), es[|es| - 1])
    ensures NoKickFrom(c, es, from)
  {
    var before := es[..|es| - 1];
    forall j, reason | from <= j < |es|
      ensures !KickedAt(c, es, j, reason)
    {
      if j < |before| {
        assert before[..j] == es[..j] && !KickedAt(c, before, j, reason);
      }
    }
  }

  /** The kick reason is 0 until somebody is kicked, and then that of the latest kick j. */
  lemma {:induction false} KickHistory(c: Config, es: seq<Event>) returns (j: Option<nat>)
    ensures
      match j
      case None => Run(c, es).kickReason == 0 && NoKickFrom(c, es, 0)
      case Some(i) => i < |es| && KickedAt(c, es, i, Run(c, es).kickReason) && NoKickFrom(c, es, i + 1)
  {
    if es == [] {
      j := None;
    } else {
      var n := |es| - 1;
      var k := Run(c, es[..n]);
      RunLast(c, es);
      KicksStep(c, k, es[n]);
      if reason :| Kicks(c, k, es[n], reason) {
        j := Some(n);
      } else {
        j := KickHistory(c, es[..n]);
        NoKickSnoc(c, es, if j == None then 0 else j.value + 1);
        if j != None {
          assert es[..n][..j.value] == es[..j.value];
        }
      }
    }
  }

  // ---------------------------------------------------------------- changes

  /** Every change request leads into a change state, from any state, and this is the answer. */
  lemma ChangeAnswered(c: Config, k: Globals, e: Event)
    requires IsChange(e)
    ensures Step(c, k, e) == k.(state := Step(c, k, e).state) && ChangeRequested(Step(c, k, e).state)
    ensures Step(c, k, e).state == APPROVE_CHANGES <==>
            e.ChangeUser? && k.permissions & (if e.uid == k.sourceID then 32 else 64) != 0
  {
  }

  /** No other event changes anything in the change states. */
  lemma AnswerStays(c: Config, k: Globals, e: Event)
    requires !IsChange(e)
    ensures ChangeRequested(Step(c, k, e).state) ==> ChangeRequested(k.state)
    ensures ChangeRequested(k.state) ==> Step(c, k, e) == k
  {
    if e.Received? {
      assert WhenReceived(c, k, e).state == k.state || !ChangeRequested(WhenReceived(c, k, e).state);
    } else if e.Sent? {
      assert WhenSent(c, k, e).state == k.state || !ChangeRequested(WhenSent(c, k, e).state);
    }
  }

  lemma NoChangeSnoc(es: seq<Event>, g: nat)
    requires g < |es| - 1 && NoChange(es[..|es| - 1][g + 1..]) && !IsChange(es[|es| - 1])
    ensures NoChange(es[g + 1..])
  {
    assert es[g + 1..] == es[..|es| - 1][g + 1..] + [es[|es| - 1]];
  }

  /** In the change states the latest change request has been answered, and this is the answer. */
  lemma {:induction false} ChangeVerdict(c: Config, es: seq<Event>) returns (g: nat)
    requires ChangeRequested(Run(c, es).state)
    ensures g < |es| && IsChange(es[g]) && NoChange(es[g + 1..])
    ensures Run(c, es).state == APPROVE_CHANGES <==>
            && es[g].ChangeUser?
            && Run(c, es).permissions & (if es[g].uid == Run(c, es).sourceID then 32 else 64) != 0
  {
    var n := |es| - 1;
    assert es != [];
    RunLast(c, es);
    if IsChange(es[n]) {
      g := n;
      ChangeAnswered(c, Run(c, es[..n]), es[n]);
    } else {
      AnswerStays(c, Run(c, es[..n]), es[n]);
      g := ChangeVerdict(c, es[..n]);
      NoChangeSnoc(es, g);
    }
  }

  // ---------------------------------------------------------------- posts

  /** The latest message of a post, received or asked for again, is one that was asked for. */
  predicate LatestAsks(es: seq<Event>)
  {
    exists j :: 0 <= j < |es| && es[j].Sent? && es[j].hadRetransmitFrame && NoneReceived(es[j + 1..])
  }

  predicate NoneReceived(es: seq<Event>)
  {
    forall i :: 0 <= i < |es| ==> !es[i].Received?
  }

  lemma LatestAsksSnoc(es: seq<Event>, e: Event)
    ensures LatestAsks(es + [e]) <==> (e.Sent? && e.hadRetransmitFrame) || (LatestAsks(es) && !e.Received?)
  {
    var longer := es + [e];
    if e.Sent? && e.hadRetransmitFrame {
      assert longer[|es|] == e && NoneReceived(longer[|es| + 1..]);
    }
    if LatestAsks(es) && !e.Received? {
      var j :| 0 <= j < |es| && es[j].Sent? && es[j].hadRetransmitFrame && NoneReceived(es[j + 1..]);
      assert longer[j] == es[j] && longer[j + 1..] == es[j + 1..] + [e];
    }
    if LatestAsks(longer) {
      var j :| 0 <= j < |longer| && longer[j].Sent? && longer[j].hadRetransmitFrame && NoneReceived(longer[j + 1..]);
      if j < |es| {
        var tail := es[j + 1..];
        assert longer[j + 1..] == tail + [e];
        assert (tail + [e])[|tail|] == e;
        assert forall i :: 0 <= i < |tail| ==> tail[i] == (tail + [e])[i];
      }
    }
  }

  lemma PostStep(c: Config, k: Globals, e: Event)
    requires (k.state == REQUEST_RETRANSMIT || k.state == AMASS_POST) && !IsChange(e)
    ensures Step(c, k, e) == k.(state := if e.Sent? && e.hadRetransmitFrame then AMASS_POST
                                         else if e.Received? then REQUEST_RETRANSMIT else k.state)
  {
  }

  /** Once a post has begun it goes on for ever: whether the next message is awaited depends on the
      latest message only. */
  lemma {:induction false} RetransmitLaw(c: Config, k: Globals, es: seq<Event>)
    requires k.state == REQUEST_RETRANSMIT && NoChange(es)
    ensures RunFrom(c, k, es) == if LatestAsks(es) then k.(state := AMASS_POST) else k
  {
    if es == [] {
    } else {
      var n := |es| - 1;
      RetransmitLaw(c, k, es[..n]);
      PostStep(c, RunFrom(c, k, es[..n]), es[n]);
      assert es == es[..n] + [es[n]];
      LatestAsksSnoc(es[..n], es[n]);
    }
  }

  /** A post is admitted exactly with bit 4, and then it never ends. */
  lemma PostAdmitted(c: Config, k: Globals, post: Event, es: seq<Event>)
    requires k.state == IDLE && NoChange(es)
    requires post.Received? && post.header >> 5 !in {4, 5} && 0x07 !in post.frameTypes && post.frameTypes != []
    ensures
      if k.permissions & 4 != 0 then
        RunFrom(c, k, [post] + es) ==
        k.(state := if LatestAsks(es) then AMASS_POST else REQUEST_RETRANSMIT, amassTotal := 0)
      else RunFrom(c, k, [post] + es) == RunFrom(c, k, es)
  {
    RunFromCons(c, k, post, es);
    IdleAnswers(c, k, post);
    if k.permissions & 4 != 0 {
      RetransmitLaw(c, k.(state := REQUEST_RETRANSMIT, amassTotal := 0), es);
    }
  }

  /** No message of a post is ever counted. */
  lemma {:induction false} NothingAmassed(c: Config, es: seq<Event>)
    ensures Run(c, es).amassTotal == Run(c, es).amassExpect == 0
  {
    if es == [] {
    } else {
      NothingAmassed(c, es[..|es| - 1]);
      RunLast(c, es);
      StepVariables(c, Run(c, es[..|es| - 1]), es[|es| - 1]);
    }
  }

  // ---------------------------------------------------------------- states inside one call

  /** What the code says of the three states that are never left standing between two calls. */
  lemma PassingStates(c: Config, k: Globals, e: Event)
    requires !IsChange(e)
    ensures
      var k' := Step(c, k, e);
      && (k.state == CHECK_READ_PERM && e.Received? ==>
            k' == if k.permissions & 2 != 0 then k.(state := RETRIEVE_POSTS, sentInLastLoad := 0)
                  else k.(state := IDLE))
      && (k.state == CHECK_READ_PERM && e.Sent? ==>
            k' == if k.permissions & 2 == 0 then k.(state := IDLE)
                  else k.(state := if k.sentInLastLoad + 1 == c.sendLimit || e.outOfMessages then IDLE
                                   else RETRIEVE_POSTS,
                          sentInLastLoad := k.sentInLastLoad + 1))
      && (k.state == CHECK_POST_PERM && e.Received? ==>
            k' == if k.permissions & 4 != 0 then k.(state := REQUEST_RETRANSMIT, amassTotal := 0)
                  else k.(state := IDLE))
      && (k.state == ASSEMBLE_POST ==> k' == if e == Assembled then k.(state := IDLE) else k)
  {
  }
}
