/** What holds in every run of the connection kernel, in any order of events. */
module KernelRuns {
  import opened Kernel

  // ---------------------------------------------------------------- runs

  lemma {:induction false} RunFromCons(c: Config, k: Globals, e: Event, es: seq<Event>)
    ensures RunFrom(c, k, [e] + es) == RunFrom(c, Step(c, k, e), es)
  {
    if es == [] {
      assert [e] + es == [e] && [e][..0] == [];
      assert RunFrom(c, k, [e][..0]) == k;
    } else {
      var n := |es| - 1;
      RunFromCons(c, k, e, es[..n]);
      assert ([e] + es)[..n + 1] == [e] + es[..n];
    }
  }

  // ---------------------------------------------------------------- the invariant

  /** States of a session whose join has been permitted. */
  predicate Joined(state: ProtocolState)
  {
    || state.NEGOTIATE_OPTIONS? || state.CHECK_READ_PERM? || state.RETRIEVE_POSTS? || state.IDLE?
    || state.CHECK_CHANGE_PERM? || state.CHECK_POST_PERM? || state.AMASS_POST? || state.REQUEST_RETRANSMIT?
    || state.ASSEMBLE_POST?
  }

  /** States of a session that waits for its permissions. */
  predicate Joining(state: ProtocolState)
  {
    state.CHECK_JOIN_PERM? || state.VERSION_NEGOTIATE_ALERT? || state.VERSION_NEGOTIATE_AWAIT?
  }

  predicate ChangeRequested(state: ProtocolState)
  {
    state == APPROVE_CHANGES || state == DENY_CHANGES
  }

  predicate Invariant(c: Config, k: Globals)
  {
    && (Joined(k.state) ==> Has(k.permissions, 1))
    && (k.state == RETRIEVE_POSTS ==> Has(k.permissions, READ_BIT))
    && (k.state == AMASS_POST || k.state == REQUEST_RETRANSMIT ==> Has(k.permissions, POST_BIT))
    && (k.state == APPROVE_CHANGES ==> Has(k.permissions, 32) || Has(k.permissions, 64))
    && k.state != CHECK_READ_PERM && k.state != CHECK_POST_PERM && k.state != ASSEMBLE_POST
    && (Joining(k.state) ==> k.pleaseFetch)
    && (k.usingVersion == c.protocolVersion || k.usingVersion in c.altVersions)
  }

  /** The default permissions allow joining and reading. */
  lemma DefaultPermissions()
    ensures Has(231, 1) && Has(231, READ_BIT)
  {
  }

  lemma GrantsKeepInvariant(c: Config, k: Globals)
    requires Invariant(c, k) && k.state == IDLE
    ensures Invariant(c, ReadGranted(k)) && Invariant(c, PostGranted(k))
  {
  }

  lemma ReceivedKeepsInvariant(c: Config, k: Globals, e: Event)
    requires Invariant(c, k) && e.Received?
    ensures Invariant(c, WhenReceived(c, k, e))
  {
    if k.state == IDLE {
      GrantsKeepInvariant(c, k);
    }
  }

  lemma LoadKeepsInvariant(c: Config, k: Globals, e: Event)
    requires Invariant(c, k) && e.Sent? && Has(k.permissions, READ_BIT)
    requires k.state == NEGOTIATE_OPTIONS || k.state == RETRIEVE_POSTS
    ensures Invariant(c, SentDuringLoad(c, k, e))
  {
  }

  lemma SentKeepsInvariant(c: Config, k: Globals, e: Event)
    requires Invariant(c, k) && e.Sent?
    ensures Invariant(c, WhenSent(c, k, e))
  {
    if (k.state == NEGOTIATE_OPTIONS && Has(k.permissions, READ_BIT)) || k.state == RETRIEVE_POSTS {
      LoadKeepsInvariant(c, k, e);
    }
  }

  lemma PermissionsKeepInvariant(c: Config, k: Globals, e: Event)
    requires Invariant(c, k) && (e.Given? || e.NoneStored?)
    ensures Invariant(c, Step(c, k, e))
  {
    DefaultPermissions();
  }

  lemma ChangesKeepInvariant(c: Config, k: Globals, e: Event)
    requires Invariant(c, k) && (e.ChangePermissions? || e.ChangeUser?)
    ensures Invariant(c, Step(c, k, e))
  {
  }

  lemma OthersKeepInvariant(c: Config, k: Globals, e: Event)
    requires Invariant(c, k)
    requires e.VersionResponse? || e.OptionsFailed? || e.Assembled? || e.GaveUp? || e.NoSuchChat?
    ensures Invariant(c, Step(c, k, e))
  {
  }

  lemma StepKeepsInvariant(c: Config, k: Globals, e: Event)
    requires Invariant(c, k)
    ensures Invariant(c, Step(c, k, e))
  {
    match e {
      case Received(_, _, _, _) => ReceivedKeepsInvariant(c, k, e);
      case Sent(_, _, _) => SentKeepsInvariant(c, k, e);
      case Given(_) => PermissionsKeepInvariant(c, k, e);
      case NoneStored => PermissionsKeepInvariant(c, k, e);
      case ChangePermissions => ChangesKeepInvariant(c, k, e);
      case ChangeUser(_) => ChangesKeepInvariant(c, k, e);
      case _ => OthersKeepInvariant(c, k, e);
    }
  }

  /** Permission safety and fresh permissions: the invariant holds after every run. */
  lemma {:induction false} InvariantOfAllRuns(c: Config, es: seq<Event>)
    ensures Invariant(c, Run(c, es))
  {
    if es == [] {
    } else {
      InvariantOfAllRuns(c, es[..|es| - 1]);
      StepKeepsInvariant(c, Run(c, es[..|es| - 1]), es[|es| - 1]);
    }
  }

  // ---------------------------------------------------------------- session history

  /** The latest exit from CLOSED was event i, a login, and its source ID is still in force. */
  predicate SessionSince(c: Config, es: seq<Event>, i: nat)
  {
    && i < |es|
    && IsLogin(es[i])
    && Run(c, es[..i]).state == CLOSED
    && (forall j :: i < j <= |es| ==> Run(c, es[..j]).state != CLOSED)
    && Run(c, es).sourceID == es[i].sid
  }

  /** Only a login, in CLOSED, sets the source ID. */
  lemma SourceIDKept(c: Config, k: Globals, e: Event)
    requires k.state != CLOSED
    ensures Step(c, k, e).sourceID == k.sourceID
  {
  }

  lemma SessionExtends(c: Config, es: seq<Event>, i: nat)
    requires es != [] && SessionSince(c, es[..|es| - 1], i)
    requires Run(c, es).state != CLOSED
    ensures SessionSince(c, es, i)
  {
    var init := es[..|es| - 1];
    assert init[..i] == es[..i];
    assert init[..|init|] == init && es[..|es|] == es;
    SourceIDKept(c, Run(c, init), es[|init|]);
    forall j | i < j <= |es|
      ensures Run(c, es[..j]).state != CLOSED
    {
      if j < |es| {
        assert es[..j] == init[..j];
      }
    }
  }

  /** Event j is a response that settles on another supported version. */
  predicate Accepted(c: Config, es: seq<Event>, j: nat)
    requires j < |es|
  {
    && es[j].VersionResponse? && es[j].header >> 5 == 7
    && Run(c, es[..j]).state == VERSION_NEGOTIATE_AWAIT && es[j].version in c.altVersions
  }

  /** The version in use comes from event v, the login i or the latest response accepted after it. */
  predicate VersionSince(c: Config, es: seq<Event>, i: nat, v: nat)
  {
    && i <= v < |es|
    && (if v == i then Run(c, es).usingVersion == c.protocolVersion
        else Accepted(c, es, v) && Run(c, es).usingVersion == es[v].version)
    && forall j :: v < j < |es| ==> !Accepted(c, es, j)
  }

  lemma VersionChanges(c: Config, es: seq<Event>)
    requires es != [] && Run(c, es[..|es| - 1]).state != CLOSED
    ensures Run(c, es).usingVersion ==
            if Accepted(c, es, |es| - 1) then es[|es| - 1].version else Run(c, es[..|es| - 1]).usingVersion
  {
  }

  lemma AcceptedEarlier(c: Config, es: seq<Event>, j: nat)
    requires j < |es| - 1
    ensures Accepted(c, es[..|es| - 1], j) <==> Accepted(c, es, j)
  {
    assert es[..|es| - 1][..j] == es[..j];
  }

  lemma VersionExtends(c: Config, es: seq<Event>, i: nat, v: nat)
    requires es != [] && VersionSince(c, es[..|es| - 1], i, v) && Run(c, es[..|es| - 1]).state != CLOSED
    ensures VersionSince(c, es, i, if Accepted(c, es, |es| - 1) then |es| - 1 else v)
  {
    VersionChanges(c, es);
    forall j | v <= j < |es| - 1
      ensures Accepted(c, es[..|es| - 1], j) <==> Accepted(c, es, j)
    {
      AcceptedEarlier(c, es, j);
    }
  }

  /** Outside CLOSED and the two change states there is a session, begun by login i, and its
      version is the protocol's own until a response settles on another one. */
  lemma {:induction false} SessionHistory(c: Config, es: seq<Event>) returns (i: nat, v: nat)
    requires Joined(Run(c, es).state) || Joining(Run(c, es).state)
    ensures SessionSince(c, es, i) && VersionSince(c, es, i, v)
    ensures Run(c, es).usingVersion == c.protocolVersion || Run(c, es).usingVersion in c.altVersions
  {
    InvariantOfAllRuns(c, es);
    var n := |es| - 1;
    assert es != [];
    var k := Run(c, es[..n]);
    if k.state == CLOSED {
      i, v := n, n;
      assert es[..|es|] == es;
    } else {
      i, v := SessionHistory(c, es[..n]);
      SessionExtends(c, es, i);
      VersionExtends(c, es, i, v);
      v := if Accepted(c, es, n) then n else v;
    }
  }

  // ---------------------------------------------------------------- fresh permissions

  function Supplied(e: Event): bv8
  {
    if e.Given? then e.given else 231
  }

  /** Event g supplied the permissions, and they have been in force in a joined session since. */
  predicate PermissionsSince(c: Config, es: seq<Event>, g: nat)
  {
    && g < |es|
    && Run(c, es[..g]).state == CHECK_JOIN_PERM
    && (es[g].Given? || es[g].NoneStored?)
    && (forall j :: g < j <= |es| ==>
          Joined(Run(c, es[..j]).state) && Run(c, es[..j]).permissions == Supplied(es[g]))
  }

  lemma PermissionsExtend(c: Config, es: seq<Event>, g: nat)
    requires es != [] && PermissionsSince(c, es[..|es| - 1], g)
    requires Joined(Run(c, es).state)
    ensures PermissionsSince(c, es, g)
  {
    var init := es[..|es| - 1];
    assert init[..g] == es[..g];
    assert init[..|init|] == init && es[..|es|] == es;
    assert Run(c, init).permissions == Supplied(es[g]);
    JoinedKeepsPermissions(c, Run(c, init), es[|init|]);
    forall j | g < j <= |es|
      ensures Joined(Run(c, es[..j]).state) && Run(c, es[..j]).permissions == Supplied(es[g])
    {
      if j < |es| {
        assert es[..j] == init[..j];
      }
    }
  }

  /** A session becomes joined only by being given permissions with the join bit. */
  lemma JoinedByPermissions(c: Config, k: Globals, e: Event)
    requires Invariant(c, k) && !Joined(k.state) && Joined(Step(c, k, e).state)
    ensures k.state == CHECK_JOIN_PERM && (e.Given? || e.NoneStored?)
    ensures Step(c, k, e).permissions == Supplied(e) && Has(Supplied(e), 1)
  {
    assert Has(231, 1);
  }

  lemma JoinedKeepsPermissions(c: Config, k: Globals, e: Event)
    requires Joined(k.state) && Joined(Step(c, k, e).state)
    ensures Step(c, k, e).permissions == k.permissions
  {
  }

  /** The byte that governs a joined session was supplied after that session's login,
      has the join bit, and has been constant since. */
  lemma {:induction false} FreshPermissions(c: Config, es: seq<Event>) returns (i: nat, g: nat)
    requires Joined(Run(c, es).state)
    ensures SessionSince(c, es, i) && i < g && PermissionsSince(c, es, g) && Has(Supplied(es[g]), 1)
  {
    InvariantOfAllRuns(c, es);
    var n := |es| - 1;
    assert es != [];
    InvariantOfAllRuns(c, es[..n]);
    var k := Run(c, es[..n]);
    assert es[..|es|] == es;
    if Joined(k.state) {
      i, g := FreshPermissions(c, es[..n]);
      SessionExtends(c, es, i);
      PermissionsExtend(c, es, g);
    } else {
      JoinedByPermissions(c, k, es[n]);
      var v: nat;
      i, v := SessionHistory(c, es[..n]);
      SessionExtends(c, es, i);
      g := n;
    }
  }

  // ---------------------------------------------------------------- change requests

  predicate IsChange(e: Event)
  {
    e.ChangePermissions? || e.ChangeUser?
  }

  predicate NoChange(es: seq<Event>)
  {
    forall i :: 0 <= i < |es| ==> !IsChange(es[i])
  }

  /** The change states are left by no event: whatever follows, the machine is in one of
      them, with the same permissions and source ID. */
  lemma {:induction false} ChangeStatesAbsorb(c: Config, k: Globals, es: seq<Event>)
    requires ChangeRequested(k.state)
    ensures ChangeRequested(RunFrom(c, k, es).state)
    ensures RunFrom(c, k, es) == k.(state := RunFrom(c, k, es).state)
  {
    if es == [] {
    } else {
      ChangeStatesAbsorb(c, k, es[..|es| - 1]);
    }
  }

  /** Approval is only ever given to a user change, the latest change request there was,
      and by the bit for that user; the bit for permission changes (128) approves nothing. */
  lemma {:induction false} ApprovalHistory(c: Config, es: seq<Event>) returns (g: nat)
    requires Run(c, es).state == APPROVE_CHANGES
    ensures g < |es| && es[g].ChangeUser? && NoChange(es[g + 1..])
    ensures Has(Run(c, es).permissions, if es[g].uid == Run(c, es).sourceID then 32 else 64)
  {
    var n := |es| - 1;
    assert es != [];
    var k, e := Run(c, es[..n]), es[n];
    if IsChange(e) {
      g := n;
    } else {
      assert k.state == APPROVE_CHANGES;
      g := ApprovalHistory(c, es[..n]);
      ChangeStatesAbsorb(c, k, [e]);
      assert es[g + 1..] == es[..n][g + 1..] + [e];
    }
  }

  // ---------------------------------------------------------------- a signed char

  /** States that can be left or entered without a header that sentMessage recognizes. */
  predicate BeforeOptions(state: ProtocolState)
  {
    || state == CLOSED || state == CHECK_JOIN_PERM || state == VERSION_NEGOTIATE_ALERT || state == NEGOTIATE_OPTIONS
    || ChangeRequested(state)
  }

  lemma SignedStep(c: Config, k: Globals, e: Event)
    requires c.signedChar && BeforeOptions(k.state)
    ensures BeforeOptions(Step(c, k, e).state)
  {
    if e.Sent? {
      assert !CharStarts(c, e.header, 4) && !CharStarts(c, e.header, 7);
    }
  }

  lemma {:induction false} SignedRuns(c: Config, es: seq<Event>)
    requires c.signedChar
    ensures BeforeOptions(Run(c, es).state)
  {
    if es == [] {
    } else {
      SignedRuns(c, es[..|es| - 1]);
      SignedStep(c, Run(c, es[..|es| - 1]), es[|es| - 1]);
    }
  }

  /** A session gets past its options in some run exactly when char is unsigned. */
  lemma OptionsPassedIff(c: Config)
    ensures (exists es :: !BeforeOptions(Run(c, es).state) && Run(c, es).state != VERSION_NEGOTIATE_AWAIT)
            <==> !c.signedChar
  {
    if c.signedChar {
      forall es ensures BeforeOptions(Run(c, es).state) {
        SignedRuns(c, es);
      }
    } else {
      var last := Sent(0x80, false, true);
      OptionsAgreed(c, [last]);
      DefaultPermissions();
      var k := Initial(c).(state := NEGOTIATE_OPTIONS, permissions := 231);
      assert [last][..0] == [] && RunFrom(c, k, [last]).state == IDLE;
      assert Run(c, [Received(0x80, c.protocolVersion, 0, [0x0C]), NoneStored] + [last]).state == IDLE;
    }
  }

  // ---------------------------------------------------------------- loads

  function Sends(es: seq<Event>): nat
  {
    if es == [] then 0 else Sends(es[..|es| - 1]) + if es[|es| - 1].Sent? then 1 else 0
  }

  predicate NoneOut(es: seq<Event>)
  {
    forall i :: 0 <= i < |es| ==> !(es[i].Sent? && es[i].outOfMessages)
  }

  /** After the events es a load that began with the counter at p still goes on: no send
      said there was nothing left, and the counter has not come to the limit. */
  predicate LoadGoesOn(limit: int, p: int, es: seq<Event>)
  {
    NoneOut(es) && (p >= limit || p + Sends(es) < limit)
  }

  /** PSentInLastLoad is a 32-bit int. */
  const INT_MAX: int := 0x7fff_ffff

  /** A load goes on through every event but a change request, counting only the sends, as long
      as the counter does not overflow. */
  lemma {:induction false} LoadContinues(c: Config, k: Globals, es: seq<Event>)
    requires k.state == RETRIEVE_POSTS && NoChange(es) && LoadGoesOn(c.sendLimit, k.sentInLastLoad, es)
    requires k.sentInLastLoad >= c.sendLimit ==> k.sentInLastLoad + Sends(es) <= INT_MAX
    ensures RunFrom(c, k, es) == k.(sentInLastLoad := k.sentInLastLoad + Sends(es))
  {
    if es == [] {
    } else {
      LoadContinues(c, k, es[..|es| - 1]);
    }
  }

  /** It ends, in IDLE, with the first send after which it does not go on. */
  lemma LoadEnds(c: Config, k: Globals, es: seq<Event>)
    requires k.state == RETRIEVE_POSTS && NoChange(es) && es != []
    requires k.sentInLastLoad >= c.sendLimit ==> k.sentInLastLoad + Sends(es) <= INT_MAX
    requires LoadGoesOn(c.sendLimit, k.sentInLastLoad, es[..|es| - 1])
    requires !LoadGoesOn(c.sendLimit, k.sentInLastLoad, es)
    ensures RunFrom(c, k, es) == k.(state := IDLE, sentInLastLoad := k.sentInLastLoad + Sends(es))
    ensures es[|es| - 1].Sent?
  {
    LoadContinues(c, k, es[..|es| - 1]);
    NoneOutSnoc(es);
  }

  lemma NoneOutSnoc(es: seq<Event>)
    requires es != []
    ensures NoneOut(es) <==> NoneOut(es[..|es| - 1]) && !(es[|es| - 1].Sent? && es[|es| - 1].outOfMessages)
  {
    var init := es[..|es| - 1];
    assert es == init + [es[|es| - 1]];
  }

  /** A load that began with the counter below the limit: it is on while fewer messages were
      sent than were missing to the limit, and none said it was the last. */
  lemma LoadIsOn(c: Config, k: Globals, es: seq<Event>)
    requires k.state == RETRIEVE_POSTS && NoChange(es) && NoneOut(es)
    requires k.sentInLastLoad + Sends(es) < c.sendLimit
    ensures RunFrom(c, k, es) == k.(sentInLastLoad := k.sentInLastLoad + Sends(es))
  {
    LoadContinues(c, k, es);
  }

  /** It is over right after the send that changes this. */
  lemma LoadIsOver(c: Config, k: Globals, es: seq<Event>)
    requires k.state == RETRIEVE_POSTS && NoChange(es) && es != [] && k.sentInLastLoad < c.sendLimit
    requires NoneOut(es[..|es| - 1]) && k.sentInLastLoad + Sends(es[..|es| - 1]) < c.sendLimit
    requires !(NoneOut(es) && k.sentInLastLoad + Sends(es) < c.sendLimit)
    ensures RunFrom(c, k, es) == k.(state := IDLE, sentInLastLoad := k.sentInLastLoad + Sends(es))
    ensures k.sentInLastLoad + Sends(es) <= c.sendLimit
  {
    LoadEnds(c, k, es);
  }

  lemma LoadBegins(c: Config, k: Globals, load: Event)
    requires k.state == IDLE && IsLoad(load) && Has(k.permissions, READ_BIT)
    ensures Step(c, k, load) == k.(state := RETRIEVE_POSTS, sentInLastLoad := 0)
  {
  }

  /** A received load frame starts a load of at most sendLimit sends: the machine is in
      RETRIEVE_POSTS while fewer were sent and none said it was the last, and in IDLE
      right after the send that changes this, whatever else happens in between. */
  lemma BoundedLoad(c: Config, k: Globals, load: Event, es: seq<Event>)
    requires k.state == IDLE && IsLoad(load) && Has(k.permissions, READ_BIT)
    requires c.sendLimit >= 1 && NoChange(es)
    ensures Sends(es) < c.sendLimit && NoneOut(es) ==>
              RunFrom(c, k, [load] + es) == k.(state := RETRIEVE_POSTS, sentInLastLoad := Sends(es))
    ensures es != [] && !(Sends(es) < c.sendLimit && NoneOut(es))
            && Sends(es[..|es| - 1]) < c.sendLimit && NoneOut(es[..|es| - 1]) ==>
              RunFrom(c, k, [load] + es) == k.(state := IDLE, sentInLastLoad := Sends(es)) && Sends(es) <= c.sendLimit
  {
    RunFromCons(c, k, load, es);
    LoadBegins(c, k, load);
    var begun := k.(state := RETRIEVE_POSTS, sentInLastLoad := 0);
    if Sends(es) < c.sendLimit && NoneOut(es) {
      LoadIsOn(c, begun, es);
    } else if es != [] && Sends(es[..|es| - 1]) < c.sendLimit && NoneOut(es[..|es| - 1]) {
      LoadIsOver(c, begun, es);
    }
  }

  // ---------------------------------------------------------------- the load after option negotiation

  /** The message that answers the options, which opens a load without resetting the counter. */
  predicate OpensLoad(c: Config, k: Globals, e: Event)
  {
    && k.state == NEGOTIATE_OPTIONS && Has(k.permissions, READ_BIT)
    && e.Sent? && CharStarts(c, e.header, 4) && !e.outOfMessages
  }

  lemma OptionsLoadBegins(c: Config, k: Globals, first: Event)
    requires OpensLoad(c, k, first)
    ensures Step(c, k, first) ==
            k.(state := if k.sentInLastLoad + 1 == c.sendLimit then IDLE else RETRIEVE_POSTS,
               sentInLastLoad := k.sentInLastLoad + 1)
  {
  }

  /** Below the limit it is bounded like any other load, by the messages missing to the limit. */
  lemma OptionsLoadBounded(c: Config, k: Globals, first: Event, es: seq<Event>)
    requires OpensLoad(c, k, first) && NoChange(es) && k.sentInLastLoad + 1 < c.sendLimit
    ensures k.sentInLastLoad + 1 + Sends(es) < c.sendLimit && NoneOut(es) ==>
              RunFrom(c, k, [first] + es).state == RETRIEVE_POSTS
    ensures es != [] && !(k.sentInLastLoad + 1 + Sends(es) < c.sendLimit && NoneOut(es))
            && k.sentInLastLoad + 1 + Sends(es[..|es| - 1]) < c.sendLimit && NoneOut(es[..|es| - 1]) ==>
              RunFrom(c, k, [first] + es).state == IDLE
  {
    RunFromCons(c, k, first, es);
    OptionsLoadBegins(c, k, first);
    var begun := k.(state := RETRIEVE_POSTS, sentInLastLoad := k.sentInLastLoad + 1);
    if k.sentInLastLoad + 1 + Sends(es) < c.sendLimit && NoneOut(es) {
      LoadIsOn(c, begun, es);
    } else if es != [] && k.sentInLastLoad + 1 + Sends(es[..|es| - 1]) < c.sendLimit && NoneOut(es[..|es| - 1]) {
      LoadIsOver(c, begun, es);
    }
  }

  /** From the limit on no number of messages ends it, until the counter overflows. */
  lemma OptionsLoadUnbounded(c: Config, k: Globals, first: Event, es: seq<Event>)
    requires OpensLoad(c, k, first) && NoChange(es) && NoneOut(es) && k.sentInLastLoad >= c.sendLimit
    requires k.sentInLastLoad + 1 + Sends(es) <= INT_MAX
    ensures RunFrom(c, k, [first] + es) ==
            k.(state := RETRIEVE_POSTS, sentInLastLoad := k.sentInLastLoad + 1 + Sends(es))
  {
    RunFromCons(c, k, first, es);
    OptionsLoadBegins(c, k, first);
    LoadContinues(c, k.(state := RETRIEVE_POSTS, sentInLastLoad := k.sentInLastLoad + 1), es);
  }

  const MESSAGE: Event := Sent(0x80, false, false)

  /** n messages, none of which is said to be the last. */
  function MoreMessages(n: nat): seq<Event>
  {
    if n == 0 then [] else MoreMessages(n - 1) + [MESSAGE]
  }

  lemma {:induction false} AllMessages(n: nat)
    ensures |MoreMessages(n)| == n && forall i :: 0 <= i < n ==> MoreMessages(n)[i] == MESSAGE
  {
    if n == 0 {
    } else {
      AllMessages(n - 1);
    }
  }

  lemma {:induction false} SendsCounted(es: seq<Event>)
    requires forall i :: 0 <= i < |es| ==> es[i] == MESSAGE
    ensures Sends(es) == |es|
  {
    if es == [] {
    } else {
      SendsCounted(es[..|es| - 1]);
    }
  }

  lemma MessagesSent(n: nat)
    ensures Sends(MoreMessages(n)) == |MoreMessages(n)| == n && NoneOut(MoreMessages(n)) && NoChange(MoreMessages(n))
  {
    AllMessages(n);
    SendsCounted(MoreMessages(n));
  }

  /** Where char is signed no message opens the load. */
  lemma {:induction false} MessagesIgnored(c: Config, k: Globals, es: seq<Event>)
    requires k.state == NEGOTIATE_OPTIONS && c.signedChar && forall i :: 0 <= i < |es| ==> es[i] == MESSAGE
    ensures RunFrom(c, k, es) == k
  {
    if es == [] {
    } else {
      MessagesIgnored(c, k, es[..|es| - 1]);
    }
  }

  /** The load after option negotiation begins and ends of itself exactly when char is unsigned
      and the counter begins below the limit. */
  lemma OptionsLoadEndsIff(c: Config, k: Globals)
    requires k.state == NEGOTIATE_OPTIONS && Has(k.permissions, READ_BIT) && c.sendLimit <= INT_MAX
    ensures
      (exists n: nat :: k.sentInLastLoad + 1 + n <= INT_MAX && RunFrom(c, k, [MESSAGE] + MoreMessages(n)).state == IDLE)
      <==> !c.signedChar && k.sentInLastLoad < c.sendLimit
  {
    if !c.signedChar && k.sentInLastLoad < c.sendLimit {
      OptionsLoadEnds(c, k);
    } else {
      forall n: nat | k.sentInLastLoad + 1 + n <= INT_MAX
        ensures RunFrom(c, k, [MESSAGE] + MoreMessages(n)).state != IDLE
      {
        MessagesSent(n);
        if c.signedChar {
          AllMessages(n);
          MessagesIgnored(c, k, [MESSAGE] + MoreMessages(n));
        } else {
          OptionsLoadUnbounded(c, k, MESSAGE, MoreMessages(n));
        }
      }
    }
  }

  lemma OptionsLoadEnds(c: Config, k: Globals)
    requires OpensLoad(c, k, MESSAGE) && k.sentInLastLoad < c.sendLimit <= INT_MAX
    ensures var n := c.sendLimit - k.sentInLastLoad - 1; RunFrom(c, k, [MESSAGE] + MoreMessages(n)).state == IDLE
  {
    var n := c.sendLimit - k.sentInLastLoad - 1;
    if n == 0 {
      RunFromCons(c, k, MESSAGE, []);
      OptionsLoadBegins(c, k, MESSAGE);
    } else {
      MessagesSent(n);
      MessagesSent(n - 1);
      assert MoreMessages(n)[..n - 1] == MoreMessages(n - 1);
      OptionsLoadBounded(c, k, MESSAGE, MoreMessages(n));
    }
  }

  /** The login of an unknown user, the reply that opens the load, and n more messages. */
  function FirstLoad(c: Config, n: nat): seq<Event>
  {
    [Received(0x80, c.protocolVersion, 0, [0x0C]), NoneStored] + ([MESSAGE] + MoreMessages(n))
  }

  lemma OptionsAgreed(c: Config, es: seq<Event>)
    ensures
      var k := Initial(c).(state := NEGOTIATE_OPTIONS, permissions := 231);
      Run(c, [Received(0x80, c.protocolVersion, 0, [0x0C]), NoneStored] + es) == RunFrom(c, k, es)
  {
    var login := Received(0x80, c.protocolVersion, 0, [0x0C]);
    assert [login, NoneStored] + es == [login] + ([NoneStored] + es);
    RunFromCons(c, Initial(c), login, [NoneStored] + es);
    RunFromCons(c, Step(c, Initial(c), login), NoneStored, es);
  }

  /** In a new process the counter starts at the limit: the first load goes on for any number
      of messages that the counter can count. */
  lemma FirstLoadIsUnbounded(c: Config, n: nat)
    requires !c.signedChar && c.sendLimit + n + 1 <= INT_MAX
    ensures Run(c, FirstLoad(c, n)).state == RETRIEVE_POSTS
    ensures Run(c, FirstLoad(c, n)).sentInLastLoad == c.sendLimit + n + 1
  {
    OptionsAgreed(c, [MESSAGE] + MoreMessages(n));
    DefaultPermissions();
    MessagesSent(n);
    OptionsLoadUnbounded(c, Initial(c).(state := NEGOTIATE_OPTIONS, permissions := 231), MESSAGE, MoreMessages(n));
  }

  /** With the limit of 50 that the source sets, over two thousand million messages. */
  lemma FirstLoadInSource()
    ensures Run(SOURCE_CONFIG, FirstLoad(SOURCE_CONFIG, 2_000_000_000)).state == RETRIEVE_POSTS
  {
    FirstLoadIsUnbounded(SOURCE_CONFIG, 2_000_000_000);
  }
}
