/** The connection kernel read the other way round: for each state what leads into it, for each
    variable what changes it, and what that means for whole runs. */
module KernelLaws {
  import opened Kernel
  import opened KernelRuns

  // ---------------------------------------------------------------- messages

  predicate Login(e: Event)
  {
    e.Received? && e.header >> 5 == 4 && 0x0C in e.frameTypes
  }

  predicate Logout(e: Event)
  {
    e.Received? && e.header >> 5 == 4 && 0x0E in e.frameTypes
  }

  predicate ChangeMessage(e: Event)
  {
    e.Received? && e.header >> 5 == 5 && 0x09 in e.frameTypes
  }

  predicate LoadMessage(e: Event)
  {
    e.Received? && e.header >> 5 !in {4, 5} && 0x07 in e.frameTypes
  }

  predicate PostMessage(e: Event)
  {
    e.Received? && e.header >> 5 !in {4, 5} && 0x07 !in e.frameTypes && e.frameTypes != []
  }

  /** A sent message that starts with these three bits, which only an unsigned char shows. */
  predicate Announces(c: Config, e: Event, top: bv8)
  {
    !c.signedChar && e.Sent? && e.header >> 5 == top
  }

  /** A version response. */
  predicate Responds(e: Event)
  {
    e.VersionResponse? && e.header >> 5 == 7
  }

  /** The message sent is the last of its load. */
  predicate Last(c: Config, k: Globals, e: Event)
  {
    e.Sent? && (k.sentInLastLoad + 1 == c.sendLimit || e.outOfMessages)
  }

  // ---------------------------------------------------------------- what leads into each state

  predicate VersionRefused(c: Config, k: Globals, e: Event)
  {
    k.state == VERSION_NEGOTIATE_AWAIT && Responds(e) && e.version !in c.altVersions
  }

  predicate JoinRefused(k: Globals, e: Event)
  {
    k.state == CHECK_JOIN_PERM && e.Given? && e.given & 1 == 0
  }

  predicate OptionsRefused(k: Globals, e: Event)
  {
    k.state == NEGOTIATE_OPTIONS && e == OptionsFailed
  }

  predicate LoggedOut(k: Globals, e: Event)
  {
    k.state == IDLE && Logout(e)
  }

  predicate JoinAbandoned(k: Globals, e: Event)
  {
    k.state == CHECK_JOIN_PERM && (e == GaveUp || e == NoSuchChat)
  }

  predicate Closes(c: Config, k: Globals, e: Event)
  {
    LoggedOut(k, e) || VersionRefused(c, k, e) || JoinRefused(k, e) || OptionsRefused(k, e) || JoinAbandoned(k, e)
  }

  predicate Approves(k: Globals, e: Event)
  {
    e.ChangeUser? && if e.uid == k.sourceID then k.permissions & 32 != 0 else k.permissions & 64 != 0
  }

  /** The event takes the machine into that state. */
  predicate Enters(c: Config, k: Globals, e: Event, to: ProtocolState)
  {
    match to
    case CLOSED => Closes(c, k, e)
    case CHECK_JOIN_PERM =>
      || (k.state == CLOSED && Login(e) && e.version == c.protocolVersion)
      || (k.state == VERSION_NEGOTIATE_AWAIT && Responds(e) && e.version in c.altVersions)
    case VERSION_NEGOTIATE_ALERT =>
      && ((k.state == CLOSED && Login(e)) || (k.state == CHECK_JOIN_PERM && e.Received?))
      && e.version != c.protocolVersion
    case VERSION_NEGOTIATE_AWAIT => k.state == VERSION_NEGOTIATE_ALERT && Announces(c, e, 7)
    case NEGOTIATE_OPTIONS => k.state == CHECK_JOIN_PERM && ((e.Given? && e.given & 1 != 0) || e == NoneStored)
    case RETRIEVE_POSTS =>
      && k.permissions & 2 != 0
      && ((k.state == IDLE && LoadMessage(e)) || (k.state == NEGOTIATE_OPTIONS && Announces(c, e, 4) && !Last(c, k, e)))
    case IDLE =>
      || (k.state == NEGOTIATE_OPTIONS && Announces(c, e, 4) && (k.permissions & 2 == 0 || Last(c, k, e)))
      || (k.state == RETRIEVE_POSTS && Last(c, k, e))
    case CHECK_CHANGE_PERM => k.state == IDLE && ChangeMessage(e)
    case REQUEST_RETRANSMIT =>
      || (k.state == IDLE && PostMessage(e) && k.permissions & 4 != 0)
      || (k.state == AMASS_POST && e.Received?)
    case AMASS_POST => k.state == REQUEST_RETRANSMIT && e.Sent? && e.hadRetransmitFrame
    case APPROVE_CHANGES => Approves(k, e)
    case DENY_CHANGES => IsChange(e) && !Approves(k, e)
    case _ => false
  }

  // ---------------------------------------------------------------- what changes each variable

  predicate PermissionsFetched(k: Globals, e: Event)
  {
    k.state == CHECK_JOIN_PERM && (e.Given? || e == NoneStored)
  }

  predicate SendCounts(c: Config, k: Globals, e: Event)
  {
    || (k.state == RETRIEVE_POSTS && e.Sent?)
    || (k.state == NEGOTIATE_OPTIONS && Announces(c, e, 4) && k.permissions & 2 != 0)
  }

  /** The reason a user is told, when the session is closed on them. */
  predicate Kicks(c: Config, k: Globals, e: Event, reason: nat)
  {
    || (VersionRefused(c, k, e) && reason == 2)
    || (OptionsRefused(k, e) && reason == 2)
    || (JoinRefused(k, e) && reason == 3)
    || (JoinAbandoned(k, e) && reason == if e == GaveUp then 4 else 255)
  }

  ghost predicate NoKick(c: Config, k: Globals, e: Event)
  {
    forall reason :: !Kicks(c, k, e, reason)
  }

  /** The other variables, but for the kick reason, after one step. */
  ghost predicate LawfulVariables(c: Config, k: Globals, e: Event, k': Globals)
  {
    && k'.pleaseFetch ==
       (if k.state == CLOSED && Login(e) then true else if PermissionsFetched(k, e) then false else k.pleaseFetch)
    && k'.sourceID == (if k.state == CLOSED && Login(e) then e.sid else k.sourceID)
    && k'.usingVersion == (if k.state == CLOSED && Login(e) then c.protocolVersion
                           else if k.state == VERSION_NEGOTIATE_AWAIT && Responds(e) && e.version in c.altVersions
                           then e.version else k.usingVersion)
    && k'.permissions ==
       (if !PermissionsFetched(k, e) then k.permissions else if e.Given? then e.given else 231)
    && k'.amassTotal == (if k.state == IDLE && PostMessage(e) && k.permissions & 4 != 0 then 0 else k.amassTotal)
    && k'.amassExpect == k.amassExpect
    && k'.sentInLastLoad == (if SendCounts(c, k, e) then k.sentInLastLoad + 1
                             else if k.state == IDLE && LoadMessage(e) && k.permissions & 2 != 0 then 0
                             else k.sentInLastLoad)
  }

  /** k' is what the event makes of k, told variable by variable. */
  ghost predicate Lawful(c: Config, k: Globals, e: Event, k': Globals)
  {
    && (forall to :: Enters(c, k, e, to) ==> k'.state == to)
    && ((forall to :: !Enters(c, k, e, to)) ==> k'.state == k.state)
    && LawfulVariables(c, k, e, k')
    && (forall reason :: Kicks(c, k, e, reason) ==> k'.kickReason == reason)
    && (NoKick(c, k, e) ==> k'.kickReason == k.kickReason)
  }

  // ---------------------------------------------------------------- every step is lawful, and no other

  lemma IdleEnters(c: Config, k: Globals, e: Event, to: ProtocolState)
    requires Invariant(c, k) && e.Received? && k.state == IDLE
    ensures Enters(c, k, e, to) ==> Step(c, k, e).state == to
    ensures Step(c, k, e).state == to != k.state ==> Enters(c, k, e, to)
  {
  }

  lemma ReceivedEnters(c: Config, k: Globals, e: Event, to: ProtocolState)
    requires Invariant(c, k) && e.Received? && k.state != IDLE
    ensures Enters(c, k, e, to) ==> Step(c, k, e).state == to
    ensures Step(c, k, e).state == to != k.state ==> Enters(c, k, e, to)
  {
  }

  lemma SentEnters(c: Config, k: Globals, e: Event, to: ProtocolState)
    requires Invariant(c, k) && e.Sent?
    ensures Enters(c, k, e, to) ==> Step(c, k, e).state == to
    ensures Step(c, k, e).state == to != k.state ==> Enters(c, k, e, to)
  {
  }

  lemma ChangeEnters(c: Config, k: Globals, e: Event, to: ProtocolState)
    requires Invariant(c, k) && IsChange(e)
    ensures Enters(c, k, e, to) ==> Step(c, k, e).state == to
    ensures Step(c, k, e).state == to != k.state ==> Enters(c, k, e, to)
  {
  }

  lemma OtherEnters(c: Config, k: Globals, e: Event, to: ProtocolState)
    requires Invariant(c, k) && !e.Received? && !e.Sent? && !IsChange(e)
    ensures Enters(c, k, e, to) ==> Step(c, k, e).state == to
    ensures Step(c, k, e).state == to != k.state ==> Enters(c, k, e, to)
  {
  }

  /** The machine changes to a state exactly when the event leads into it. */
  lemma EntersIff(c: Config, k: Globals, e: Event, to: ProtocolState)
    requires Invariant(c, k)
    ensures Enters(c, k, e, to) ==> Step(c, k, e).state == to
    ensures to != k.state ==> (Step(c, k, e).state == to <==> Enters(c, k, e, to))
  {
    if e.Received? {
      if k.state == IDLE {
        IdleEnters(c, k, e, to);
      } else {
        ReceivedEnters(c, k, e, to);
      }
    } else if e.Sent? {
      SentEnters(c, k, e, to);
    } else if IsChange(e) {
      ChangeEnters(c, k, e, to);
    } else {
      OtherEnters(c, k, e, to);
    }
  }

  lemma IdleVariables(c: Config, k: Globals, e: Event)
    requires Invariant(c, k) && e.Received? && k.state == IDLE
    ensures LawfulVariables(c, k, e, Step(c, k, e))
  {
  }

  lemma ReceivedVariables(c: Config, k: Globals, e: Event)
    requires Invariant(c, k) && e.Received? && k.state != IDLE
    ensures LawfulVariables(c, k, e, Step(c, k, e))
  {
  }

  lemma SentVariables(c: Config, k: Globals, e: Event)
    requires Invariant(c, k) && e.Sent?
    ensures LawfulVariables(c, k, e, Step(c, k, e))
  {
  }

  lemma ChangeVariables(c: Config, k: Globals, e: Event)
    requires Invariant(c, k) && IsChange(e)
    ensures LawfulVariables(c, k, e, Step(c, k, e))
  {
  }

  lemma AnswerVariables(c: Config, k: Globals, e: Event)
    requires Invariant(c, k) && (e.Given? || e.NoneStored?)
    ensures LawfulVariables(c, k, e, Step(c, k, e))
  {
  }

  lemma OtherVariables(c: Config, k: Globals, e: Event)
    requires Invariant(c, k) && !e.Received? && !e.Sent? && !IsChange(e) && !e.Given? && !e.NoneStored?
    ensures LawfulVariables(c, k, e, Step(c, k, e))
  {
  }

  lemma StepVariables(c: Config, k: Globals, e: Event)
    requires Invariant(c, k)
    ensures LawfulVariables(c, k, e, Step(c, k, e))
  {
    if e.Received? {
      if k.state == IDLE {
        IdleVariables(c, k, e);
      } else {
        ReceivedVariables(c, k, e);
      }
    } else if e.Sent? {
      SentVariables(c, k, e);
    } else if IsChange(e) {
      ChangeVariables(c, k, e);
    } else if e.Given? || e.NoneStored? {
      AnswerVariables(c, k, e);
    } else {
      OtherVariables(c, k, e);
    }
  }

  lemma KickTold(c: Config, k: Globals, e: Event, reason: nat)
    requires Invariant(c, k) && Kicks(c, k, e, reason)
    ensures Step(c, k, e).kickReason == reason
  {
  }

  lemma KickShown(c: Config, k: Globals, e: Event)
    requires Invariant(c, k)
    ensures Step(c, k, e).kickReason == k.kickReason || Kicks(c, k, e, Step(c, k, e).kickReason)
  {
  }

  lemma KicksStep(c: Config, k: Globals, e: Event)
    requires Invariant(c, k)
    ensures forall reason :: Kicks(c, k, e, reason) ==> Step(c, k, e).kickReason == reason
    ensures NoKick(c, k, e) ==> Step(c, k, e).kickReason == k.kickReason
  {
    forall reason | Kicks(c, k, e, reason)
      ensures Step(c, k, e).kickReason == reason
    {
      KickTold(c, k, e, reason);
    }
    KickShown(c, k, e);
  }

  /** Each step is the only lawful one: the table by state and event, and the laws by target
      state and variable, say the same. */
  lemma StepLawfulIff(c: Config, k: Globals, e: Event, k': Globals)
    requires Invariant(c, k)
    ensures Lawful(c, k, e, k') <==> k' == Step(c, k, e)
  {
    StepLawful(c, k, e);
    if Lawful(c, k, e, k') {
      LawfulOnce(c, k, e, k', Step(c, k, e));
    }
  }

  lemma StepLawful(c: Config, k: Globals, e: Event)
    requires Invariant(c, k)
    ensures Lawful(c, k, e, Step(c, k, e))
  {
    forall to ensures Enters(c, k, e, to) ==> Step(c, k, e).state == to {
      EntersIff(c, k, e, to);
    }
    EntersIff(c, k, e, Step(c, k, e).state);
    StepVariables(c, k, e);
    KicksStep(c, k, e);
  }

  lemma LawfulOnce(c: Config, k: Globals, e: Event, k1: Globals, k2: Globals)
    requires Lawful(c, k, e, k1) && Lawful(c, k, e, k2)
    ensures k1 == k2
  {
  }
}
