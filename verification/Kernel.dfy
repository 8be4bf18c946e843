/** The connection kernel: a state machine over the protocol's global state, driven
    by eleven events in any order. */
module Kernel {

  datatype ProtocolState =
    | CLOSED
    | CHECK_JOIN_PERM
    | VERSION_NEGOTIATE_ALERT
    | VERSION_NEGOTIATE_AWAIT
    | NEGOTIATE_OPTIONS
    | CHECK_READ_PERM
    | RETRIEVE_POSTS
    | IDLE
    | CHECK_CHANGE_PERM
    | DENY_CHANGES
    | APPROVE_CHANGES
    | CHECK_POST_PERM
    | AMASS_POST
    | REQUEST_RETRANSMIT
    | ASSEMBLE_POST

  /** What no event changes: protocolVersion, supportedAltVersions and PSendAtOnceLimit; and
      whether the compiler's char is signed. */
  datatype Config = Config(protocolVersion: nat, altVersions: seq<nat>, sendLimit: int, signedChar: bool)

  /** The source's values, where char is unsigned. */
  const SOURCE_CONFIG := Config(1, [0], 50, false)

  /** The values of the globals between two calls. */
  datatype Globals = Globals(
    state: ProtocolState,
    pleaseFetch: bool,
    sourceID: nat,
    usingVersion: nat,
    permissions: bv8,
    amassTotal: nat,
    amassExpect: nat,
    sentInLastLoad: int,
    kickReason: nat)

  /** usingVersion starts as protocolVersion (1), PSentInLastLoad as PSendAtOnceLimit (50). */
  function Initial(c: Config): Globals
  {
    Globals(CLOSED, false, 0, c.protocolVersion, 255, 0, 0, c.sendLimit, 0)
  }

  datatype Event =
    | VersionResponse(header: bv8, version: nat)
    | Received(header: bv8, version: nat, sid: nat, frameTypes: seq<nat>)
    | Sent(header: bv8, hadRetransmitFrame: bool, outOfMessages: bool)
    | Given(given: bv8)
    | NoneStored
    | OptionsFailed
    | ChangePermissions
    | ChangeUser(uid: nat)
    | Assembled
    | GaveUp
    | NoSuchChat

  /** Whether header >> 5 is top when header is a char. A signed char of 0x80 or more is a negative
      int, and so is what the shift leaves of it. */
  predicate CharStarts(c: Config, header: bv8, top: bv8)
  {
    header >> 5 == top && !(c.signedChar && header >= 0x80)
  }

  const READ_BIT: bv8 := 2
  const POST_BIT: bv8 := 4

  predicate Has(permissions: bv8, bit: bv8)
  {
    permissions & bit != 0
  }

  // ---------------------------------------------------------------- the table

  /** What each event does in each state, all cascading of the code worked out. */
  function Step(c: Config, k: Globals, e: Event): Globals
  {
    match e
    case VersionResponse(header, version) =>
      if k.state != VERSION_NEGOTIATE_AWAIT || header >> 5 != 7 then k
      else if version in c.altVersions then k.(state := CHECK_JOIN_PERM, usingVersion := version)
      else k.(state := CLOSED, kickReason := 2)
    case Received(_, _, _, _) => WhenReceived(c, k, e)
    case Sent(_, _, _) => WhenSent(c, k, e)
    case Given(given) =>
      if k.state != CHECK_JOIN_PERM then k
      else
        var p := if k.pleaseFetch then given else k.permissions;
        var asked := k.(pleaseFetch := false, permissions := p);
        if Has(p, 1) then asked.(state := NEGOTIATE_OPTIONS) else asked.(state := CLOSED, kickReason := 3)
    case NoneStored =>
      if k.state != CHECK_JOIN_PERM || !k.pleaseFetch then k
      else k.(state := NEGOTIATE_OPTIONS, pleaseFetch := false, permissions := 231)
    case OptionsFailed =>
      if k.state == NEGOTIATE_OPTIONS then k.(state := CLOSED, kickReason := 2) else k
    case ChangePermissions => k.(state := DENY_CHANGES)
    case ChangeUser(uid) =>
      var bit: bv8 := if uid == k.sourceID then 32 else 64;
      k.(state := if Has(k.permissions, bit) then APPROVE_CHANGES else DENY_CHANGES)
    case Assembled =>
      if k.state == ASSEMBLE_POST then k.(state := IDLE) else k
    case GaveUp =>
      if k.state == CHECK_JOIN_PERM then k.(state := CLOSED, kickReason := 4) else k
    case NoSuchChat =>
      if k.state == CHECK_JOIN_PERM then k.(state := CLOSED, kickReason := 255) else k
  }

  /** A connection message that carries a login frame. */
  predicate IsLogin(e: Event)
  {
    e.Received? && e.header >> 5 == 4 && 0x0C in e.frameTypes
  }

  /** A data message that carries a load frame. */
  predicate IsLoad(e: Event)
  {
    e.Received? && e.header >> 5 != 5 && e.header >> 5 != 4 && 0x07 in e.frameTypes
  }

  function WhenReceived(c: Config, k: Globals, e: Event): Globals
    requires e.Received?
  {
    match k.state
    case CLOSED =>
      if IsLogin(e) then
        k.(state := if e.version == c.protocolVersion then CHECK_JOIN_PERM else VERSION_NEGOTIATE_ALERT,
           sourceID := e.sid, pleaseFetch := true, usingVersion := c.protocolVersion)
      else k
    case CHECK_JOIN_PERM =>
      if e.version == c.protocolVersion then k else k.(state := VERSION_NEGOTIATE_ALERT)
    case IDLE =>
      if e.header >> 5 == 5 then
        if 0x09 in e.frameTypes then k.(state := CHECK_CHANGE_PERM) else k
      else if e.header >> 5 == 4 then
        if 0x0E in e.frameTypes then k.(state := CLOSED) else k
      else if 0x07 in e.frameTypes then ReadGranted(k)
      else if e.frameTypes != [] then PostGranted(k)
      else k
    case CHECK_READ_PERM => ReadGranted(k)
    case CHECK_POST_PERM => PostGranted(k)
    case AMASS_POST => k.(state := REQUEST_RETRANSMIT)
    case _ => k
  }

  function ReadGranted(k: Globals): Globals
  {
    if Has(k.permissions, READ_BIT) then k.(state := RETRIEVE_POSTS, sentInLastLoad := 0) else k.(state := IDLE)
  }

  function PostGranted(k: Globals): Globals
  {
    if Has(k.permissions, POST_BIT) then k.(state := REQUEST_RETRANSMIT, amassTotal := 0) else k.(state := IDLE)
  }

  function WhenSent(c: Config, k: Globals, e: Event): Globals
    requires e.Sent?
  {
    match k.state
    case VERSION_NEGOTIATE_ALERT =>
      if CharStarts(c, e.header, 7) then k.(state := VERSION_NEGOTIATE_AWAIT) else k
    case NEGOTIATE_OPTIONS =>
      if !CharStarts(c, e.header, 4) then k
      else if Has(k.permissions, READ_BIT) then SentDuringLoad(c, k, e)
      else k.(state := IDLE)
    case CHECK_READ_PERM =>
      if Has(k.permissions, READ_BIT) then SentDuringLoad(c, k, e) else k.(state := IDLE)
    case RETRIEVE_POSTS => SentDuringLoad(c, k, e)
    case REQUEST_RETRANSMIT =>
      if e.hadRetransmitFrame then k.(state := AMASS_POST) else k
    case _ => k
  }

  /** One more message of a load went out; the load may be over. */
  function SentDuringLoad(c: Config, k: Globals, e: Event): Globals
    requires e.Sent?
  {
    var n := k.sentInLastLoad + 1;
    k.(sentInLastLoad := n, state := if n == c.sendLimit || e.outOfMessages then IDLE else RETRIEVE_POSTS)
  }

  /** The state after a run of events from the start of the process. */
  function Run(c: Config, es: seq<Event>): Globals
  {
    RunFrom(c, Initial(c), es)
  }

  function RunFrom(c: Config, k: Globals, es: seq<Event>): Globals
  {
    if es == [] then k else Step(c, RunFrom(c, k, es[..|es| - 1]), es[|es| - 1])
  }

  // ---------------------------------------------------------------- the code

  class ProtocolKernel {
    const c: Config
    var currentState: ProtocolState
    var pleaseFetchPermissions: bool
    var sourceID: nat
    var usingVersion: nat
    var permissionsByte: bv8
    var amassTotal: nat
    var amassExpect: nat
    var sentInLastLoad: int
    var kickReason: nat

    /** The run so far. */
    ghost var history: seq<Event>

    ghost function Now(): Globals
      reads this
    {
      Globals(currentState, pleaseFetchPermissions, sourceID, usingVersion, permissionsByte, amassTotal, amassExpect,
              sentInLastLoad, kickReason)
    }

    /** The globals are what the run so far makes of them. */
    ghost predicate Valid()
      reads this
    {
      Now() == Run(c, history)
    }

    constructor (c: Config)
      ensures Valid() && this.c == c && history == []
    {
      this.c := c;
      currentState := CLOSED;
      pleaseFetchPermissions := false;
      sourceID := 0;
      usingVersion := c.protocolVersion;
      permissionsByte := 255;
      amassTotal := 0;
      amassExpect := 0;
      sentInLastLoad := c.sendLimit;
      kickReason := 0;
      history := [];
    }

    method ReceivedVersionNegotiationResponse(header: bv8, versionNumber: nat)
      requires Valid()
      modifies this
      ensures Valid() && history == old(history) + [VersionResponse(header, versionNumber)]
    {
      Record(VersionResponse(header, versionNumber));
      if currentState == VERSION_NEGOTIATE_AWAIT {
        if header >> 5 == 7 {
          for i := 0 to |c.altVersions|
            invariant versionNumber !in c.altVersions[..i]
          {
            if c.altVersions[i] == versionNumber {
              currentState := CHECK_JOIN_PERM;
              usingVersion := versionNumber;
              return;
            }
          }
          currentState := CLOSED;
          kickReason := 2;
        }
      }
    }

    ghost method Record(e: Event)
      modifies this`history
      ensures history == old(history) + [e]
      ensures Run(c, history) == Step(c, Run(c, old(history)), e)
    {
      history := history + [e];
      assert history[..|history| - 1] == old(history);
    }

    method ReceivedMessage(header: bv8, version: nat, sid: nat, frameTypes: seq<nat>)
      requires Valid()
      modifies this
      ensures Valid() && history == old(history) + [Received(header, version, sid, frameTypes)]
    {
      Record(Received(header, version, sid, frameTypes));
      var ignored := ReceivedWhileJoining(header, version, sid, frameTypes);
      if ignored {
        return;
      }
      ReceivedInSession(header, version, sid, frameTypes);
    }

    /** Returns whether the message is ignored. */
    method ReceivedWhileJoining(header: bv8, version: nat, sid: nat, frameTypes: seq<nat>) returns (ignored: bool)
      modifies this`currentState, this`sourceID, this`pleaseFetchPermissions, this`usingVersion
      ensures ignored <==> old(currentState) == CLOSED && header >> 5 != 4
      ensures Now() ==
              if old(currentState) == CLOSED || old(currentState) == CHECK_JOIN_PERM
              then WhenReceived(c, old(Now()), Received(header, version, sid, frameTypes)) else old(Now())
    {
      if currentState == CLOSED {
        if header >> 5 != 4 {
          return true;
        }
        LogIn(sid, frameTypes);
      }
      if currentState == CHECK_JOIN_PERM {
        if version != c.protocolVersion {
          currentState := VERSION_NEGOTIATE_ALERT;
        }
      }
      return false;
    }

    method ReceivedInSession(header: bv8, ghost version: nat, ghost sid: nat, frameTypes: seq<nat>)
      modifies this`currentState, this`sentInLastLoad, this`amassTotal
      ensures Now() ==
              if old(currentState) == CLOSED || old(currentState) == CHECK_JOIN_PERM then old(Now())
              else WhenReceived(c, old(Now()), Received(header, version, sid, frameTypes))
    {
      if currentState == IDLE {
        ReceivedWhileIdle(header, frameTypes);
      }
      CheckAndAmass();
    }

    method CheckAndAmass()
      modifies this`currentState, this`sentInLastLoad, this`amassTotal
      ensures Now() ==
              match old(currentState)
              case CHECK_READ_PERM => ReadGranted(old(Now()))
              case CHECK_POST_PERM => PostGranted(old(Now()))
              case AMASS_POST => old(Now()).(state := REQUEST_RETRANSMIT)
              case _ => old(Now())
    {
      CheckPermissions();
      if currentState == AMASS_POST {
        if amassTotal == amassExpect {
          currentState := ASSEMBLE_POST;
        }
        currentState := REQUEST_RETRANSMIT;
      }
    }

    /** Opens a session if there is a login frame. */
    method LogIn(sid: nat, frameTypes: seq<nat>)
      requires currentState == CLOSED
      modifies this`currentState, this`sourceID, this`pleaseFetchPermissions, this`usingVersion
      ensures Now() ==
              if 0x0C in frameTypes then
                old(Now()).(state := CHECK_JOIN_PERM, sourceID := sid, pleaseFetch := true,
                            usingVersion := c.protocolVersion)
              else old(Now())
    {
      for i := 0 to |frameTypes|
        invariant 0x0C !in frameTypes[..i] && Now() == old(Now())
      {
        if frameTypes[i] == 0x0C {
          currentState := CHECK_JOIN_PERM;
          this.sourceID := sid;
          pleaseFetchPermissions := true;
          usingVersion := c.protocolVersion;
          break;
        }
      }
    }

    /** Which permission, if any, a message received in IDLE asks for. */
    method ReceivedWhileIdle(header: bv8, frameTypes: seq<nat>)
      requires currentState == IDLE
      modifies this`currentState
      ensures currentState ==
              if header >> 5 == 5 then if 0x09 in frameTypes then CHECK_CHANGE_PERM else IDLE
              else if header >> 5 == 4 then if 0x0E in frameTypes then CLOSED else IDLE
              else if 0x07 in frameTypes then CHECK_READ_PERM
              else if frameTypes != [] then CHECK_POST_PERM
              else IDLE
    {
      if header >> 5 == 5 {
        for i := 0 to |frameTypes|
          invariant currentState == if 0x09 in frameTypes[..i] then CHECK_CHANGE_PERM else IDLE
        {
          if frameTypes[i] == 0x09 {
            currentState := CHECK_CHANGE_PERM;
          }
        }
      } else if header >> 5 == 4 {
        for i := 0 to |frameTypes|
          invariant currentState == if 0x0E in frameTypes[..i] then CLOSED else IDLE
        {
          if frameTypes[i] == 0x0E {
            currentState := CLOSED;
          }
        }
      } else {
        for i := 0 to |frameTypes|
          invariant 0x07 !in frameTypes[..i]
          invariant currentState == if i == 0 then IDLE else CHECK_POST_PERM
        {
          if frameTypes[i] == 0x07 {
            currentState := CHECK_READ_PERM;
            break;
          } else {
            currentState := CHECK_POST_PERM;
          }
        }
      }
    }

    method CheckPermissions()
      modifies this`currentState, this`sentInLastLoad, this`amassTotal
      ensures Now() ==
              match old(currentState)
              case CHECK_READ_PERM => ReadGranted(old(Now()))
              case CHECK_POST_PERM =>
                if Has(permissionsByte, POST_BIT) then old(Now()).(state := AMASS_POST, amassTotal := 0)
                else old(Now()).(state := IDLE)
              case _ => old(Now())
    {
      if currentState == CHECK_READ_PERM {
        if permissionsByte & 2 != 0 {
          currentState := RETRIEVE_POSTS;
          sentInLastLoad := 0;
        } else {
          currentState := IDLE;
        }
      }
      if currentState == CHECK_POST_PERM {
        if permissionsByte & 4 != 0 {
          currentState := AMASS_POST;
          amassTotal := 0;
        } else {
          currentState := IDLE;
        }
      }
    }

    method SentMessage(header: bv8, hadRetransmitFrame: bool, outOfMessagesToLoad: bool)
      requires Valid()
      modifies this
      ensures Valid() && history == old(history) + [Sent(header, hadRetransmitFrame, outOfMessagesToLoad)]
    {
      Record(Sent(header, hadRetransmitFrame, outOfMessagesToLoad));
      if currentState == VERSION_NEGOTIATE_ALERT {
        if CharStarts(c, header, 7) {
          currentState := VERSION_NEGOTIATE_AWAIT;
        }
      }
      if currentState == NEGOTIATE_OPTIONS {
        if CharStarts(c, header, 4) {
          currentState := CHECK_READ_PERM;
        }
      }
      if currentState == CHECK_READ_PERM {
        if permissionsByte & 2 != 0 {
          currentState := RETRIEVE_POSTS;
        } else {
          currentState := IDLE;
        }
      }
      if currentState == RETRIEVE_POSTS {
        sentInLastLoad := sentInLastLoad + 1;
        if sentInLastLoad == c.sendLimit || outOfMessagesToLoad {
          currentState := IDLE;
        }
      }
      if currentState == REQUEST_RETRANSMIT {
        if hadRetransmitFrame {
          currentState := AMASS_POST;
        }
      }
    }

    method GivePermissions(permissions: bv8)
      requires Valid()
      modifies this
      ensures Valid() && history == old(history) + [Given(permissions)]
    {
      Record(Given(permissions));
      if currentState == CHECK_JOIN_PERM {
        if pleaseFetchPermissions {
          pleaseFetchPermissions := false;
          permissionsByte := permissions;
        }
        if !(permissionsByte & 1 != 0) {
          currentState := CLOSED;
          kickReason := 3;
        } else {
          currentState := NEGOTIATE_OPTIONS;
        }
      }
    }

    method NoStoredPermissions()
      requires Valid()
      modifies this
      ensures Valid() && history == old(history) + [NoneStored]
    {
      Record(NoneStored);
      if currentState == CHECK_JOIN_PERM {
        if pleaseFetchPermissions {
          pleaseFetchPermissions := false;
          permissionsByte := 231;
          currentState := NEGOTIATE_OPTIONS;
        }
      }
    }

    method OptionsError()
      requires Valid()
      modifies this
      ensures Valid() && history == old(history) + [OptionsFailed]
    {
      Record(OptionsFailed);
      if currentState == NEGOTIATE_OPTIONS {
        currentState := CLOSED;
        kickReason := 2;
      }
    }

    method WantsToChangePermissions()
      requires Valid()
      modifies this
      ensures Valid() && history == old(history) + [ChangePermissions]
    {
      Record(ChangePermissions);
      if permissionsByte & 128 != 0 {
        currentState := APPROVE_CHANGES;
      }
      currentState := DENY_CHANGES;
    }

    method WantsToChangeUser(uid: nat)
      requires Valid()
      modifies this
      ensures Valid() && history == old(history) + [ChangeUser(uid)]
    {
      Record(ChangeUser(uid));
      if uid == sourceID {
        if permissionsByte & 32 != 0 {
          currentState := APPROVE_CHANGES;
        } else {
          currentState := DENY_CHANGES;
        }
      } else if permissionsByte & 64 != 0 {
        currentState := APPROVE_CHANGES;
      } else {
        currentState := DENY_CHANGES;
      }
    }

    method AssembledPost()
      requires Valid()
      modifies this
      ensures Valid() && history == old(history) + [Assembled]
    {
      Record(Assembled);
      if currentState == ASSEMBLE_POST {
        currentState := IDLE;
      }
    }

    method GiveUpConnection()
      requires Valid()
      modifies this
      ensures Valid() && history == old(history) + [GaveUp]
    {
      Record(GaveUp);
      if currentState == CHECK_JOIN_PERM {
        currentState := CLOSED;
        kickReason := 4;
      }
    }

    method ImaginaryChatAccess()
      requires Valid()
      modifies this
      ensures Valid() && history == old(history) + [NoSuchChat]
    {
      Record(NoSuchChat);
      if currentState == CHECK_JOIN_PERM {
        currentState := CLOSED;
        kickReason := 255;
      }
    }
  }
}
