/** The memory pool shared by several threads, as a machine that takes one access to
    shared memory at a time: alloc, free and prune of the release build, interleaved in
    any order. */
module Pool {
  import opened Bytes

  type Block = nat
  type Thread = nat

  /** The first word of a block is a union: the pool that owns the block, or the link
      to the next free block. */
  datatype Word = Owner | Next(next: Option<Block>)

  datatype Purpose = ToAlloc | ToPrune

  /** Where a thread stands, with the block it has in a local variable. */
  datatype Place =
    | Outside
    | Asking(why: Purpose)
    | Locked(why: Purpose)
    | HeadRead(why: Purpose, first: Option<Block>)
    | Unlinked(why: Purpose, block: Block)
    | Counted(why: Purpose, block: Block)
    | Unlocked(why: Purpose, got: Option<Block>)
    | Freeing(block: Block)
    | Refused(block: Block)
    | Admitted(block: Block)
    | PushLocked(block: Block)
    | PushLinked(block: Block)
    | Pushed
    | PushCounted

  /** The pool and its surroundings: the blocks obtained from the system so far, those
      that clients hold and those given back to the system. */
  datatype State = State(
    lock: Option<Thread>,
    head: Option<Block>,
    depth: uint16,
    word: map<Block, Word>,
    place: map<Thread, Place>,
    obtained: set<Block>,
    held: set<Block>,
    returned: set<Block>)

  datatype Action =
    | BeginAlloc
    | BeginPrune
    | BeginFree(block: Block)
    | Proceed
    | SystemGives(block: Block)
    | SystemFails

  datatype Move = Move(thread: Thread, action: Action)

  function Start(threads: set<Thread>): State
  {
    State(None, None, 0, map[], map t | t in threads :: Outside, {}, {}, {})
  }

  function At(s: State, t: Thread, p: Place): State
  {
    s.(place := s.place[t := p])
  }

  /** No thread but t has moved. */
  predicate OneMoved(place: map<Thread, Place>, t: Thread, place': map<Thread, Place>)
  {
    t in place && t in place' && place' == place[t := place'[t]]
  }

  lemma Overwritten(place: map<Thread, Place>, t: Thread, p: Place, q: Place)
    ensures place[t := p][t := q] == place[t := q]
  {
  }

  lemma Restored(place: map<Thread, Place>, t: Thread)
    requires t in place
    ensures place[t := place[t]] == place
  {
  }

  /** One access to shared memory by one thread, if the thread can make it. Clients free
      only blocks that they hold. */
  function Stepped(max: nat, s: State, m: Move): (r: Option<State>)
    ensures r.Some? ==> OneMoved(s.place, m.thread, r.value.place)
  {
    if m.thread !in s.place then None else
    match m.action
    case BeginAlloc => if s.place[m.thread] == Outside then Some(At(s, m.thread, Asking(ToAlloc))) else None
    case BeginPrune => if s.place[m.thread] == Outside then Some(At(s, m.thread, Asking(ToPrune))) else None
    case BeginFree(b) =>
      if s.place[m.thread] == Outside && b in s.held
      then Some(At(s, m.thread, Freeing(b)).(held := s.held - {b})) else None
    case SystemGives(b) =>
      if s.place[m.thread] == Unlocked(ToAlloc, None) && b !in s.obtained
      then Some(At(s, m.thread, Unlocked(ToAlloc, Some(b))).(obtained := s.obtained + {b})) else None
    case SystemFails =>
      if s.place[m.thread] == Unlocked(ToAlloc, None) then Some(At(s, m.thread, Outside)) else None
    case Proceed => Proceeded(max, s, m.thread)
  }

  /** In CxPlatPoolFree. */
  predicate Frees(p: Place) {
    p.Freeing? || p.Refused? || p.Admitted? || p.PushLocked? || p.PushLinked? || p.Pushed? || p.PushCounted?
  }

  /** A thread that waits for the lock, that finds a link where it needs an owner or an
      owner where it needs a link, cannot proceed. */
  function Proceeded(max: nat, s: State, t: Thread): (r: Option<State>)
    requires t in s.place
    ensures r.Some? ==> OneMoved(s.place, t, r.value.place)
  {
    if Frees(s.place[t]) then FreerProceeded(max, s, t) else TakerProceeded(s, t)
  }

  /** The accesses of alloc and prune. The depth wraps around at 16 bits. */
  function TakerProceeded(s: State, t: Thread): (r: Option<State>)
    requires t in s.place && !Frees(s.place[t])
    ensures r.Some? ==> OneMoved(s.place, t, r.value.place)
  {
    match s.place[t]
    case Outside => None
    case Asking(why) => if s.lock == None then Some(At(s, t, Locked(why)).(lock := Some(t))) else None
    case Locked(why) => Some(At(s, t, HeadRead(why, s.head)))
    case HeadRead(why, None) => Some(At(s, t, Unlocked(why, None)).(lock := None))
    case HeadRead(why, Some(b)) =>
      if b in s.word && s.word[b].Next? then Some(At(s, t, Unlinked(why, b)).(head := s.word[b].next)) else None
    case Unlinked(why, b) => Some(At(s, t, Counted(why, b)).(depth := if s.depth == 0 then 65535 else s.depth - 1))
    case Counted(why, b) => Some(At(s, t, Unlocked(why, Some(b))).(lock := None))
    case Unlocked(ToPrune, None) => Some(At(s, t, Outside))
    case Unlocked(ToPrune, Some(b)) => Some(At(s, t, Outside).(returned := s.returned + {b}))
    case Unlocked(ToAlloc, None) => None
    case Unlocked(ToAlloc, Some(b)) => Some(At(s, t, Outside).(word := s.word[b := Owner], held := s.held + {b}))
  }

  /** The accesses of free. */
  function FreerProceeded(max: nat, s: State, t: Thread): (r: Option<State>)
    requires t in s.place && Frees(s.place[t])
    ensures r.Some? ==> OneMoved(s.place, t, r.value.place)
  {
    match s.place[t]
    case Freeing(b) =>
      if b in s.word && s.word[b].Owner? then Some(At(s, t, if s.depth >= max then Refused(b) else Admitted(b)))
      else None
    case Refused(b) => Some(At(s, t, Outside).(returned := s.returned + {b}))
    case Admitted(b) => if s.lock == None then Some(At(s, t, PushLocked(b)).(lock := Some(t))) else None
    case PushLocked(b) => Some(At(s, t, PushLinked(b)).(word := s.word[b := Next(s.head)]))
    case PushLinked(b) => Some(At(s, t, Pushed).(head := Some(b)))
    case Pushed => Some(At(s, t, PushCounted).(depth := if s.depth == 65535 then 0 else s.depth + 1))
    case PushCounted => Some(At(s, t, Outside).(lock := None))
  }

  // ---------------------------------------------------------------- the free list

  /** The blocks that the links lead through from head on. */
  ghost predicate IsChain(head: Option<Block>, word: map<Block, Word>, list: seq<Block>)
    decreases |list|
  {
    if list == [] then head == None
    else
      && head == Some(list[0])
      && list[0] in word && word[list[0]].Next?
      && IsChain(word[list[0]].next, word, list[1..])
  }

  lemma {:induction false} ChainUnique(head: Option<Block>, word: map<Block, Word>, a: seq<Block>, b: seq<Block>)
    requires IsChain(head, word, a) && IsChain(head, word, b)
    ensures a == b
    decreases |a|
  {
    if a == [] || b == [] {
    } else {
      ChainUnique(word[a[0]].next, word, a[1..], b[1..]);
      assert a == [a[0]] + a[1..] && b == [b[0]] + b[1..];
    }
  }

  lemma {:induction false} ChainFrame(head: Option<Block>, word: map<Block, Word>, list: seq<Block>, b: Block, w: Word)
    requires IsChain(head, word, list) && b !in list
    ensures IsChain(head, word[b := w], list)
    decreases |list|
  {
    if list == [] {
    } else {
      ChainFrame(word[list[0]].next, word, list[1..], b, w);
    }
  }

  /** The free list after a move, given the one before it. */
  ghost function ListAfter(s: State, m: Move, list: seq<Block>): seq<Block>
    requires m.thread in s.place
  {
    var p := s.place[m.thread];
    if m.action != Proceed then list
    else if p.HeadRead? && p.first.Some? && list != [] then list[1..]
    else if p.PushLinked? then [p.block] + list
    else list
  }

  // ---------------------------------------------------------------- the invariant

  /** Between CxPlatLockAcquire and CxPlatLockRelease. */
  predicate InSection(p: Place) {
    p.Locked? || p.HeadRead? || p.Unlinked? || p.Counted? || p.PushLocked? || p.PushLinked? || p.Pushed? ||
    p.PushCounted?
  }

  ghost predicate LockKept(lock: Option<Thread>, place: map<Thread, Place>)
  {
    && (forall t | t in place :: InSection(place[t]) <==> lock == Some(t))
    && (lock.Some? ==> lock.value in place)
  }

  ghost predicate NoneTwice(list: seq<Block>)
  {
    forall i, j :: 0 <= i < j < |list| ==> list[i] != list[j]
  }

  /** What a thread that stands at p relies on. */
  ghost predicate Relies(p: Place, head: Option<Block>, word: map<Block, Word>)
  {
    match p
    case HeadRead(_, first) => first == head
    case PushLinked(b) => b in word && word[b] == Next(head)
    case Pushed => head != None
    case Freeing(b) => b in word && word[b] == Owner
    case _ => true
  }

  ghost predicate AllRely(place: map<Thread, Place>, head: Option<Block>, word: map<Block, Word>)
  {
    forall t | t in place :: Relies(place[t], head, word)
  }

  ghost predicate OwnersKept(held: set<Block>, word: map<Block, Word>)
  {
    forall b | b in held :: b in word && word[b] == Owner
  }

  /** By how much the thread at p has let the list fall behind the depth. */
  function LagOf(p: Place): int
  {
    if p.Unlinked? then 1 else if p.Pushed? then -1 else 0
  }

  function Lag(lock: Option<Thread>, place: map<Thread, Place>): int
  {
    if lock.Some? && lock.value in place then LagOf(place[lock.value]) else 0
  }

  /** The depth counts modulo 2^16. */
  predicate DepthKept(depth: uint16, n: int)
  {
    depth as int == n % 65536
  }

  /** The block in a thread's hands: it has a reference and the block is not on the list. */
  function Hand(p: Place): Option<Block>
  {
    match p
    case Unlinked(_, b) => Some(b)
    case Counted(_, b) => Some(b)
    case Unlocked(_, got) => got
    case Freeing(b) => Some(b)
    case Refused(b) => Some(b)
    case Admitted(b) => Some(b)
    case PushLocked(b) => Some(b)
    case PushLinked(b) => Some(b)
    case _ => None
  }

  datatype Where = OnList | WithClients | InHands(thread: Thread) | Returned

  /** where says of every block obtained from the system that it is in one of four places,
      and it is there: on the list, with the clients, in a thread's hands, or given back. */
  ghost predicate Labelled(obtained: set<Block>, held: set<Block>, returned: set<Block>, list: seq<Block>,
                           where: map<Block, Where>)
  {
    && where.Keys == obtained && held <= obtained && returned <= obtained
    && (forall b | b in where :: where[b] == WithClients <==> b in held)
    && (forall b | b in where :: where[b] == Returned <==> b in returned)
    && (forall b | b in list :: b in where)
    && (forall b | b in where :: where[b] == OnList <==> b in list)
  }

  ghost predicate HandsKept(place: map<Thread, Place>, where: map<Block, Where>)
  {
    && (forall t | t in place && Hand(place[t]).Some? ::
          Hand(place[t]).value in where && where[Hand(place[t]).value] == InHands(t))
    && (forall b | b in where && where[b].InHands? ::
          where[b].thread in place && Hand(place[where[b].thread]) == Some(b))
  }

  ghost predicate Inv(s: State, list: seq<Block>, where: map<Block, Where>)
  {
    && LockKept(s.lock, s.place)
    && IsChain(s.head, s.word, list)
    && NoneTwice(list)
    && AllRely(s.place, s.head, s.word)
    && OwnersKept(s.held, s.word)
    && Labelled(s.obtained, s.held, s.returned, list, where)
    && HandsKept(s.place, where)
    && DepthKept(s.depth, |list| + Lag(s.lock, s.place))
  }

  /** The move of a block, if m moves one. */
  ghost function WhereAfter(s: State, m: Move, where: map<Block, Where>): map<Block, Where>
    requires m.thread in s.place
  {
    var p := s.place[m.thread];
    match m.action
    case BeginFree(b) => where[b := InHands(m.thread)]
    case SystemGives(b) => where[b := InHands(m.thread)]
    case Proceed =>
      if p.HeadRead? && p.first.Some? then where[p.first.value := InHands(m.thread)]
      else if p.PushLinked? then where[p.block := OnList]
      else if p.Refused? then where[p.block := Returned]
      else if p.Unlocked? && p.got.Some? then
        where[p.got.value := if p.why == ToAlloc then WithClients else Returned]
      else where
    case _ => where
  }

  // ---------------------------------------------------------------- every access keeps it

  /** The lock is kept, taken by a thread that enters or released by one that leaves. */
  predicate LockMoves(lock: Option<Thread>, t: Thread, p: Place, q: Place, lock': Option<Thread>)
  {
    || (InSection(q) == InSection(p) && lock' == lock)
    || (lock == None && InSection(q) && lock' == Some(t))
    || (InSection(p) && !InSection(q) && lock' == None)
  }

  lemma LockMoved(lock: Option<Thread>, place: map<Thread, Place>, t: Thread,
                  lock': Option<Thread>, place': map<Thread, Place>)
    requires LockKept(lock, place) && OneMoved(place, t, place') && LockMoves(lock, t, place[t], place'[t], lock')
    ensures LockKept(lock', place')
    ensures Lag(lock', place') - Lag(lock, place) == LagOf(place'[t]) - LagOf(place[t])
  {
  }

  /** A move that is not a count and takes no block from or to the list leaves depth and lag alone. */
  lemma DepthSame(s: State, t: Thread, s': State, n: nat)
    requires LockKept(s.lock, s.place) && OneMoved(s.place, t, s'.place)
    requires LockMoves(s.lock, t, s.place[t], s'.place[t], s'.lock) && LagOf(s'.place[t]) == LagOf(s.place[t])
    requires s'.depth == s.depth && DepthKept(s.depth, n + Lag(s.lock, s.place))
    ensures LockKept(s'.lock, s'.place) && DepthKept(s'.depth, n + Lag(s'.lock, s'.place))
  {
    LockMoved(s.lock, s.place, t, s'.lock, s'.place);
  }

  lemma HandsSame(place: map<Thread, Place>, where: map<Block, Where>, t: Thread, place': map<Thread, Place>)
    requires HandsKept(place, where) && OneMoved(place, t, place') && Hand(place'[t]) == Hand(place[t])
    ensures HandsKept(place', where)
  {
  }

  lemma HandTakes(place: map<Thread, Place>, where: map<Block, Where>, t: Thread, b: Block,
                  place': map<Thread, Place>, where': map<Block, Where>)
    requires HandsKept(place, where) && OneMoved(place, t, place') && where' == where[b := InHands(t)]
    requires Hand(place[t]) == None && Hand(place'[t]) == Some(b) && (b in where ==> !where[b].InHands?)
    ensures HandsKept(place', where')
  {
  }

  lemma HandGives(place: map<Thread, Place>, where: map<Block, Where>, t: Thread, b: Block, to: Where,
                  place': map<Thread, Place>, where': map<Block, Where>)
    requires HandsKept(place, where) && OneMoved(place, t, place') && where' == where[b := to]
    requires Hand(place[t]) == Some(b) && Hand(place'[t]) == None && !to.InHands?
    ensures HandsKept(place', where')
  {
  }

  lemma RelySame(place: map<Thread, Place>, t: Thread, head: Option<Block>, word: map<Block, Word>,
                 place': map<Thread, Place>)
    requires AllRely(place, head, word) && OneMoved(place, t, place') && Relies(place'[t], head, word)
    ensures AllRely(place', head, word)
  {
  }

  /** Only the lock's holder relies on the head. */
  lemma HeadMoved(lock: Option<Thread>, place: map<Thread, Place>, t: Thread, head: Option<Block>,
                  word: map<Block, Word>, place': map<Thread, Place>, head': Option<Block>)
    requires LockKept(lock, place) && OneMoved(place, t, place') && InSection(place[t])
    requires AllRely(place, head, word) && Relies(place'[t], head', word)
    ensures AllRely(place', head', word)
  {
  }

  /** Only the thread that has a block in its hands relies on the block's word. */
  lemma WordWritten(place: map<Thread, Place>, where: map<Block, Where>, t: Thread, head: Option<Block>,
                    word: map<Block, Word>, b: Block, place': map<Thread, Place>, word': map<Block, Word>)
    requires HandsKept(place, where) && OneMoved(place, t, place') && Hand(place[t]) == Some(b)
    requires b in word' && word' == word[b := word'[b]]
    requires AllRely(place, head, word) && Relies(place'[t], head, word')
    ensures AllRely(place', head, word')
  {
  }

  lemma OwnersWritten(held: set<Block>, word: map<Block, Word>, b: Block, held': set<Block>, word': map<Block, Word>)
    requires OwnersKept(held, word) && b in word' && word' == word[b := word'[b]]
    requires held' <= held + {b} && (b in held' ==> word'[b] == Owner)
    ensures OwnersKept(held', word')
  {
  }

  /** One block changes its label, and with it the set that it is in. */
  lemma Relabelled(obtained: set<Block>, held: set<Block>, returned: set<Block>, list: seq<Block>,
                   where: map<Block, Where>, b: Block, to: Where,
                   held': set<Block>, returned': set<Block>, where': map<Block, Where>)
    requires Labelled(obtained, held, returned, list, where) && where' == where[b := to]
    requires b in where && b !in list && to != OnList
    requires to == WithClients ==> held' == held + {b} && returned' == returned && b !in returned
    requires to == Returned ==> held' == held && returned' == returned + {b} && b !in held
    requires to.InHands? ==> held' == held - {b} && returned' == returned && b !in returned
    ensures Labelled(obtained, held', returned', list, where')
  {
  }

  lemma NewlyLabelled(obtained: set<Block>, held: set<Block>, returned: set<Block>, list: seq<Block>,
                      where: map<Block, Where>, b: Block, t: Thread, obtained': set<Block>, where': map<Block, Where>)
    requires Labelled(obtained, held, returned, list, where) && where' == where[b := InHands(t)]
    requires b !in obtained && obtained' == obtained + {b}
    ensures Labelled(obtained', held, returned, list, where')
  {
  }

  lemma Listed(obtained: set<Block>, held: set<Block>, returned: set<Block>, list: seq<Block>,
               where: map<Block, Where>, b: Block, list': seq<Block>, where': map<Block, Where>)
    requires Labelled(obtained, held, returned, list, where) && list' == [b] + list && where' == where[b := OnList]
    requires b in where && b !in held && b !in returned
    ensures Labelled(obtained, held, returned, list', where')
  {
  }

  lemma Unlisted(obtained: set<Block>, held: set<Block>, returned: set<Block>, list: seq<Block>,
                 where: map<Block, Where>, t: Thread, list': seq<Block>, where': map<Block, Where>)
    requires Labelled(obtained, held, returned, list, where) && NoneTwice(list)
    requires list != [] && list' == list[1..] && where' == where[list[0] := InHands(t)]
    ensures Labelled(obtained, held, returned, list', where') && NoneTwice(list')
  {
    assert list == [list[0]] + list';
  }

  lemma Prepended(head: Option<Block>, word: map<Block, Word>, list: seq<Block>, b: Block,
                  head': Option<Block>, list': seq<Block>)
    requires IsChain(head, word, list) && b in word && word[b] == Next(head)
    requires b !in list && NoneTwice(list) && head' == Some(b) && list' == [b] + list
    ensures IsChain(head', word, list') && NoneTwice(list')
  {
    assert list'[1..] == list;
  }

  lemma Quiet(s: State, t: Thread, s': State, list: seq<Block>, where: map<Block, Where>)
    requires Inv(s, list, where) && OneMoved(s.place, t, s'.place) && s' == s.(place := s'.place, lock := s'.lock)
    requires Hand(s'.place[t]) == Hand(s.place[t]) && LagOf(s'.place[t]) == LagOf(s.place[t]) == 0
    requires Relies(s'.place[t], s.head, s.word) && LockMoves(s.lock, t, s.place[t], s'.place[t], s'.lock)
    ensures Inv(s', list, where)
  {
    DepthSame(s, t, s', |list|);
    HandsSame(s.place, where, t, s'.place);
    RelySame(s.place, t, s.head, s.word, s'.place);
  }

  /** What the head points to is the front of the list. */
  lemma FrontFound(s: State, t: Thread, b: Block, list: seq<Block>, where: map<Block, Where>)
    requires Inv(s, list, where) && t in s.place && s.place[t].HeadRead? && s.place[t].first == Some(b)
    ensures list != [] && b == list[0] && b in s.word && s.word[b].Next?
    ensures IsChain(s.word[b].next, s.word, list[1..]) && b in where && where[b] == OnList
  {
    assert Relies(s.place[t], s.head, s.word);
  }

  lemma Unlinking(s: State, t: Thread, b: Block, s': State, list: seq<Block>, where: map<Block, Where>,
                  list': seq<Block>, where': map<Block, Where>)
    requires Inv(s, list, where) && OneMoved(s.place, t, s'.place) && b in s.word && s.word[b].Next?
    requires s.place[t].HeadRead? && s'.place[t] == Unlinked(s.place[t].why, b) && s.place[t].first == Some(b)
    requires s' == s.(place := s'.place, head := s.word[b].next)
    requires list != [] ==> list' == list[1..]
    requires where' == where[b := InHands(t)]
    ensures Inv(s', list', where')
  {
    FrontFound(s, t, b, list, where);
    Unlisted(s.obtained, s.held, s.returned, list, where, t, list', where');
    HeadMoved(s.lock, s.place, t, s.head, s.word, s'.place, s'.head);
    HandTakes(s.place, where, t, b, s'.place, where');
    LockMoved(s.lock, s.place, t, s'.lock, s'.place);
  }

  lemma CountingDown(s: State, t: Thread, s': State, list: seq<Block>, where: map<Block, Where>)
    requires Inv(s, list, where) && OneMoved(s.place, t, s'.place)
    requires s.place[t].Unlinked? && s'.place[t] == Counted(s.place[t].why, s.place[t].block)
    requires s' == s.(place := s'.place, depth := if s.depth == 0 then 65535 else s.depth - 1)
    ensures Inv(s', list, where)
  {
    HandsSame(s.place, where, t, s'.place);
    RelySame(s.place, t, s.head, s.word, s'.place);
    LockMoved(s.lock, s.place, t, s'.lock, s'.place);
  }

  lemma CountingUp(s: State, t: Thread, s': State, list: seq<Block>, where: map<Block, Where>)
    requires Inv(s, list, where) && OneMoved(s.place, t, s'.place)
    requires s.place[t] == Pushed && s'.place[t] == PushCounted
    requires s' == s.(place := s'.place, depth := if s.depth == 65535 then 0 else s.depth + 1)
    ensures Inv(s', list, where)
  {
    HandsSame(s.place, where, t, s'.place);
    RelySame(s.place, t, s.head, s.word, s'.place);
    LockMoved(s.lock, s.place, t, s'.lock, s'.place);
  }

  /** What is known of a block in a thread's hands. */
  lemma HandKnown(s: State, t: Thread, b: Block, list: seq<Block>, where: map<Block, Where>)
    requires Inv(s, list, where) && t in s.place && Hand(s.place[t]) == Some(b)
    ensures b in s.obtained && b !in s.held && b !in s.returned && b !in list
    ensures b in where && where[b] == InHands(t)
  {
  }

  lemma HeldKnown(s: State, b: Block, list: seq<Block>, where: map<Block, Where>)
    requires Labelled(s.obtained, s.held, s.returned, list, where) && OwnersKept(s.held, s.word) && b in s.held
    ensures b in s.word && s.word[b] == Owner
    ensures b !in list && b !in s.returned && b in where && where[b] == WithClients
  {
  }

  /** A block leaves a thread's hands for the clients or the system. */
  lemma BlockGiven(s: State, t: Thread, b: Block, to: Where, s': State, list: seq<Block>, where: map<Block, Where>,
                   where': map<Block, Where>)
    requires Labelled(s.obtained, s.held, s.returned, list, where) && HandsKept(s.place, where)
    requires OneMoved(s.place, t, s'.place) && Hand(s.place[t]) == Some(b) && Hand(s'.place[t]) == None
    requires where' == where[b := to] && s'.obtained == s.obtained
    requires to == WithClients ==> s'.held == s.held + {b} && s'.returned == s.returned
    requires to == Returned ==> s'.held == s.held && s'.returned == s.returned + {b}
    requires to == WithClients || to == Returned
    ensures Labelled(s'.obtained, s'.held, s'.returned, list, where') && HandsKept(s'.place, where')
  {
    assert b in where && where[b] == InHands(t);
    Relabelled(s.obtained, s.held, s.returned, list, where, b, to, s'.held, s'.returned, where');
    HandGives(s.place, where, t, b, to, s'.place, where');
  }

  /** The word of a block in a thread's hands can be written: nothing else depends on it. */
  lemma HandWritten(s: State, t: Thread, b: Block, s': State, list: seq<Block>, where: map<Block, Where>)
    requires Inv(s, list, where) && OneMoved(s.place, t, s'.place) && Hand(s.place[t]) == Some(b)
    requires b in s'.word && s'.word == s.word[b := s'.word[b]] && s'.head == s.head
    requires Relies(s'.place[t], s.head, s'.word)
    requires s'.held <= s.held + {b} && (b in s'.held ==> s'.word[b] == Owner)
    ensures AllRely(s'.place, s'.head, s'.word) && OwnersKept(s'.held, s'.word) && IsChain(s'.head, s'.word, list)
  {
    HandKnown(s, t, b, list, where);
    OwnersWritten(s.held, s.word, b, s'.held, s'.word);
    WordWritten(s.place, where, t, s.head, s.word, b, s'.place, s'.word);
    ChainFrame(s.head, s.word, list, b, s'.word[b]);
  }

  /** The two places of a thread that gives a block to the client. */
  predicate Stamps(p: Place, b: Block, q: Place)
  {
    p == Unlocked(ToAlloc, Some(b)) && q == Outside
  }

  lemma OwnerWritten(s: State, t: Thread, b: Block, s': State, list: seq<Block>, where: map<Block, Where>)
    requires Inv(s, list, where) && OneMoved(s.place, t, s'.place) && Stamps(s.place[t], b, s'.place[t])
    requires s'.word == s.word[b := Owner] && s'.held == s.held + {b} && s'.head == s.head
    ensures AllRely(s'.place, s'.head, s'.word) && OwnersKept(s'.held, s'.word) && IsChain(s'.head, s'.word, list)
  {
    HandWritten(s, t, b, s', list, where);
  }

  lemma DepthStamped(s: State, t: Thread, b: Block, s': State, n: nat)
    requires LockKept(s.lock, s.place) && OneMoved(s.place, t, s'.place) && Stamps(s.place[t], b, s'.place[t])
    requires s'.lock == s.lock && s'.depth == s.depth && DepthKept(s.depth, n + Lag(s.lock, s.place))
    ensures LockKept(s'.lock, s'.place) && DepthKept(s'.depth, n + Lag(s'.lock, s'.place))
  {
    DepthSame(s, t, s', n);
  }

  lemma Stamping(s: State, t: Thread, b: Block, s': State, list: seq<Block>, where: map<Block, Where>,
                 where': map<Block, Where>)
    requires Inv(s, list, where) && OneMoved(s.place, t, s'.place)
    requires s.place[t] == Unlocked(ToAlloc, Some(b)) && s'.place[t] == Outside
    requires s' == s.(place := s'.place, word := s.word[b := Owner], held := s.held + {b})
    requires where' == where[b := WithClients]
    ensures Inv(s', list, where')
  {
    OwnerWritten(s, t, b, s', list, where);
    BlockGiven(s, t, b, WithClients, s', list, where, where');
    DepthStamped(s, t, b, s', |list|);
  }

  lemma GivingBack(s: State, t: Thread, b: Block, s': State, list: seq<Block>, where: map<Block, Where>,
                   where': map<Block, Where>)
    requires Inv(s, list, where) && OneMoved(s.place, t, s'.place)
    requires Hand(s.place[t]) == Some(b) && !InSection(s.place[t]) && s'.place[t] == Outside
    requires s' == s.(place := s'.place, returned := s.returned + {b}) && where' == where[b := Returned]
    ensures Inv(s', list, where')
  {
    BlockGiven(s, t, b, Returned, s', list, where, where');
    RelySame(s.place, t, s.head, s.word, s'.place);
    DepthSame(s, t, s', |list|);
  }

  lemma FreshTaken(s: State, t: Thread, b: Block, s': State, list: seq<Block>, where: map<Block, Where>,
                   where': map<Block, Where>)
    requires Labelled(s.obtained, s.held, s.returned, list, where) && HandsKept(s.place, where)
    requires OneMoved(s.place, t, s'.place) && Hand(s.place[t]) == None && Hand(s'.place[t]) == Some(b)
    requires where' == where[b := InHands(t)] && s'.held == s.held && s'.returned == s.returned
    requires b !in s.obtained && s'.obtained == s.obtained + {b}
    ensures Labelled(s'.obtained, s'.held, s'.returned, list, where') && HandsKept(s'.place, where')
  {
    NewlyLabelled(s.obtained, s.held, s.returned, list, where, b, t, s'.obtained, where');
    HandTakes(s.place, where, t, b, s'.place, where');
  }

  lemma Taking(s: State, t: Thread, b: Block, s': State, list: seq<Block>, where: map<Block, Where>,
               where': map<Block, Where>)
    requires Inv(s, list, where) && OneMoved(s.place, t, s'.place)
    requires s.place[t] == Outside && s'.place[t] == Freeing(b) && b in s.held
    requires s' == s.(place := s'.place, held := s.held - {b}) && where' == where[b := InHands(t)]
    ensures Inv(s', list, where')
  {
    HeldKnown(s, b, list, where);
    OwnersWritten(s.held, s.word, b, s'.held, s'.word);
    Relabelled(s.obtained, s.held, s.returned, list, where, b, InHands(t), s'.held, s'.returned, where');
    HandTakes(s.place, where, t, b, s'.place, where');
    RelySame(s.place, t, s.head, s.word, s'.place);
    DepthSame(s, t, s', |list|);
  }

  lemma Obtaining(s: State, t: Thread, b: Block, s': State, list: seq<Block>, where: map<Block, Where>,
                  where': map<Block, Where>)
    requires Inv(s, list, where) && OneMoved(s.place, t, s'.place) && b !in s.obtained
    requires s.place[t] == Unlocked(ToAlloc, None) && s'.place[t] == Unlocked(ToAlloc, Some(b))
    requires s' == s.(place := s'.place, obtained := s.obtained + {b}) && where' == where[b := InHands(t)]
    ensures Inv(s', list, where')
  {
    FreshTaken(s, t, b, s', list, where, where');
    RelySame(s.place, t, s.head, s.word, s'.place);
    DepthSame(s, t, s', |list|);
  }

  lemma Linking(s: State, t: Thread, b: Block, s': State, list: seq<Block>, where: map<Block, Where>)
    requires Inv(s, list, where) && OneMoved(s.place, t, s'.place)
    requires s.place[t] == PushLocked(b) && s'.place[t] == PushLinked(b)
    requires s' == s.(place := s'.place, word := s.word[b := Next(s.head)])
    ensures Inv(s', list, where)
  {
    HandKnown(s, t, b, list, where);
    HandWritten(s, t, b, s', list, where);
    HandsSame(s.place, where, t, s'.place);
    DepthSame(s, t, s', |list|);
  }

  lemma Pushing(s: State, t: Thread, b: Block, s': State, list: seq<Block>, where: map<Block, Where>,
                list': seq<Block>, where': map<Block, Where>)
    requires Inv(s, list, where) && OneMoved(s.place, t, s'.place)
    requires s.place[t] == PushLinked(b) && s'.place[t] == Pushed
    requires s' == s.(place := s'.place, head := Some(b)) && list' == [b] + list && where' == where[b := OnList]
    ensures Inv(s', list', where')
  {
    HandKnown(s, t, b, list, where);
    assert Relies(s.place[t], s.head, s.word);
    Prepended(s.head, s.word, list, b, s'.head, list');
    Listed(s.obtained, s.held, s.returned, list, where, b, list', where');
    HeadMoved(s.lock, s.place, t, s.head, s.word, s'.place, s'.head);
    HandGives(s.place, where, t, b, OnList, s'.place, where');
    LockMoved(s.lock, s.place, t, s'.lock, s'.place);
  }

  /** What an alloc or a prune does next when it has read the head. */
  lemma TakerRead(s: State, t: Thread, s': State, list: seq<Block>, where: map<Block, Where>,
                  list': seq<Block>, where': map<Block, Where>)
    requires Inv(s, list, where) && t in s.place && s.place[t].HeadRead? && TakerProceeded(s, t) == Some(s')
    requires list' == ListAfter(s, Move(t, Proceed), list) && where' == WhereAfter(s, Move(t, Proceed), where)
    ensures Inv(s', list', where')
  {
    match s.place[t].first {
      case None => Quiet(s, t, s', list, where);
      case Some(b) => Unlinking(s, t, b, s', list, where, list', where');
    }
  }

  /** What it does next when it has the lock. */
  lemma TakerInside(s: State, t: Thread, s': State, list: seq<Block>, where: map<Block, Where>,
                    list': seq<Block>, where': map<Block, Where>)
    requires Inv(s, list, where) && t in s.place && !Frees(s.place[t]) && InSection(s.place[t])
    requires TakerProceeded(s, t) == Some(s')
    requires list' == ListAfter(s, Move(t, Proceed), list) && where' == WhereAfter(s, Move(t, Proceed), where)
    ensures Inv(s', list', where')
  {
    match s.place[t] {
      case Locked(why) => Quiet(s, t, s', list, where);
      case HeadRead(_, _) => TakerRead(s, t, s', list, where, list', where');
      case Unlinked(why, b) => CountingDown(s, t, s', list, where);
      case Counted(why, b) => Quiet(s, t, s', list, where);
    }
  }

  /** What it does next when it has not. */
  lemma TakerOutside(s: State, t: Thread, s': State, list: seq<Block>, where: map<Block, Where>,
                   list': seq<Block>, where': map<Block, Where>)
    requires Inv(s, list, where) && t in s.place && !Frees(s.place[t]) && !InSection(s.place[t])
    requires TakerProceeded(s, t) == Some(s')
    requires list' == ListAfter(s, Move(t, Proceed), list) && where' == WhereAfter(s, Move(t, Proceed), where)
    ensures Inv(s', list', where')
  {
    match s.place[t] {
      case Outside =>
      case Asking(why) => Quiet(s, t, s', list, where);
      case Unlocked(ToPrune, None) => Quiet(s, t, s', list, where);
      case Unlocked(ToPrune, Some(b)) => GivingBack(s, t, b, s', list, where, where');
      case Unlocked(ToAlloc, None) =>
      case Unlocked(ToAlloc, Some(b)) => Stamping(s, t, b, s', list, where, where');
    }
  }

  /** What a free does next when it has the lock. */
  lemma FreerInside(max: nat, s: State, t: Thread, s': State, list: seq<Block>, where: map<Block, Where>,
                   list': seq<Block>, where': map<Block, Where>)
    requires Inv(s, list, where) && t in s.place && Frees(s.place[t]) && InSection(s.place[t])
    requires FreerProceeded(max, s, t) == Some(s')
    requires list' == ListAfter(s, Move(t, Proceed), list) && where' == WhereAfter(s, Move(t, Proceed), where)
    ensures Inv(s', list', where')
  {
    match s.place[t] {
      case PushLocked(b) => Linking(s, t, b, s', list, where);
      case PushLinked(b) => Pushing(s, t, b, s', list, where, list', where');
      case Pushed => CountingUp(s, t, s', list, where);
      case PushCounted => Quiet(s, t, s', list, where);
    }
  }

  /** What it does next when it has not. */
  lemma FreerOutside(max: nat, s: State, t: Thread, s': State, list: seq<Block>, where: map<Block, Where>,
                   list': seq<Block>, where': map<Block, Where>)
    requires Inv(s, list, where) && t in s.place && Frees(s.place[t]) && !InSection(s.place[t])
    requires FreerProceeded(max, s, t) == Some(s')
    requires list' == ListAfter(s, Move(t, Proceed), list) && where' == WhereAfter(s, Move(t, Proceed), where)
    ensures Inv(s', list', where')
  {
    match s.place[t] {
      case Freeing(b) => Quiet(s, t, s', list, where);
      case Refused(b) => GivingBack(s, t, b, s', list, where, where');
      case Admitted(b) => Quiet(s, t, s', list, where);
    }
  }

  lemma ProceedStays(max: nat, s: State, t: Thread, s': State, list: seq<Block>, where: map<Block, Where>,
                     list': seq<Block>, where': map<Block, Where>)
    requires Inv(s, list, where) && t in s.place && Proceeded(max, s, t) == Some(s')
    requires list' == ListAfter(s, Move(t, Proceed), list) && where' == WhereAfter(s, Move(t, Proceed), where)
    ensures Inv(s', list', where')
  {
    if Frees(s.place[t]) {
      if InSection(s.place[t]) {
        FreerInside(max, s, t, s', list, where, list', where');
      } else {
        FreerOutside(max, s, t, s', list, where, list', where');
      }
    } else if InSection(s.place[t]) {
      TakerInside(s, t, s', list, where, list', where');
    } else {
      TakerOutside(s, t, s', list, where, list', where');
    }
  }

  lemma InvStays(max: nat, s: State, m: Move, s': State, list: seq<Block>, where: map<Block, Where>,
                 list': seq<Block>, where': map<Block, Where>)
    requires Inv(s, list, where) && Stepped(max, s, m) == Some(s')
    requires list' == ListAfter(s, m, list) && where' == WhereAfter(s, m, where)
    ensures Inv(s', list', where')
  {
    match m.action {
      case BeginAlloc => Quiet(s, m.thread, s', list, where);
      case BeginPrune => Quiet(s, m.thread, s', list, where);
      case BeginFree(b) => Taking(s, m.thread, b, s', list, where, where');
      case SystemGives(b) => Obtaining(s, m.thread, b, s', list, where, where');
      case SystemFails => Quiet(s, m.thread, s', list, where);
      case Proceed => ProceedStays(max, s, m.thread, s', list, where, list', where');
    }
  }

  lemma InvOfStart(threads: set<Thread>)
    ensures Inv(Start(threads), [], map[]) && Start(threads).place.Keys == threads
  {
  }
}
