/** The bound on the pool's depth is reached: with any number of threads there are runs at
    whose end the list holds any number of blocks up to maximum - 1 + threads, and ListDepth
    counts them modulo 2^16. */
module PoolLimit {
  import opened Bytes
  import opened Pool
  import opened PoolRuns

  lemma Extend(max: nat, threads: set<Thread>, moves: seq<Move>, m: Move, s: State, s': State)
    requires After(max, threads, moves) == Some(s) && Stepped(max, s, m) == Some(s')
    ensures After(max, threads, moves + [m]) == Some(s')
  {
    assert (moves + [m])[..|moves|] == moves;
  }

  lemma ExtendTaker(max: nat, threads: set<Thread>, moves: seq<Move>, t: Thread, s: State, s': State)
    requires After(max, threads, moves) == Some(s) && t in s.place && !Frees(s.place[t])
    requires TakerProceeded(s, t) == Some(s')
    ensures After(max, threads, moves + [Move(t, Proceed)]) == Some(s')
  {
    Extend(max, threads, moves, Move(t, Proceed), s, s');
  }

  lemma ExtendFreer(max: nat, threads: set<Thread>, moves: seq<Move>, t: Thread, s: State, s': State)
    requires After(max, threads, moves) == Some(s) && t in s.place && Frees(s.place[t])
    requires FreerProceeded(max, s, t) == Some(s')
    ensures After(max, threads, moves + [Move(t, Proceed)]) == Some(s')
  {
    Extend(max, threads, moves, Move(t, Proceed), s, s');
  }

  function CountedUp(depth: uint16): uint16
  {
    if depth == 65535 then 0 else depth + 1
  }

  /** While t pushes b onto s: t is at q. */
  function Amid(s: State, t: Thread, b: Block, q: Place, head: Option<Block>, depth: uint16, lock: Option<Thread>)
    : State
  {
    State(lock, head, depth, s.word[b := Next(s.head)], s.place[t := q], s.obtained, s.held, s.returned)
  }

  lemma AmidSteps(max: nat, s: State, t: Thread, b: Block)
    ensures
      FreerProceeded(max, Amid(s, t, b, PushLinked(b), s.head, s.depth, Some(t)), t) ==
      Some(Amid(s, t, b, Pushed, Some(b), s.depth, Some(t)))
    ensures
      FreerProceeded(max, Amid(s, t, b, Pushed, Some(b), s.depth, Some(t)), t) ==
      Some(Amid(s, t, b, PushCounted, Some(b), CountedUp(s.depth), Some(t)))
    ensures
      FreerProceeded(max, Amid(s, t, b, PushCounted, Some(b), CountedUp(s.depth), Some(t)), t) ==
      Some(Amid(s, t, b, Outside, Some(b), CountedUp(s.depth), None))
  {
    Overwritten(s.place, t, PushLinked(b), Pushed);
    Overwritten(s.place, t, Pushed, PushCounted);
    Overwritten(s.place, t, PushCounted, Outside);
  }

  lemma LockSteps(max: nat, s: State, t: Thread, b: Block)
    requires t in s.place && s.place[t] == Admitted(b) && s.lock == None
    ensures FreerProceeded(max, s, t) == Some(At(s, t, PushLocked(b)).(lock := Some(t)))
    ensures
      FreerProceeded(max, At(s, t, PushLocked(b)).(lock := Some(t)), t) ==
      Some(Amid(s, t, b, PushLinked(b), s.head, s.depth, Some(t)))
  {
    Overwritten(s.place, t, PushLocked(b), PushLinked(b));
  }

  lemma FreerMoves(max: nat, threads: set<Thread>, moves: seq<Move>, t: Thread, s: State, s': State)
    returns (longer: seq<Move>)
    requires After(max, threads, moves) == Some(s) && t in s.place && Frees(s.place[t])
    requires FreerProceeded(max, s, t) == Some(s')
    ensures After(max, threads, longer) == Some(s')
  {
    longer := moves + [Move(t, Proceed)];
    ExtendFreer(max, threads, moves, t, s, s');
  }

  /** The rest of a free that has been admitted. */
  lemma Push(max: nat, threads: set<Thread>, moves: seq<Move>, s: State, t: Thread, b: Block)
    returns (longer: seq<Move>)
    requires After(max, threads, moves) == Some(s) && s.lock == None
    requires t in s.place && s.place[t] == Admitted(b)
    ensures After(max, threads, longer) == Some(Amid(s, t, b, Outside, Some(b), CountedUp(s.depth), None))
  {
    var s1 := At(s, t, PushLocked(b)).(lock := Some(t));
    var s2 := Amid(s, t, b, PushLinked(b), s.head, s.depth, Some(t));
    var s3 := Amid(s, t, b, Pushed, Some(b), s.depth, Some(t));
    var s4 := Amid(s, t, b, PushCounted, Some(b), CountedUp(s.depth), Some(t));
    LockSteps(max, s, t, b);
    AmidSteps(max, s, t, b);
    longer := FreerMoves(max, threads, moves, t, s, s1);
    longer := FreerMoves(max, threads, longer, t, s1, s2);
    longer := FreerMoves(max, threads, longer, t, s2, s3);
    longer := FreerMoves(max, threads, longer, t, s3, s4);
    longer := FreerMoves(max, threads, longer, t, s4, Amid(s, t, b, Outside, Some(b), CountedUp(s.depth), None));
  }

  /** A free up to its admission. */
  lemma Admit(max: nat, threads: set<Thread>, moves: seq<Move>, s: State, t: Thread, b: Block)
    returns (longer: seq<Move>)
    requires After(max, threads, moves) == Some(s) && s.depth < max
    requires t in s.place && s.place[t] == Outside && b in s.held
    ensures After(max, threads, longer) == Some(At(s, t, Admitted(b)).(held := s.held - {b}))
  {
    assert b in s.word && s.word[b] == Owner by {
      InvOfRuns(max, threads, moves);
    }
    var s1 := At(s, t, Freeing(b)).(held := s.held - {b});
    var s2 := At(s1, t, Admitted(b));
    Extend(max, threads, moves, Move(t, BeginFree(b)), s, s1);
    longer := moves + [Move(t, BeginFree(b))];
    ExtendFreer(max, threads, longer, t, s1, s2);
    longer := longer + [Move(t, Proceed)];
    Overwritten(s.place, t, Freeing(b), Admitted(b));
  }

  function Begin(why: Purpose): Action
  {
    if why == ToAlloc then BeginAlloc else BeginPrune
  }

  lemma Begins(max: nat, threads: set<Thread>, moves: seq<Move>, s: State, t: Thread, why: Purpose)
    requires After(max, threads, moves) == Some(s) && t in s.place && s.place[t] == Outside
    ensures After(max, threads, moves + [Move(t, Begin(why))]) == Some(At(s, t, Asking(why)))
  {
    Extend(max, threads, moves, Move(t, Begin(why)), s, At(s, t, Asking(why)));
  }

  lemma AcquiresLock(s: State, t: Thread, why: Purpose)
    requires s.lock == None && t in s.place
    ensures TakerProceeded(At(s, t, Asking(why)), t) == Some(At(s, t, Locked(why)).(lock := Some(t)))
  {
    Overwritten(s.place, t, Asking(why), Locked(why));
  }

  /** An alloc or a prune up to the point where it has the lock. */
  lemma TakeLock(max: nat, threads: set<Thread>, moves: seq<Move>, s: State, t: Thread, why: Purpose)
    returns (longer: seq<Move>)
    requires After(max, threads, moves) == Some(s) && s.lock == None && t in s.place && s.place[t] == Outside
    ensures After(max, threads, longer) == Some(At(s, t, Locked(why)).(lock := Some(t)))
  {
    Begins(max, threads, moves, s, t, why);
    AcquiresLock(s, t, why);
    longer := moves + [Move(t, Begin(why))];
    ExtendTaker(max, threads, longer, t, At(s, t, Asking(why)), At(s, t, Locked(why)).(lock := Some(t)));
    longer := longer + [Move(t, Proceed)];
  }

  /** An alloc up to the point where it has found the list empty. */
  lemma FindNone(max: nat, threads: set<Thread>, moves: seq<Move>, s: State, t: Thread) returns (longer: seq<Move>)
    requires After(max, threads, moves) == Some(s) && s.lock == None && s.head == None
    requires t in s.place && s.place[t] == Outside
    ensures After(max, threads, longer) == Some(At(s, t, Unlocked(ToAlloc, None)))
  {
    var s1 := At(s, t, Locked(ToAlloc)).(lock := Some(t));
    var s2 := At(s1, t, HeadRead(ToAlloc, None));
    var s3 := At(s2, t, Unlocked(ToAlloc, None)).(lock := None);
    longer := TakeLock(max, threads, moves, s, t, ToAlloc);
    ExtendTaker(max, threads, longer, t, s1, s2);
    longer := longer + [Move(t, Proceed)];
    ExtendTaker(max, threads, longer, t, s2, s3);
    longer := longer + [Move(t, Proceed)];
    Overwritten(s.place, t, Locked(ToAlloc), HeadRead(ToAlloc, None));
    Overwritten(s.place, t, HeadRead(ToAlloc, None), Unlocked(ToAlloc, None));
  }

  /** An alloc from an empty list. */
  lemma Alloc(max: nat, threads: set<Thread>, moves: seq<Move>, s: State, t: Thread, b: Block)
    returns (longer: seq<Move>)
    requires After(max, threads, moves) == Some(s) && s.lock == None && s.head == None && b !in s.obtained
    requires t in s.place && s.place[t] == Outside
    ensures After(max, threads, longer) ==
            Some(s.(word := s.word[b := Owner], held := s.held + {b}, obtained := s.obtained + {b}))
  {
    var s1 := At(s, t, Unlocked(ToAlloc, None));
    var s2 := At(s1, t, Unlocked(ToAlloc, Some(b))).(obtained := s.obtained + {b});
    var s3 := At(s2, t, Outside).(word := s.word[b := Owner], held := s.held + {b});
    longer := FindNone(max, threads, moves, s, t);
    Extend(max, threads, longer, Move(t, SystemGives(b)), s1, s2);
    longer := longer + [Move(t, SystemGives(b))];
    ExtendTaker(max, threads, longer, t, s2, s3);
    longer := longer + [Move(t, Proceed)];
    Overwritten(s.place, t, Unlocked(ToAlloc, None), Unlocked(ToAlloc, Some(b)));
    Overwritten(s.place, t, Unlocked(ToAlloc, Some(b)), Outside);
    Restored(s.place, t);
  }

  lemma PushedChain(max: nat, threads: set<Thread>, moves: seq<Move>, s: State, t: Thread, b: Block, list: seq<Block>)
    requires After(max, threads, moves) == Some(s) && IsChain(s.head, s.word, list)
    requires t in s.place && s.place[t] == Admitted(b)
    ensures IsChain(Some(b), s.word[b := Next(s.head)], [b] + list)
  {
    InvOfRuns(max, threads, moves);
    ChainUnique(s.head, s.word, list, ListOf(max, threads, moves));
    assert Hand(s.place[t]) == Some(b);
    ChainFrame(s.head, s.word, list, b, Next(s.head));
    assert ([b] + list)[1..] == list;
  }

  lemma DepthModulo(max: nat, threads: set<Thread>, moves: seq<Move>, s: State, list: seq<Block>)
    requires After(max, threads, moves) == Some(s) && s.lock == None && IsChain(s.head, s.word, list)
    ensures s.depth as int == |list| % 65536
    ensures |list| < 65536 ==> s.depth == |list|
  {
    var only := ListOf(max, threads, moves);
    InvOfRuns(max, threads, moves);
    assert list == only by {
      ChainUnique(s.head, s.word, list, only);
    }
    DepthIsCount(s, only, WhereOf(max, threads, moves));
  }

  lemma DepthIsCount(s: State, list: seq<Block>, where: map<Block, Where>)
    requires Inv(s, list, where) && s.lock == None
    ensures s.depth as int == |list| % 65536
    ensures |list| < 65536 ==> s.depth == |list|
  {
  }

  ghost predicate AllOutside(place: map<Thread, Place>, threads: set<Thread>)
  {
    place.Keys == threads && forall t | t in threads :: place[t] == Outside
  }

  /** Clients come to hold k blocks. */
  lemma {:induction false} Stock(max: nat, threads: set<Thread>, t: Thread, k: nat) returns (moves: seq<Move>, s: State)
    requires t in threads
    ensures After(max, threads, moves) == Some(s) && s.lock == None && s.head == None
    ensures AllOutside(s.place, threads) && |s.held| == k && forall b | b in s.obtained :: b < k
  {
    if k == 0 {
      moves, s := [], Start(threads);
    } else {
      moves, s := Stock(max, threads, t, k - 1);
      HeldObtained(max, threads, moves, s);
      moves := Alloc(max, threads, moves, s, t, k - 1);
      s := After(max, threads, moves).value;
    }
  }

  lemma HeldObtained(max: nat, threads: set<Thread>, moves: seq<Move>, s: State)
    requires After(max, threads, moves) == Some(s)
    ensures s.held <= s.obtained
  {
    InvOfRuns(max, threads, moves);
  }

  /** One thread frees a block while the others are outside. */
  lemma FreeOne(max: nat, threads: set<Thread>, moves: seq<Move>, s: State, t: Thread, b: Block, list: seq<Block>)
    returns (longer: seq<Move>, s': State)
    requires After(max, threads, moves) == Some(s) && s.lock == None && IsChain(s.head, s.word, list)
    requires s.depth < max && t in s.place && s.place[t] == Outside && b in s.held
    ensures After(max, threads, longer) == Some(s') && s'.lock == None && IsChain(s'.head, s'.word, [b] + list)
    ensures s'.place == s.place && |s'.held| == |s.held| - 1
  {
    var admitted := At(s, t, Admitted(b)).(held := s.held - {b});
    longer := Admit(max, threads, moves, s, t, b);
    PushedChain(max, threads, longer, admitted, t, b, list);
    longer := Push(max, threads, longer, admitted, t, b);
    s' := After(max, threads, longer).value;
    Overwritten(s.place, t, Admitted(b), Outside);
    Restored(s.place, t);
  }

  /** One thread frees k blocks, one after the other. */
  lemma {:induction false} Fill(max: nat, threads: set<Thread>, t: Thread, stocked: seq<Move>, k: nat)
    returns (moves: seq<Move>, s: State, list: seq<Block>)
    requires t in threads && k < max && After(max, threads, stocked).Some?
    requires
      var s0 := After(max, threads, stocked).value;
      s0.lock == None && s0.head == None && AllOutside(s0.place, threads) && k <= |s0.held|
    ensures After(max, threads, moves) == Some(s) && s.lock == None && IsChain(s.head, s.word, list)
    ensures AllOutside(s.place, threads) && |list| == k
    ensures |s.held| == |After(max, threads, stocked).value.held| - k
  {
    if k == 0 {
      moves, s, list := stocked, After(max, threads, stocked).value, [];
    } else {
      moves, s, list := Fill(max, threads, t, stocked, k - 1);
      assert s.depth < max by {
        DepthModulo(max, threads, moves, s, list);
      }
      var b :| b in s.held;
      moves, s := FreeOne(max, threads, moves, s, t, b, list);
      list := [b] + list;
    }
  }

  /** Each thread of a set is admitted before any of them pushes. */
  lemma {:induction false} AdmitAll(max: nat, threads: set<Thread>, filled: seq<Move>, s0: State, some: set<Thread>)
    returns (moves: seq<Move>, s: State)
    requires After(max, threads, filled) == Some(s0) && AllOutside(s0.place, threads) && s0.depth < max
    requires some <= threads && |some| <= |s0.held|
    ensures After(max, threads, moves) == Some(s) && |s.held| == |s0.held| - |some|
    ensures s.head == s0.head && s.word == s0.word && s.depth == s0.depth && s.lock == s0.lock
    ensures s.place.Keys == threads
    ensures forall t | t in threads :: if t in some then s.place[t].Admitted? else s.place[t] == Outside
    decreases |some|
  {
    if some == {} {
      moves, s := filled, s0;
    } else {
      var t :| t in some;
      moves, s := AdmitAll(max, threads, filled, s0, some - {t});
      var b :| b in s.held;
      moves := Admit(max, threads, moves, s, t, b);
      s := After(max, threads, moves).value;
    }
  }

  /** All that have been admitted push. */
  lemma {:induction false} PushAll(max: nat, threads: set<Thread>, admitted: seq<Move>, s0: State, list0: seq<Block>,
                                   some: set<Thread>)
    returns (moves: seq<Move>, s: State, list: seq<Block>)
    requires After(max, threads, admitted) == Some(s0) && s0.lock == None && IsChain(s0.head, s0.word, list0)
    requires some <= threads && s0.place.Keys == threads
    requires forall t | t in some :: s0.place[t].Admitted?
    ensures After(max, threads, moves) == Some(s) && s.lock == None && IsChain(s.head, s.word, list)
    ensures s.place.Keys == threads
    ensures forall t | t in threads :: s.place[t] == if t in some then Outside else s0.place[t]
    ensures |list| == |list0| + |some|
    decreases |some|
  {
    if some == {} {
      moves, s, list := admitted, s0, list0;
    } else {
      var t :| t in some;
      moves, s, list := PushAll(max, threads, admitted, s0, list0, some - {t});
      var b := s.place[t].block;
      PushedChain(max, threads, moves, s, t, b, list);
      moves := Push(max, threads, moves, s, t, b);
      s := After(max, threads, moves).value;
      list := [b] + list;
    }
  }

  lemma {:induction false} SetOfSize(threads: set<Thread>, n: nat) returns (some: set<Thread>)
    requires n <= |threads|
    ensures some <= threads && |some| == n
  {
    if n == 0 {
      some := {};
    } else {
      var t :| t in threads;
      some := SetOfSize(threads - {t}, n - 1);
      some := some + {t};
    }
  }

  /** There is a run that leaves n blocks on the list, for every n up to maximum - 1 + threads. */
  lemma LengthReached(max: nat, threads: set<Thread>, n: nat) returns (moves: seq<Move>, s: State, list: seq<Block>)
    requires threads != {} && 1 <= max && n <= max - 1 + |threads|
    ensures After(max, threads, moves) == Some(s) && s.lock == None && IsChain(s.head, s.word, list)
    ensures AllOutside(s.place, threads) && |list| == n && s.depth as int == n % 65536
    ensures n < 65536 ==> s.depth == n
  {
    var t :| t in threads;
    var filled := if n < max then n else max - 1;
    var some := SetOfSize(threads, n - filled);
    moves, s := Stock(max, threads, t, n);
    moves, s, list := Fill(max, threads, t, moves, filled);
    DepthModulo(max, threads, moves, s, list);
    if n > filled {
      assert s.depth < max;
      moves, s := AdmitAll(max, threads, moves, s, some);
      moves, s, list := PushAll(max, threads, moves, s, list, some);
      DepthModulo(max, threads, moves, s, list);
    }
  }

  /** With n threads there is a run that leaves maximum - 1 + n blocks on the list. */
  lemma LimitReached(max: nat, threads: set<Thread>) returns (moves: seq<Move>, s: State, list: seq<Block>)
    requires 1 <= max && threads != {}
    ensures After(max, threads, moves) == Some(s) && s.lock == None && IsChain(s.head, s.word, list)
    ensures |list| == max - 1 + |threads| && s.depth as int == |list| % 65536
  {
    moves, s, list := LengthReached(max, threads, max - 1 + |threads|);
  }

  // ---------------------------------------------------------------- what the depth tells

  /** What ListDepth is for. */
  ghost predicate DepthTells(max: nat, threads: set<Thread>, moves: seq<Move>, list: seq<Block>)
  {
    match After(max, threads, moves)
    case None => true
    case Some(s) => s.lock == None && IsChain(s.head, s.word, list) ==> s.depth == |list|
  }

  /** The 16-bit ListDepth is the length of the list after all runs exactly when the depth fits. */
  lemma DepthIsLengthIff(max: nat, threads: set<Thread>)
    ensures (forall moves, list :: DepthTells(max, threads, moves, list)) <==> DepthFits(max, |threads|)
  {
    if DepthFits(max, |threads|) {
      forall moves, list | After(max, threads, moves).Some? && After(max, threads, moves).value.lock == None
        ensures DepthTells(max, threads, moves, list)
      {
        DepthIsLength(max, threads, moves, list);
      }
    } else {
      var moves, s, list := LimitReached(max, threads);
      assert !DepthTells(max, threads, moves, list);
    }
  }

  /** A number bounds the depth of all runs. */
  ghost predicate Bounds(max: nat, threads: set<Thread>, bound: nat)
  {
    forall moves | After(max, threads, moves).Some? :: After(max, threads, moves).value.depth <= bound
  }

  /** The greatest depth that is reached: what 16 bits can count of the cap. */
  function GreatestDepth(max: nat, n: nat): nat
  {
    if DepthCap(max, n) > 65535 then 65535 else DepthCap(max, n)
  }

  lemma DepthReached(max: nat, threads: set<Thread>, d: uint16) returns (moves: seq<Move>, s: State)
    requires threads != {} && 1 <= max && d <= max - 1 + |threads|
    ensures After(max, threads, moves) == Some(s) && s.depth == d
  {
    var list: seq<Block>;
    moves, s, list := LengthReached(max, threads, d);
  }

  lemma LeastBound(max: nat, threads: set<Thread>, bound: nat)
    requires Bounds(max, threads, bound)
    ensures GreatestDepth(max, |threads|) <= bound
  {
    if max >= 1 && threads != {} {
      var moves, s := DepthReached(max, threads, GreatestDepth(max, |threads|));
      BoundAfter(max, threads, bound, moves, s);
    }
  }

  lemma BoundAfter(max: nat, threads: set<Thread>, bound: nat, moves: seq<Move>, s: State)
    requires Bounds(max, threads, bound) && After(max, threads, moves) == Some(s)
    ensures s.depth <= bound
  {
    assert After(max, threads, moves).value.depth <= bound;
  }

  /** The least bound that holds for all runs. */
  lemma DepthBoundIsExact(max: nat, threads: set<Thread>, bound: nat)
    ensures Bounds(max, threads, bound) <==> GreatestDepth(max, |threads|) <= bound
  {
    if Bounds(max, threads, bound) {
      LeastBound(max, threads, bound);
    }
    forall moves | After(max, threads, moves).Some?
      ensures After(max, threads, moves).value.depth <= GreatestDepth(max, |threads|)
    {
      if DepthFits(max, |threads|) {
        DepthBound(max, threads, moves);
      }
    }
  }

  // ---------------------------------------------------------------- the assertions

  /** A pop from a list of which the depth counts nothing. */
  lemma PopUncounted(max: nat, threads: set<Thread>, moves: seq<Move>, s: State, t: Thread, list: seq<Block>)
    returns (longer: seq<Move>, s': State)
    requires After(max, threads, moves) == Some(s) && s.lock == None && s.depth == 0
    requires t in s.place && s.place[t] == Outside && IsChain(s.head, s.word, list) && list != []
    ensures After(max, threads, longer) == Some(s') && !Asserts(s', t)
  {
    var s1 := At(s, t, Locked(ToPrune)).(lock := Some(t));
    var s2 := At(s1, t, HeadRead(ToPrune, s.head));
    var s3 := At(s2, t, Unlinked(ToPrune, list[0])).(head := s.word[list[0]].next);
    longer := TakeLock(max, threads, moves, s, t, ToPrune);
    ExtendTaker(max, threads, longer, t, s1, s2);
    longer := longer + [Move(t, Proceed)];
    ExtendTaker(max, threads, longer, t, s2, s3);
    longer := longer + [Move(t, Proceed)];
    s' := s3;
  }

  /** When the depth does not fit there is a run in which 65536 blocks are on the list, and
      then a thread that prunes finds a depth of zero. */
  lemma AssertionFails(max: nat, threads: set<Thread>) returns (moves: seq<Move>, s: State, t: Thread)
    requires !DepthFits(max, |threads|)
    ensures After(max, threads, moves) == Some(s) && !Asserts(s, t)
  {
    t :| t in threads;
    var full, s0, list := LengthReached(max, threads, 65536);
    moves, s := PopUncounted(max, threads, full, s0, t, list);
  }

  /** The assertions of alloc and prune hold in a run. */
  ghost predicate AssertsAfter(max: nat, threads: set<Thread>, moves: seq<Move>, t: Thread)
  {
    After(max, threads, moves).Some? ==> Asserts(After(max, threads, moves).value, t)
  }

  /** The assertions hold in all runs exactly when the depth fits. */
  lemma AssertionsHoldIff(max: nat, threads: set<Thread>)
    ensures (forall moves, t :: AssertsAfter(max, threads, moves, t)) <==> DepthFits(max, |threads|)
  {
    if DepthFits(max, |threads|) {
      forall moves, t | After(max, threads, moves).Some?
        ensures AssertsAfter(max, threads, moves, t)
      {
        AssertionsHold(max, threads, moves, t);
      }
    } else {
      var moves, s, t := AssertionFails(max, threads);
      assert !AssertsAfter(max, threads, moves, t);
    }
  }
}
