/** Runs of the shared pool: what holds after any interleaving of any number of threads. */
module PoolRuns {
  import opened Bytes
  import opened Pool

  /** The state after a run from a new pool, if each of the moves can be made. */
  function After(max: nat, threads: set<Thread>, moves: seq<Move>): Option<State>
  {
    if moves == [] then Some(Start(threads))
    else
      match After(max, threads, moves[..|moves| - 1])
      case None => None
      case Some(s) => Stepped(max, s, moves[|moves| - 1])
  }

  ghost function ListOf(max: nat, threads: set<Thread>, moves: seq<Move>): seq<Block>
    requires After(max, threads, moves).Some?
  {
    if moves == [] then []
    else
      var before := moves[..|moves| - 1];
      ListAfter(After(max, threads, before).value, moves[|moves| - 1], ListOf(max, threads, before))
  }

  ghost function WhereOf(max: nat, threads: set<Thread>, moves: seq<Move>): map<Block, Where>
    requires After(max, threads, moves).Some?
  {
    if moves == [] then map[]
    else
      var before := moves[..|moves| - 1];
      WhereAfter(After(max, threads, before).value, moves[|moves| - 1], WhereOf(max, threads, before))
  }

  lemma {:induction false} InvOfRuns(max: nat, threads: set<Thread>, moves: seq<Move>)
    requires After(max, threads, moves).Some?
    ensures After(max, threads, moves).value.place.Keys == threads
    ensures Inv(After(max, threads, moves).value, ListOf(max, threads, moves), WhereOf(max, threads, moves))
  {
    if moves == [] {
      InvOfStart(threads);
    } else {
      var before, last := moves[..|moves| - 1], moves[|moves| - 1];
      var s, s' := After(max, threads, before).value, After(max, threads, moves).value;
      InvOfRuns(max, threads, before);
      InvStays(max, s, last, s', ListOf(max, threads, before), WhereOf(max, threads, before),
               ListOf(max, threads, moves), WhereOf(max, threads, moves));
    }
  }

  // ---------------------------------------------------------------- the depth

  /** Between the test of the depth and the increment. */
  predicate Admitting(p: Place) {
    p.Admitted? || p.PushLocked? || p.PushLinked? || p.Pushed?
  }

  function AdmittingThreads(place: map<Thread, Place>): set<Thread>
  {
    set t | t in place && Admitting(place[t])
  }

  /** The depth without wrap-around, with the threads that are about to raise it. */
  ghost predicate Bounded(max: nat, s: State, list: seq<Block>)
  {
    && 0 <= |list| + Lag(s.lock, s.place)
    && |list| + Lag(s.lock, s.place) + |AdmittingThreads(s.place)| < max + |s.place.Keys|
    && (max == 0 ==> |list| + Lag(s.lock, s.place) == |AdmittingThreads(s.place)| == 0)
  }

  /** The depth never leaves 16 bits: pools are disabled, or n threads have room above the maximum. */
  predicate DepthFits(max: nat, n: nat)
  {
    max == 0 || n == 0 || max + n <= 65536
  }

  /** How far n threads can raise the depth, as long as it fits. */
  function DepthCap(max: nat, n: nat): nat
  {
    if max == 0 || n == 0 then 0 else max - 1 + n
  }

  lemma AdmittingMoved(place: map<Thread, Place>, t: Thread, place': map<Thread, Place>)
    requires OneMoved(place, t, place')
    ensures place'.Keys == place.Keys
    ensures |AdmittingThreads(place')| ==
            |AdmittingThreads(place)| + (if Admitting(place'[t]) then 1 else 0) - (if Admitting(place[t]) then 1 else 0)
    ensures |AdmittingThreads(place')| <= |place.Keys|
  {
    var a, b := AdmittingThreads(place), AdmittingThreads(place');
    assert place'.Keys == place.Keys;
    assert a - {t} == b - {t};
    assert t in a <==> Admitting(place[t]);
    assert t in b <==> Admitting(place'[t]);
    assert (t !in a ==> a - {t} == a) && (t !in b ==> b - {t} == b);
    assert b <= place.Keys;
    Subset(b, place.Keys);
  }

  lemma {:induction false} Subset(a: set<Thread>, b: set<Thread>)
    requires a <= b
    ensures |a| <= |b|
    decreases |a|
  {
    if a == {} {
    } else {
      var x :| x in a;
      Subset(a - {x}, b - {x});
    }
  }

  /** From where to where a thread proceeds. */
  predicate Advances(max: nat, s: State, t: Thread, p: Place, q: Place, lock': Option<Thread>)
  {
    && LockMoves(s.lock, t, p, q, lock')
    && LagOf(q) == (if p.HeadRead? && p.first.Some? then 1 else if p.PushLinked? then -1 else 0)
    && (Admitting(q) <==> (p.Freeing? && s.depth < max) || p.Admitted? || p.PushLocked? || p.PushLinked?)
  }

  lemma TakerAdvances(max: nat, s: State, t: Thread, s': State)
    requires t in s.place && !Frees(s.place[t]) && TakerProceeded(s, t) == Some(s')
    ensures t in s'.place && Advances(max, s, t, s.place[t], s'.place[t], s'.lock)
  {
  }

  lemma FreerAdvances(max: nat, s: State, t: Thread, s': State)
    requires t in s.place && Frees(s.place[t]) && FreerProceeded(max, s, t) == Some(s')
    ensures t in s'.place && Advances(max, s, t, s.place[t], s'.place[t], s'.lock)
  {
  }

  lemma PlaceAfter(max: nat, s: State, m: Move, s': State)
    requires Stepped(max, s, m) == Some(s')
    ensures m.thread in s.place && m.thread in s'.place
    ensures
      var p, q := s.place[m.thread], s'.place[m.thread];
      && LockMoves(s.lock, m.thread, p, q, s'.lock)
      && (m.action.Proceed? ==> Advances(max, s, m.thread, p, q, s'.lock))
      && (!m.action.Proceed? ==> LagOf(p) == LagOf(q) == 0 && !Admitting(p) && !Admitting(q))
  {
    if m.action.Proceed? {
      if Frees(s.place[m.thread]) {
        FreerAdvances(max, s, m.thread, s');
      } else {
        TakerAdvances(max, s, m.thread, s');
      }
    }
  }

  lemma LagShown(s: State, t: Thread, list: seq<Block>, where: map<Block, Where>)
    requires Inv(s, list, where) && t in s.place
    ensures LagOf(s.place[t]) != 0 ==> Lag(s.lock, s.place) == LagOf(s.place[t])
    ensures 0 <= |list| + Lag(s.lock, s.place)
  {
    if s.lock.Some? {
      assert Relies(s.place[s.lock.value], s.head, s.word);
    }
  }

  /** Only the two accesses to ListDepth change the depth, each by one. */
  lemma DepthMoves(max: nat, s: State, m: Move, s': State, list: seq<Block>, where: map<Block, Where>)
    requires Inv(s, list, where) && Stepped(max, s, m) == Some(s')
    ensures 0 <= |ListAfter(s, m, list)| + Lag(s'.lock, s'.place) == |list| + Lag(s.lock, s.place) +
            (if m.action.Proceed? then -LagOf(s.place[m.thread]) else 0)
  {
    LagShown(s, m.thread, list, where);
    var t, p := m.thread, s.place[m.thread];
    PlaceAfter(max, s, m, s');
    LockMoved(s.lock, s.place, t, s'.lock, s'.place);
    assert p.HeadRead? ==> p.first == s.head;
  }

  /** The arithmetic of the bound: a is the number of admitting threads out of n, d the depth. */
  lemma BoundCounts(max: nat, n: nat, d: nat, a: nat, a': nat, p: Place, q: Place, proceeds: bool)
    requires d + a < max + n && (max == 0 ==> d == a == 0)
    requires a' == a + (if Admitting(q) then 1 else 0) - (if Admitting(p) then 1 else 0) && a' <= n
    requires !proceeds ==> !Admitting(q) && !Admitting(p)
    requires proceeds ==>
      (Admitting(q) <==> (p.Freeing? && d < max) || p.Admitted? || p.PushLocked? || p.PushLinked?)
    ensures
      var d' := d + if proceeds then -LagOf(p) else 0;
      d' + a' < max + n && (max == 0 ==> d' <= 0 && a' == 0)
  {
  }

  lemma AdmittedFew(max: nat, s: State, m: Move, s': State, d: nat, d': nat)
    requires Stepped(max, s, m) == Some(s') && s.depth == d
    requires d' == d + (if m.action.Proceed? then -LagOf(s.place[m.thread]) else 0)
    requires d + |AdmittingThreads(s.place)| < max + |s.place.Keys|
    requires max == 0 ==> d == |AdmittingThreads(s.place)| == 0
    ensures d' + |AdmittingThreads(s'.place)| < max + |s'.place.Keys|
    ensures max == 0 ==> d' == |AdmittingThreads(s'.place)| == 0
  {
    PlaceAfter(max, s, m, s');
    AdmittingMoved(s.place, m.thread, s'.place);
    BoundCounts(max, |s.place.Keys|, d, |AdmittingThreads(s.place)|, |AdmittingThreads(s'.place)|,
                s.place[m.thread], s'.place[m.thread], m.action.Proceed?);
  }

  lemma DepthExact(max: nat, s: State, list: seq<Block>, where: map<Block, Where>)
    requires Inv(s, list, where) && Bounded(max, s, list) && s.place.Keys != {} && DepthFits(max, |s.place.Keys|)
    ensures s.depth as int == |list| + Lag(s.lock, s.place)
  {
    DepthKeptExact(s.depth, |list| + Lag(s.lock, s.place));
  }

  lemma DepthKeptExact(depth: uint16, n: int)
    requires DepthKept(depth, n) && 0 <= n < 65536
    ensures depth as int == n
  {
  }

  lemma BoundStays(max: nat, s: State, m: Move, s': State, list: seq<Block>, where: map<Block, Where>)
    requires Inv(s, list, where) && Stepped(max, s, m) == Some(s')
    requires Bounded(max, s, list) && s.place.Keys != {} && DepthFits(max, |s.place.Keys|)
    ensures Bounded(max, s', ListAfter(s, m, list))
  {
    var d, d' := |list| + Lag(s.lock, s.place), |ListAfter(s, m, list)| + Lag(s'.lock, s'.place);
    assert 0 <= d' == d + (if m.action.Proceed? then -LagOf(s.place[m.thread]) else 0) by {
      DepthMoves(max, s, m, s', list, where);
    }
    assert s.depth == d by {
      DepthExact(max, s, list, where);
    }
    AdmittedFew(max, s, m, s', d, d');
  }

  lemma {:induction false} BoundOfRuns(max: nat, threads: set<Thread>, moves: seq<Move>)
    requires After(max, threads, moves).Some? && threads != {} && DepthFits(max, |threads|)
    ensures Bounded(max, After(max, threads, moves).value, ListOf(max, threads, moves))
  {
    if moves == [] {
      assert AdmittingThreads(Start(threads).place) == {};
      InvOfStart(threads);
    } else {
      var before, last := moves[..|moves| - 1], moves[|moves| - 1];
      var s, s' := After(max, threads, before).value, After(max, threads, moves).value;
      InvOfRuns(max, threads, before);
      BoundOfRuns(max, threads, before);
      BoundStays(max, s, last, s', ListOf(max, threads, before), WhereOf(max, threads, before));
    }
  }

  // ---------------------------------------------------------------- what holds after every run

  /** Without threads nothing happens. */
  lemma NoThreads(max: nat, moves: seq<Move>)
    requires After(max, {}, moves).Some?
    ensures After(max, {}, moves) == Some(Start({}))
  {
    if moves == [] {
    } else {
      InvOfRuns(max, {}, moves[..|moves| - 1]);
    }
  }

  /** When the depth fits, ListDepth counts the blocks that the links lead through, with those
      that a thread is about to count. */
  lemma DepthCounts(max: nat, threads: set<Thread>, moves: seq<Move>)
    requires After(max, threads, moves).Some? && DepthFits(max, |threads|)
    ensures
      var s := After(max, threads, moves).value;
      && s.depth as int == |ListOf(max, threads, moves)| + Lag(s.lock, s.place)
      && s.depth + |AdmittingThreads(s.place)| <= DepthCap(max, |threads|)
  {
    InvOfRuns(max, threads, moves);
    var s, list := After(max, threads, moves).value, ListOf(max, threads, moves);
    if threads == {} {
      NoThreads(max, moves);
      assert AdmittingThreads(s.place) == {};
    } else {
      BoundOfRuns(max, threads, moves);
      DepthExact(max, s, list, WhereOf(max, threads, moves));
    }
  }

  /** Whenever the lock is free, ListDepth is the number of blocks that the links lead
      through, as long as the depth fits. */
  lemma DepthIsLength(max: nat, threads: set<Thread>, moves: seq<Move>, list: seq<Block>)
    requires After(max, threads, moves).Some? && DepthFits(max, |threads|)
    requires After(max, threads, moves).value.lock == None
    ensures
      var s := After(max, threads, moves).value;
      IsChain(s.head, s.word, list) ==> s.depth == |list|
  {
    InvOfRuns(max, threads, moves);
    DepthCounts(max, threads, moves);
    var s := After(max, threads, moves).value;
    if IsChain(s.head, s.word, list) {
      ChainUnique(s.head, s.word, list, ListOf(max, threads, moves));
    }
  }

  /** The depth may pass the maximum, because it is tested without the lock, but only by
      the threads that are between the test and the increment. */
  lemma DepthBound(max: nat, threads: set<Thread>, moves: seq<Move>)
    requires After(max, threads, moves).Some? && DepthFits(max, |threads|)
    ensures
      var s := After(max, threads, moves).value;
      s.depth + |AdmittingThreads(s.place)| <= DepthCap(max, |threads|)
  {
    DepthCounts(max, threads, moves);
  }

  /** A disabled pool has no block at all, however many threads there are. */
  lemma DisabledStaysEmpty(threads: set<Thread>, moves: seq<Move>)
    requires After(0, threads, moves).Some?
    ensures
      var s := After(0, threads, moves).value;
      s.depth == 0 && s.head == None && AdmittingThreads(s.place) == {}
  {
    InvOfRuns(0, threads, moves);
    DepthCounts(0, threads, moves);
    var s, list := After(0, threads, moves).value, ListOf(0, threads, moves);
    assert forall t | t in s.place && s.place[t].Pushed? :: t in AdmittingThreads(s.place);
    assert list == [];
  }

  /** CXPLAT_POOL_MAXIMUM_DEPTH, unless pools are disabled, when it is 0. */
  const MAXIMUM_DEPTH: nat := 256

  lemma DefaultDepthBound(threads: set<Thread>, moves: seq<Move>)
    requires After(MAXIMUM_DEPTH, threads, moves).Some? && |threads| <= 65280
    ensures
      var s := After(MAXIMUM_DEPTH, threads, moves).value;
      s.depth + |AdmittingThreads(s.place)| <= 255 + |threads|
  {
    DepthBound(MAXIMUM_DEPTH, threads, moves);
  }

  /** What alloc and prune assert: a thread that has taken a block from the list finds
      ListDepth above zero. */
  predicate Asserts(s: State, t: Thread)
  {
    t in s.place && s.place[t].Unlinked? ==> s.depth > 0
  }

  /** The assertions do not fail as long as the depth fits. */
  lemma AssertionsHold(max: nat, threads: set<Thread>, moves: seq<Move>, t: Thread)
    requires After(max, threads, moves).Some? && DepthFits(max, |threads|)
    ensures Asserts(After(max, threads, moves).value, t)
  {
    InvOfRuns(max, threads, moves);
    DepthCounts(max, threads, moves);
    var s := After(max, threads, moves).value;
    if t in s.place {
      LagShown(s, t, ListOf(max, threads, moves), WhereOf(max, threads, moves));
    }
  }

  /** The number of places a block is in. */
  ghost function Places(s: State, list: seq<Block>, b: Block): nat
  {
    (if b in list then 1 else 0) + (if b in s.held then 1 else 0) + (if b in s.returned then 1 else 0) +
    |set t | t in s.place && Hand(s.place[t]) == Some(b)|
  }

  /** In every interleaving each block obtained from the system is in exactly one place, and
      no other block is anywhere; the list has no block twice. */
  lemma Conservation(max: nat, threads: set<Thread>, moves: seq<Move>, list: seq<Block>, b: Block)
    requires After(max, threads, moves).Some?
    requires IsChain(After(max, threads, moves).value.head, After(max, threads, moves).value.word, list)
    ensures
      var s := After(max, threads, moves).value;
      && Places(s, list, b) == (if b in s.obtained then 1 else 0)
      && (forall i, j :: 0 <= i < j < |list| ==> list[i] != list[j])
  {
    InvOfRuns(max, threads, moves);
    var s, where := After(max, threads, moves).value, WhereOf(max, threads, moves);
    ChainUnique(s.head, s.word, list, ListOf(max, threads, moves));
    var hands := set t | t in s.place && Hand(s.place[t]) == Some(b);
    if b in where && where[b].InHands? {
      assert hands == {where[b].thread};
    } else {
      assert hands == {};
    }
  }

  /** The links lead somewhere: there is always a list for DepthIsLength and Conservation to speak of. */
  lemma ListExists(max: nat, threads: set<Thread>, moves: seq<Move>)
    requires After(max, threads, moves).Some?
    ensures
      var s := After(max, threads, moves).value;
      exists list :: IsChain(s.head, s.word, list)
  {
    InvOfRuns(max, threads, moves);
  }

  /** No thread gets stuck but on the lock: each finds the link or the owner that it reads. */
  lemma OnlyTheLockStops(max: nat, threads: set<Thread>, moves: seq<Move>, t: Thread)
    requires After(max, threads, moves).Some? && t in threads
    ensures
      var s := After(max, threads, moves).value;
      && s.place.Keys == threads
      && (Proceeded(max, s, t).None? <==>
            || s.place[t] == Outside || s.place[t] == Unlocked(ToAlloc, None)
            || ((s.place[t].Asking? || s.place[t].Admitted?) && s.lock != None))
      && (s.lock.Some? ==> s.lock.value in threads && Proceeded(max, s, s.lock.value).Some?)
  {
    InvOfRuns(max, threads, moves);
    var s, list := After(max, threads, moves).value, ListOf(max, threads, moves);
    assert Relies(s.place[t], s.head, s.word);
    if s.lock.Some? {
      assert Relies(s.place[s.lock.value], s.head, s.word);
    }
  }
}
