/** The code of the pool's functions, each run by one thread while the others are outside.
    Every access to shared memory is recorded as a move of the machine of module Pool,
    so what holds after all runs of that machine holds of this code. */
module PoolCode {
  import opened Bytes
  import opened Pool
  import opened PoolRuns

  /** The head names the front of the list, whose word is a link. */
  lemma FrontOfList(max: nat, threads: set<Thread>, moves: seq<Move>, s: State)
    requires After(max, threads, moves) == Some(s)
    ensures
      var list := ListOf(max, threads, moves);
      && s.head == (if list == [] then None else Some(list[0]))
      && (list != [] ==> list[0] in s.word && s.word[list[0]].Next?)
  {
    InvOfRuns(max, threads, moves);
  }

  class CxPlatPool {
    const max: nat
    /** The bytes a client asks for: the size of a block without its header. */
    const size: nat
    var lock: Option<Thread>
    var listHead: Option<Block>
    var listDepth: uint16
    /** The first word of each block's memory. */
    var word: map<Block, Word>
    /** What is known of the bytes behind each block's header. */
    var payload: map<Block, seq<uint8>>

    ghost const threads: set<Thread>
    ghost var place: map<Thread, Place>
    ghost var obtained: set<Block>
    ghost var held: set<Block>
    ghost var returned: set<Block>
    ghost var history: seq<Move>

    ghost function Now(): State
      reads this
    {
      State(lock, listHead, listDepth, word, place, obtained, held, returned)
    }

    /** The fields are what the moves so far make of a new pool. */
    ghost predicate Valid()
      reads this
    {
      After(max, threads, history) == Some(Now())
    }

    ghost predicate Idle()
      reads this
    {
      Valid() && lock == None && place.Keys == threads && forall t | t in place :: place[t] == Outside
    }

    ghost function List(): seq<Block>
      reads this
      requires Valid()
    {
      ListOf(max, threads, history)
    }

    constructor Initialize(size: nat, max: nat, ghost threads: set<Thread>)
      ensures Idle() && List() == [] && this.max == max && this.size == size && this.threads == threads
      ensures obtained == held == returned == {}
    {
      this.max := max;
      this.size := size;
      this.threads := threads;
      lock, listHead, listDepth, word, payload := None, None, 0, map[], map[];
      place := map t | t in threads :: Outside;
      obtained, held, returned := {}, {}, {};
      history := [];
    }

    /** before is the state before the latest access. */
    ghost method Record(m: Move, before: State)
      requires After(max, threads, history) == Some(before) && Stepped(max, before, m) == Some(Now())
      modifies this`history
      ensures Valid() && history == old(history) + [m]
      ensures List() == ListAfter(before, m, ListOf(max, threads, old(history)))
    {
      history := history + [m];
      assert history[..|history| - 1] == old(history);
    }

    ghost method RecordTaker(t: Thread, before: State)
      requires After(max, threads, history) == Some(before) && t in before.place && !Frees(before.place[t])
      requires TakerProceeded(before, t) == Some(Now())
      modifies this`history
      ensures Valid() && history == old(history) + [Move(t, Proceed)]
      ensures List() == ListAfter(before, Move(t, Proceed), ListOf(max, threads, old(history)))
    {
      Record(Move(t, Proceed), before);
    }

    ghost method RecordFreer(t: Thread, before: State)
      requires After(max, threads, history) == Some(before) && t in before.place && Frees(before.place[t])
      requires FreerProceeded(max, before, t) == Some(Now())
      modifies this`history
      ensures Valid() && history == old(history) + [Move(t, Proceed)]
      ensures List() == ListAfter(before, Move(t, Proceed), ListOf(max, threads, old(history)))
    {
      Record(Move(t, Proceed), before);
    }

    method LockAcquire(t: Thread, ghost q: Place)
      requires Valid() && t in place && lock == None
      requires q == match place[t]
                    case Asking(why) => Locked(why)
                    case Admitted(b) => PushLocked(b)
                    case _ => q
      requires place[t].Asking? || place[t].Admitted?
      modifies this`lock, this`place, this`history
      ensures Valid() && lock == Some(t) && place == old(place)[t := q] && List() == old(List())
    {
      ghost var s := Now();
      lock := Some(t);
      place := place[t := q];
      Record(Move(t, Proceed), s);
    }

    method LockRelease(t: Thread, ghost q: Place)
      requires Valid() && t in place
      requires q == match place[t]
                    case HeadRead(why, None) => Unlocked(why, None)
                    case Counted(why, b) => Unlocked(why, Some(b))
                    case _ => Outside
      requires (place[t].HeadRead? && place[t].first == None) || place[t].Counted? || place[t].PushCounted?
      modifies this`lock, this`place, this`history
      ensures Valid() && lock == None && place == old(place)[t := q] && List() == old(List())
    {
      ghost var s := Now();
      lock := None;
      place := place[t := q];
      Record(Move(t, Proceed), s);
    }

    /** CxPlatListPopEntry: the first block of the list, if there is one. */
    method ListPopEntry(t: Thread, ghost why: Purpose) returns (first: Option<Block>)
      requires Valid() && t in place && place[t] == Locked(why)
      modifies this`listHead, this`place, this`history
      ensures Valid()
      ensures first == if old(List()) == [] then None else Some(old(List())[0])
      ensures List() == if old(List()) == [] then [] else old(List())[1..]
      ensures place == old(place)[t := if first == None then HeadRead(why, None) else Unlinked(why, first.value)]
    {
      first := ReadHead(t, why);
      if first != None {
        MoveHead(t, why, first.value);
        Overwritten(old(place), t, HeadRead(why, first), Unlinked(why, first.value));
      }
    }

    method ReadHead(t: Thread, ghost why: Purpose) returns (first: Option<Block>)
      requires Valid() && t in place && place[t] == Locked(why)
      modifies this`place, this`history
      ensures Valid() && List() == old(List()) && place == old(place)[t := HeadRead(why, first)]
      ensures first == if List() == [] then None else Some(List()[0])
    {
      FrontOfList(max, threads, history, Now());
      ghost var s := Now();
      first := listHead;
      place := place[t := HeadRead(why, first)];
      RecordTaker(t, s);
    }

    method MoveHead(t: Thread, ghost why: Purpose, b: Block)
      requires Valid() && t in place && place[t] == HeadRead(why, Some(b)) && List() != [] && b == List()[0]
      modifies this`listHead, this`place, this`history
      ensures Valid() && List() == old(List())[1..] && place == old(place)[t := Unlinked(why, b)]
    {
      FrontOfList(max, threads, history, Now());
      ghost var s := Now();
      listHead := word[b].next;
      place := place[t := Unlinked(why, b)];
      RecordTaker(t, s);
    }

    /** CxPlatListPushEntry. */
    method ListPushEntry(t: Thread, b: Block)
      requires Valid() && t in place && place[t] == PushLocked(b)
      modifies this`listHead, this`word, this`place, this`history
      ensures Valid() && List() == [b] + old(List()) && place == old(place)[t := Pushed]
    {
      LinkEntry(t, b);
      ghost var s := Now();
      listHead := Some(b);
      place := place[t := Pushed];
      RecordFreer(t, s);
      assert place == old(place)[t := Pushed];
    }

    method LinkEntry(t: Thread, b: Block)
      requires Valid() && t in place && place[t] == PushLocked(b)
      modifies this`word, this`place, this`history
      ensures Valid() && List() == old(List()) && place == old(place)[t := PushLinked(b)]
    {
      ghost var s := Now();
      word := word[b := Next(listHead)];
      place := place[t := PushLinked(b)];
      RecordFreer(t, s);
    }

    method CountDown(t: Thread, ghost why: Purpose, ghost b: Block)
      requires Valid() && t in place && place[t] == Unlinked(why, b)
      modifies this`listDepth, this`place, this`history
      ensures Valid() && place == old(place)[t := Counted(why, b)] && List() == old(List())
    {
      ghost var s := Now();
      listDepth := if listDepth == 0 then 65535 else listDepth - 1;
      place := place[t := Counted(why, b)];
      RecordTaker(t, s);
    }

    method CountUp(t: Thread)
      requires Valid() && t in place && place[t] == Pushed
      modifies this`listDepth, this`place, this`history
      ensures Valid() && place == old(place)[t := PushCounted] && List() == old(List())
    {
      ghost var s := Now();
      listDepth := if listDepth == 65535 then 0 else listDepth + 1;
      place := place[t := PushCounted];
      RecordFreer(t, s);
    }

    /** A thread enters a function, and leaves one with nothing to give back. */
    ghost method Enter(t: Thread, why: Purpose)
      requires Valid() && t in place && place[t] == Outside
      modifies this`place, this`history
      ensures Valid() && place == old(place)[t := Asking(why)] && List() == old(List())
    {
      var s := Now();
      place := place[t := Asking(why)];
      Record(Move(t, if why == ToAlloc then BeginAlloc else BeginPrune), s);
    }

    ghost method EnterFree(t: Thread, b: Block)
      requires Valid() && t in place && place[t] == Outside && b in held
      modifies this`place, this`held, this`history
      ensures Valid() && place == old(place)[t := Freeing(b)] && List() == old(List()) && held == old(held) - {b}
    {
      var s := Now();
      place, held := place[t := Freeing(b)], held - {b};
      Record(Move(t, BeginFree(b)), s);
    }

    ghost method Leave(t: Thread)
      requires Valid() && t in place && place[t] == Unlocked(ToPrune, None)
      modifies this`place, this`history
      ensures Valid() && place == old(place)[t := Outside] && List() == old(List())
    {
      var s := Now();
      place := place[t := Outside];
      RecordTaker(t, s);
    }

    /** The system's answer to CxPlatAlloc. */
    ghost method AskSystem(t: Thread, given: Option<Block>)
      requires Valid() && t in place && place[t] == Unlocked(ToAlloc, None)
      requires given.Some? ==> given.value !in obtained
      modifies this`place, this`obtained, this`history
      ensures Valid() && List() == old(List())
      ensures place == old(place)[t := if given == None then Outside else Unlocked(ToAlloc, given)]
      ensures obtained == if given.Some? then old(obtained) + {given.value} else old(obtained)
    {
      var s := Now();
      if given.Some? {
        place, obtained := place[t := Unlocked(ToAlloc, given)], obtained + {given.value};
        Record(Move(t, SystemGives(given.value)), s);
      } else {
        place := place[t := Outside];
        Record(Move(t, SystemFails), s);
      }
    }

    /** CxPlatFree. */
    ghost method GiveBack(t: Thread, b: Block)
      requires Valid() && t in place && (place[t] == Refused(b) || place[t] == Unlocked(ToPrune, Some(b)))
      modifies this`place, this`returned, this`history
      ensures Valid() && place == old(place)[t := Outside] && List() == old(List())
      ensures returned == old(returned) + {b}
    {
      var s := Now();
      place, returned := place[t := Outside], returned + {b};
      Record(Move(t, Proceed), s);
    }

    /** The block's owner is set and the client has the block. */
    method SetOwner(t: Thread, b: Block)
      requires Valid() && t in place && place[t] == Unlocked(ToAlloc, Some(b))
      modifies this`word, this`place, this`held, this`history
      ensures Valid() && place == old(place)[t := Outside] && List() == old(List())
      ensures held == old(held) + {b}
    {
      ghost var s := Now();
      word := word[b := Owner];
      place, held := place[t := Outside], held + {b};
      RecordTaker(t, s);
    }

    /** The depth is tested without the lock. */
    method TestDepth(t: Thread, b: Block) returns (admitted: bool)
      requires Valid() && t in place && place[t] == Freeing(b)
      modifies this`place, this`history
      ensures Valid() && List() == old(List()) && (admitted <==> listDepth < max)
      ensures place == old(place)[t := if admitted then Admitted(b) else Refused(b)]
    {
      assert b in word && word[b].Owner? by {
        InvOfRuns(max, threads, history);
        assert Relies(place[t], listHead, word);
      }
      ghost var s := Now();
      admitted := !(listDepth >= max);
      place := place[t := if admitted then Admitted(b) else Refused(b)];
      RecordFreer(t, s);
    }

    /** What alloc and prune begin with: under the lock, take the first block and count it out. */
    method TakeFirst(t: Thread, ghost why: Purpose) returns (header: Option<Block>)
      requires Valid() && lock == None && t in place && place[t] == Asking(why)
      modifies this`lock, this`listHead, this`listDepth, this`place, this`history
      ensures Valid() && lock == None && place == old(place)[t := Unlocked(why, header)]
      ensures header == if old(List()) == [] then None else Some(old(List())[0])
      ensures List() == if old(List()) == [] then [] else old(List())[1..]
    {
      LockAcquire(t, Locked(why));
      header := ListPopEntry(t, why);
      if header != None {
        CountDown(t, why, header.value);
      }
      LockRelease(t, Unlocked(why, header));
      Overwritten(old(place), t, Locked(why),
                  if header == None then HeadRead(why, None) else Unlinked(why, header.value));
      if header == None {
        Overwritten(old(place), t, HeadRead(why, None), Unlocked(why, None));
      } else {
        Overwritten(old(place), t, Unlinked(why, header.value), Counted(why, header.value));
        Overwritten(old(place), t, Counted(why, header.value), Unlocked(why, header));
      }
    }

    /** What an admitted free ends with: under the lock, put the block first and count it in. */
    method PutFirst(t: Thread, b: Block)
      requires Valid() && lock == None && t in place && place[t] == Admitted(b)
      modifies this`lock, this`listHead, this`listDepth, this`word, this`place, this`history
      ensures Valid() && lock == None && place == old(place)[t := Outside] && List() == [b] + old(List())
    {
      LockAcquire(t, PushLocked(b));
      ListPushEntry(t, b);
      CountUp(t);
      LockRelease(t, Outside);
      Overwritten(old(place), t, PushLocked(b), Pushed);
      Overwritten(old(place), t, Pushed, PushCounted);
      Overwritten(old(place), t, PushCounted, Outside);
    }

    /** CxPlatPoolAllocUninitialized. given is what the system answers if it is asked: a new
        block, or none when there is no memory. */
    method AllocUninitialized(t: Thread, given: Option<Block>) returns (header: Option<Block>)
      requires Idle() && t in place
      requires given.Some? ==> given.value !in obtained
      modifies this`lock, this`listHead, this`listDepth, this`word, this`place, this`obtained, this`held, this`history
      ensures Idle()
      ensures header == if old(List()) == [] then given else Some(old(List())[0])
      ensures List() == if old(List()) == [] then [] else old(List())[1..]
      ensures obtained == if old(List()) == [] && given.Some? then old(obtained) + {given.value} else old(obtained)
      ensures held == if header.Some? then old(held) + {header.value} else old(held)
    {
      Enter(t, ToAlloc);
      header := TakeFirst(t, ToAlloc);
      Overwritten(old(place), t, Asking(ToAlloc), Unlocked(ToAlloc, header));
      Restored(old(place), t);
      if header == None {
        header := given;
        AskSystem(t, given);
        Overwritten(old(place), t, Unlocked(ToAlloc, None),
                    if given == None then Outside else Unlocked(ToAlloc, given));
        if header == None {
          return;
        }
      }
      SetOwner(t, header.value);
      Overwritten(old(place), t, Unlocked(ToAlloc, header), Outside);
    }

    /** CxPlatPoolAlloc: the same, and the client's bytes of that block, and of no other, are zeros. */
    method Alloc(t: Thread, given: Option<Block>) returns (header: Option<Block>)
      requires Idle() && t in place
      requires given.Some? ==> given.value !in obtained
      modifies this`lock, this`listHead, this`listDepth, this`word, this`place, this`obtained, this`held, this`history,
               this`payload
      ensures Idle()
      ensures header == if old(List()) == [] then given else Some(old(List())[0])
      ensures List() == if old(List()) == [] then [] else old(List())[1..]
      ensures obtained == if old(List()) == [] && given.Some? then old(obtained) + {given.value} else old(obtained)
      ensures held == if header.Some? then old(held) + {header.value} else old(held)
      ensures payload == if header.Some? then old(payload)[header.value := seq(size, i => 0)] else old(payload)
    {
      header := AllocUninitialized(t, given);
      if header != None {
        payload := payload[header.value := seq(size, i => 0)];
      }
    }

    /** CxPlatPoolFree, for a block that clients hold. */
    method Free(t: Thread, b: Block)
      requires Idle() && t in place && b in held
      modifies this`lock, this`listHead, this`listDepth, this`word, this`place, this`held, this`returned, this`history
      ensures Idle() && held == old(held) - {b}
      ensures if old(listDepth) < max then List() == [b] + old(List()) && returned == old(returned)
              else List() == old(List()) && returned == old(returned) + {b}
    {
      EnterFree(t, b);
      var admitted := TestDepth(t, b);
      Overwritten(old(place), t, Freeing(b), if admitted then Admitted(b) else Refused(b));
      if !admitted {
        GiveBack(t, b);
      } else {
        PutFirst(t, b);
      }
      Overwritten(old(place), t, if admitted then Admitted(b) else Refused(b), Outside);
      Restored(old(place), t);
    }

    /** CxPlatPoolPrune: returns whether there was a block to give back. */
    method Prune(t: Thread) returns (pruned: bool)
      requires Idle() && t in place
      modifies this`lock, this`listHead, this`listDepth, this`place, this`returned, this`history
      ensures Idle() && (pruned <==> old(List()) != [])
      ensures List() == if pruned then old(List())[1..] else []
      ensures returned == if pruned then old(returned) + {old(List())[0]} else old(returned)
    {
      Enter(t, ToPrune);
      var entry := TakeFirst(t, ToPrune);
      if entry == None {
        Leave(t);
        return false;
      }
      GiveBack(t, entry.value);
      return true;
    }
  }
}
