/** Runs of list operations over several heads: every sequence of operations acts
    on the linked entries exactly as it acts on plain sequences. */
module ListRuns {
  import opened Lists

  datatype Op =
    | InsertsHead(list: nat, entry: ListEntry)
    | InsertsTail(list: nat, entry: ListEntry)
    | InsertsAfter(list: nat, place: nat, at: ListEntry, entry: ListEntry)
    | RemovesHead(list: nat)
    | Removes(list: nat, place: nat, taken: ListEntry)
    | Moves(list: nat, to: nat)

  datatype Answer = Nothing | Removed(entry: ListEntry) | Emptied(empty: bool)

  /** What callers owe: a list that exists, an entry that is in no list, a place
      that is there, and two different lists for a move. */
  ghost predicate Allowed(heads: seq<ListEntry>, contents: seq<seq<ListEntry>>, op: Op)
    requires |heads| == |contents|
  {
    && op.list < |heads|
    && match op
       case InsertsHead(_, entry) => Unused(heads, contents, entry)
       case InsertsTail(_, entry) => Unused(heads, contents, entry)
       case InsertsAfter(l, place, at, entry) =>
         place <= |contents[l]| && at == ([heads[l]] + contents[l])[place] && Unused(heads, contents, entry)
       case RemovesHead(l) => contents[l] != []
       case Removes(l, place, taken) => place < |contents[l]| && taken == contents[l][place]
       case Moves(l, to) => to < |heads| && l != to
  }

  predicate Inserts(op: Op) {
    op.InsertsHead? || op.InsertsTail? || op.InsertsAfter?
  }

  ghost predicate Unused(heads: seq<ListEntry>, contents: seq<seq<ListEntry>>, entry: ListEntry)
    requires |heads| == |contents|
  {
    forall i {:trigger contents[i]} :: 0 <= i < |heads| ==> entry !in [heads[i]] + contents[i]
  }

  /** The operations on plain sequences. */
  ghost function Apply(contents: seq<seq<ListEntry>>, op: Op): (r: seq<seq<ListEntry>>)
    requires op.list < |contents|
    requires op.InsertsAfter? ==> op.place <= |contents[op.list]|
    requires op.RemovesHead? ==> contents[op.list] != []
    requires op.Removes? ==> op.place < |contents[op.list]|
    requires op.Moves? ==> op.to < |contents|
    ensures |r| == |contents|
  {
    var c := contents[op.list];
    match op
    case InsertsHead(l, entry) => contents[l := [entry] + c]
    case InsertsTail(l, entry) => contents[l := c + [entry]]
    case InsertsAfter(l, place, _, entry) => contents[l := c[..place] + [entry] + c[place..]]
    case RemovesHead(l) => contents[l := c[1..]]
    case Removes(l, place, _) => contents[l := c[..place] + c[place + 1..]]
    case Moves(l, to) => contents[to := contents[to] + c][l := []]
  }

  ghost function AnswerOf(contents: seq<seq<ListEntry>>, op: Op): Answer
    requires op.list < |contents|
    requires op.RemovesHead? ==> contents[op.list] != []
    requires op.Removes? ==> op.place < |contents[op.list]|
  {
    match op
    case RemovesHead(l) => Removed(contents[l][0])
    case Removes(l, place, _) => Emptied(|contents[l]| == 1)
    case _ => Nothing
  }

  ghost predicate AllApart(heads: seq<ListEntry>, contents: seq<seq<ListEntry>>)
    requires |heads| == |contents|
  {
    forall i, j, e :: 0 <= i < |heads| && 0 <= j < |heads| && i != j && e in [heads[i]] + contents[i] ==>
      e !in [heads[j]] + contents[j]
  }

  ghost function Entries(heads: seq<ListEntry>, contents: seq<seq<ListEntry>>): set<ListEntry>
    requires |heads| == |contents|
  {
    set i, k | 0 <= i < |heads| && 0 <= k <= |contents[i]| :: ([heads[i]] + contents[i])[k]
  }

  ghost predicate AllLinked(heads: seq<ListEntry>, contents: seq<seq<ListEntry>>)
    requires |heads| == |contents|
    reads Entries(heads, contents)
  {
    forall i :: 0 <= i < |heads| ==> IsRing(heads[i], contents[i])
  }

  /** Each list is linked as contents says, and no entry is in two lists. */
  ghost predicate Valid(heads: seq<ListEntry>, contents: seq<seq<ListEntry>>)
    requires |heads| == |contents|
    reads Entries(heads, contents)
  {
    AllApart(heads, contents) && AllLinked(heads, contents)
  }

  /** Where an entry of list k was before: in k, in no list, or in the list that was moved. */
  lemma CameFrom(heads: seq<ListEntry>, contents: seq<seq<ListEntry>>, op: Op, k: nat, e: ListEntry)
    requires |heads| == |contents| && Allowed(heads, contents, op)
    requires k < |heads| && e in [heads[k]] + Apply(contents, op)[k]
    ensures
      || (e in [heads[k]] + contents[k] && (op.Moves? && k == op.list ==> e == heads[k]))
      || (k == op.list && Inserts(op) && e == op.entry)
      || (op.Moves? && k == op.to && e in contents[op.list] && e in [heads[op.list]] + contents[op.list])
  {
  }

  /** An operation takes no entry that is in a list and puts each in one list only. */
  lemma StaysApart(heads: seq<ListEntry>, contents: seq<seq<ListEntry>>, op: Op)
    requires |heads| == |contents| && AllApart(heads, contents) && Allowed(heads, contents, op)
    requires Distinct([heads[op.list]] + contents[op.list])
    ensures AllApart(heads, Apply(contents, op))
  {
    var c := Apply(contents, op);
    var r := [heads[op.list]] + contents[op.list];
    assert heads[op.list] !in contents[op.list] by {
      assert forall a :: 0 <= a < |contents[op.list]| ==> r[0] != r[a + 1] == contents[op.list][a];
    }
    forall i, j, e | 0 <= i < j < |heads| && e in [heads[i]] + c[i] && e in [heads[j]] + c[j]
      ensures false
    {
      CameFrom(heads, contents, op, i, e);
      CameFrom(heads, contents, op, j, e);
    }
  }

  /** The lists an operation names, and the entry it inserts. */
  ghost function Ring(heads: seq<ListEntry>, contents: seq<seq<ListEntry>>, i: nat): set<ListEntry>
  {
    if i < |heads| && i < |contents| then set e | e in [heads[i]] + contents[i] else {}
  }

  ghost function Touched(heads: seq<ListEntry>, contents: seq<seq<ListEntry>>, op: Op): set<ListEntry>
  {
    Ring(heads, contents, op.list) +
    (if Inserts(op) then {op.entry} else {}) +
    (if op.Moves? then Ring(heads, contents, op.to) else {})
  }

  lemma ApartByPlace(heads: seq<ListEntry>, contents: seq<seq<ListEntry>>, i: nat, j: nat)
    requires |heads| == |contents| && AllApart(heads, contents)
    requires i < |heads| && j < |heads| && i != j
    ensures forall a, b :: 0 <= a <= |contents[i]| && 0 <= b <= |contents[j]| ==>
      ([heads[i]] + contents[i])[a] != ([heads[j]] + contents[j])[b]
  {
    forall a, b | 0 <= a <= |contents[i]| && 0 <= b <= |contents[j]|
      ensures ([heads[i]] + contents[i])[a] != ([heads[j]] + contents[j])[b]
    {
      assert ([heads[i]] + contents[i])[a] in [heads[i]] + contents[i];
      assert ([heads[j]] + contents[j])[b] in [heads[j]] + contents[j];
    }
  }

  method InsertHeadInto(heads: seq<ListEntry>, op: Op, ghost contents: seq<seq<ListEntry>>)
    requires |heads| == |contents| && Valid(heads, contents) && Allowed(heads, contents, op) && op.InsertsHead?
    modifies Touched(heads, contents, op)
    ensures AllLinked(heads, Apply(contents, op))
  {
    var l := op.list;
    InsertHead(heads[l], op.entry, contents[l]);
    forall i | 0 <= i < |heads| && i != l
      ensures IsRing(heads[i], contents[i])
    {
      ApartByPlace(heads, contents, i, l);
      assert op.entry !in [heads[i]] + contents[i];
    }
  }

  method InsertTailInto(heads: seq<ListEntry>, op: Op, ghost contents: seq<seq<ListEntry>>)
    requires |heads| == |contents| && Valid(heads, contents) && Allowed(heads, contents, op) && op.InsertsTail?
    modifies Touched(heads, contents, op)
    ensures AllLinked(heads, Apply(contents, op))
  {
    var l := op.list;
    InsertTail(heads[l], op.entry, contents[l]);
    forall i | 0 <= i < |heads| && i != l
      ensures IsRing(heads[i], contents[i])
    {
      ApartByPlace(heads, contents, i, l);
      assert op.entry !in [heads[i]] + contents[i];
    }
  }

  method InsertAfterIn(heads: seq<ListEntry>, op: Op, ghost contents: seq<seq<ListEntry>>)
    requires |heads| == |contents| && Valid(heads, contents) && Allowed(heads, contents, op) && op.InsertsAfter?
    modifies Touched(heads, contents, op)
    ensures AllLinked(heads, Apply(contents, op))
  {
    var l := op.list;
    InsertAfter(op.at, op.entry, heads[l], contents[l], op.place);
    forall i | 0 <= i < |heads| && i != l
      ensures IsRing(heads[i], contents[i])
    {
      ApartByPlace(heads, contents, i, l);
      assert op.entry !in [heads[i]] + contents[i];
    }
  }

  method RemoveHeadFrom(heads: seq<ListEntry>, op: Op, ghost contents: seq<seq<ListEntry>>)
    returns (entry: ListEntry)
    requires |heads| == |contents| && Valid(heads, contents) && Allowed(heads, contents, op) && op.RemovesHead?
    modifies Touched(heads, contents, op)
    ensures AllLinked(heads, Apply(contents, op)) && entry == contents[op.list][0]
  {
    var l := op.list;
    entry := RemoveHead(heads[l], contents[l]);
    forall i | 0 <= i < |heads| && i != l
      ensures IsRing(heads[i], contents[i])
    {
      ApartByPlace(heads, contents, i, l);
    }
  }

  method EntryRemoveFrom(heads: seq<ListEntry>, op: Op, ghost contents: seq<seq<ListEntry>>)
    returns (empty: bool)
    requires |heads| == |contents| && Valid(heads, contents) && Allowed(heads, contents, op) && op.Removes?
    modifies Touched(heads, contents, op)
    ensures AllLinked(heads, Apply(contents, op)) && (empty <==> |contents[op.list]| == 1)
  {
    var l := op.list;
    empty := EntryRemove(op.taken, heads[l], contents[l], op.place);
    forall i | 0 <= i < |heads| && i != l
      ensures IsRing(heads[i], contents[i])
    {
      ApartByPlace(heads, contents, i, l);
    }
  }

  method MoveItemsBetween(heads: seq<ListEntry>, op: Op, ghost contents: seq<seq<ListEntry>>)
    requires |heads| == |contents| && Valid(heads, contents) && Allowed(heads, contents, op) && op.Moves?
    modifies Touched(heads, contents, op)
    ensures AllLinked(heads, Apply(contents, op))
  {
    var l := op.list;
    MoveItems(heads[l], heads[op.to], contents[l], contents[op.to]);
    forall i | 0 <= i < |heads| && i != l && i != op.to
      ensures IsRing(heads[i], contents[i])
    {
      ApartByPlace(heads, contents, i, l);
      ApartByPlace(heads, contents, i, op.to);
    }
  }

  /** Carries out one operation in place. */
  method Do(heads: seq<ListEntry>, op: Op, ghost contents: seq<seq<ListEntry>>) returns (answer: Answer)
    requires |heads| == |contents| && Valid(heads, contents) && Allowed(heads, contents, op)
    modifies Touched(heads, contents, op)
    ensures Valid(heads, Apply(contents, op)) && answer == AnswerOf(contents, op)
  {
    StaysApart(heads, contents, op);
    answer := Nothing;
    match op {
      case InsertsHead(_, _) => InsertHeadInto(heads, op, contents);
      case InsertsTail(_, _) => InsertTailInto(heads, op, contents);
      case InsertsAfter(_, _, _, _) => InsertAfterIn(heads, op, contents);
      case RemovesHead(_) =>
        var entry := RemoveHeadFrom(heads, op, contents);
        answer := Removed(entry);
      case Removes(_, _, _) =>
        var empty := EntryRemoveFrom(heads, op, contents);
        answer := Emptied(empty);
      case Moves(_, _) => MoveItemsBetween(heads, op, contents);
    }
  }

  ghost function Nones(n: nat): (r: seq<seq<ListEntry>>)
    ensures |r| == n && forall i :: 0 <= i < n ==> r[i] == []
  {
    if n == 0 then [] else Nones(n - 1) + [[]]
  }

  method InitializeHeads(heads: seq<ListEntry>)
    requires Distinct(heads)
    modifies heads
    ensures Valid(heads, Nones(|heads|))
  {
    for n := 0 to |heads|
      invariant AllLinked(heads[..n], Nones(n))
    {
      InitializeHead(heads[n]);
    }
    assert heads[..|heads|] == heads;
  }

  ghost predicate AllAllowed(heads: seq<ListEntry>, contents: seq<seq<ListEntry>>, ops: seq<Op>)
    requires |heads| == |contents|
    decreases |ops|
  {
    ops == [] || (Allowed(heads, contents, ops[0]) && AllAllowed(heads, Apply(contents, ops[0]), ops[1..]))
  }

  /** The contents after a run, and what the run returned on the way. */
  ghost function Played(heads: seq<ListEntry>, contents: seq<seq<ListEntry>>, ops: seq<Op>): (r: seq<seq<ListEntry>>)
    requires |heads| == |contents| && AllAllowed(heads, contents, ops)
    ensures |r| == |heads|
    decreases |ops|
  {
    if ops == [] then contents else Played(heads, Apply(contents, ops[0]), ops[1..])
  }

  ghost function Answers(heads: seq<ListEntry>, contents: seq<seq<ListEntry>>, ops: seq<Op>): seq<Answer>
    requires |heads| == |contents| && AllAllowed(heads, contents, ops)
    decreases |ops|
  {
    if ops == [] then []
    else [AnswerOf(contents, ops[0])] + Answers(heads, Apply(contents, ops[0]), ops[1..])
  }

  /** The entries a run starts with or brings in. */
  ghost function Involved(heads: seq<ListEntry>, contents: seq<seq<ListEntry>>, ops: seq<Op>): set<ListEntry>
    requires |heads| == |contents|
  {
    Entries(heads, contents) + set op | op in ops && Inserts(op) :: op.entry
  }

  lemma StepInvolves(heads: seq<ListEntry>, contents: seq<seq<ListEntry>>, ops: seq<Op>)
    requires |heads| == |contents| && ops != [] && Allowed(heads, contents, ops[0])
    ensures Touched(heads, contents, ops[0]) <= Involved(heads, contents, ops)
    ensures Involved(heads, Apply(contents, ops[0]), ops[1..]) <= Involved(heads, contents, ops)
  {
    var op := ops[0];
    var c := Apply(contents, op);
    forall e | e in Touched(heads, contents, op)
      ensures e in Involved(heads, contents, ops)
    {
      if !(Inserts(op) && e == op.entry) {
        assert e in Ring(heads, contents, op.list) || e in Ring(heads, contents, op.to);
      }
    }
    forall i, k | 0 <= i < |heads| && 0 <= k <= |c[i]|
      ensures ([heads[i]] + c[i])[k] in Involved(heads, contents, ops)
    {
      CameFrom(heads, contents, op, i, ([heads[i]] + c[i])[k]);
    }
  }

  /** In the middle of a run: rest is still to be done, and will bring it to its end. */
  ghost predicate Midway(heads: seq<ListEntry>, contents: seq<seq<ListEntry>>, ops: seq<Op>,
                         now: seq<seq<ListEntry>>, rest: seq<Op>, answers: seq<Answer>)
    requires |heads| == |contents| && AllAllowed(heads, contents, ops)
  {
    && |now| == |heads| && AllAllowed(heads, now, rest)
    && Involved(heads, now, rest) <= Involved(heads, contents, ops)
    && Played(heads, now, rest) == Played(heads, contents, ops)
    && answers + Answers(heads, now, rest) == Answers(heads, contents, ops)
  }

  lemma MidwayOn(heads: seq<ListEntry>, contents: seq<seq<ListEntry>>, ops: seq<Op>,
                 now: seq<seq<ListEntry>>, rest: seq<Op>, answers: seq<Answer>)
    requires |heads| == |contents| && AllAllowed(heads, contents, ops)
    requires Midway(heads, contents, ops, now, rest, answers) && rest != []
    ensures Allowed(heads, now, rest[0]) && Touched(heads, now, rest[0]) <= Involved(heads, contents, ops)
    ensures Midway(heads, contents, ops, Apply(now, rest[0]), rest[1..], answers + [AnswerOf(now, rest[0])])
  {
    StepInvolves(heads, now, rest);
    AnswersAssociative(answers, AnswerOf(now, rest[0]), Answers(heads, Apply(now, rest[0]), rest[1..]));
  }

  lemma MidwayEnds(heads: seq<ListEntry>, contents: seq<seq<ListEntry>>, ops: seq<Op>,
                   now: seq<seq<ListEntry>>, rest: seq<Op>, answers: seq<Answer>)
    requires |heads| == |contents| && AllAllowed(heads, contents, ops)
    ensures now == contents && rest == ops && answers == [] ==> Midway(heads, contents, ops, now, rest, answers)
    ensures Midway(heads, contents, ops, now, rest, answers) && rest == [] ==>
      now == Played(heads, contents, ops) && answers == Answers(heads, contents, ops)
  {
    if |now| == |heads| && AllAllowed(heads, now, rest) && rest == [] {
      assert answers + Answers(heads, now, rest) == answers;
    }
    assert [] + Answers(heads, contents, ops) == Answers(heads, contents, ops);
  }

  lemma AnswersAssociative(a: seq<Answer>, b: Answer, c: seq<Answer>)
    ensures a + ([b] + c) == a + [b] + c
  {
  }

  /** Every run of allowed operations leaves the lists linked exactly as the same
      operations leave plain sequences, and returns the same answers. */
  method DoAll(heads: seq<ListEntry>, ops: seq<Op>, ghost contents: seq<seq<ListEntry>>) returns (answers: seq<Answer>)
    requires |heads| == |contents| && Valid(heads, contents) && AllAllowed(heads, contents, ops)
    modifies Involved(heads, contents, ops)
    ensures Valid(heads, Played(heads, contents, ops)) && answers == Answers(heads, contents, ops)
  {
    answers := [];
    ghost var now := contents;
    assert ops[0..] == ops;
    MidwayEnds(heads, contents, ops, now, ops, answers);
    for n := 0 to |ops|
      invariant Midway(heads, contents, ops, now, ops[n..], answers) && Valid(heads, now)
    {
      MidwayOn(heads, contents, ops, now, ops[n..], answers);
      assert ops[n..][1..] == ops[n + 1..];
      var answer := Do(heads, ops[n], now);
      answers := answers + [answer];
      now := Apply(now, ops[n]);
    }
    MidwayEnds(heads, contents, ops, now, ops[|ops|..], answers);
  }

  ghost function Times(s: seq<ListEntry>, e: ListEntry): nat
  {
    if s == [] then 0 else (if s[0] == e then 1 else 0) + Times(s[1..], e)
  }

  lemma {:induction false} TimesConcat(s: seq<ListEntry>, t: seq<ListEntry>, e: ListEntry)
    ensures Times(s + t, e) == Times(s, e) + Times(t, e)
  {
    if s == [] {
      assert s + t == t;
    } else {
      TimesConcat(s[1..], t, e);
      assert (s + t)[1..] == s[1..] + t;
    }
  }

  /** How often e is in the lists. */
  ghost function Tally(contents: seq<seq<ListEntry>>, e: ListEntry): nat
  {
    if contents == [] then 0 else Times(contents[0], e) + Tally(contents[1..], e)
  }

  lemma {:induction false} TallyUpdated(contents: seq<seq<ListEntry>>, l: nat, c: seq<ListEntry>, e: ListEntry)
    requires l < |contents|
    ensures Tally(contents[l := c], e) == Tally(contents, e) + Times(c, e) - Times(contents[l], e)
  {
    if l == 0 {
      assert contents[0 := c][1..] == contents[1..];
    } else {
      TallyUpdated(contents[1..], l - 1, c, e);
      assert contents[l := c][1..] == contents[1..][l - 1 := c];
    }
  }

  /** How often a run puts e into a list, and takes it out of one. */
  ghost function Given(ops: seq<Op>, e: ListEntry): nat
  {
    if ops == [] then 0
    else (if Inserts(ops[0]) && ops[0].entry == e then 1 else 0) + Given(ops[1..], e)
  }

  ghost function Takes(contents: seq<seq<ListEntry>>, op: Op, e: ListEntry): nat
    requires op.list < |contents| && (op.RemovesHead? ==> contents[op.list] != [])
  {
    match op
    case RemovesHead(l) => if contents[l][0] == e then 1 else 0
    case Removes(_, _, taken) => if taken == e then 1 else 0
    case _ => 0
  }

  ghost function Taken(heads: seq<ListEntry>, contents: seq<seq<ListEntry>>, ops: seq<Op>, e: ListEntry): nat
    requires |heads| == |contents| && AllAllowed(heads, contents, ops)
    decreases |ops|
  {
    if ops == [] then 0 else Takes(contents, ops[0], e) + Taken(heads, Apply(contents, ops[0]), ops[1..], e)
  }

  lemma InsertedTimes(c: seq<ListEntry>, place: nat, entry: ListEntry, e: ListEntry)
    requires place <= |c|
    ensures Times(c[..place] + [entry] + c[place..], e) == Times(c, e) + if entry == e then 1 else 0
  {
    TimesConcat(c[..place] + [entry], c[place..], e);
    TimesConcat(c[..place], [entry], e);
    TimesConcat(c[..place], c[place..], e);
    assert c == c[..place] + c[place..];
  }

  lemma RemovedTimes(c: seq<ListEntry>, place: nat, e: ListEntry)
    requires place < |c|
    ensures Times(c[..place] + c[place + 1..], e) == Times(c, e) - if c[place] == e then 1 else 0
  {
    TimesConcat(c[..place], c[place + 1..], e);
    TimesConcat(c[..place], c[place..], e);
    assert c == c[..place] + c[place..];
    assert c[place..][1..] == c[place + 1..];
  }

  lemma MovedTally(contents: seq<seq<ListEntry>>, l: nat, to: nat, e: ListEntry)
    requires l < |contents| && to < |contents| && l != to
    ensures Tally(contents[to := contents[to] + contents[l]][l := []], e) == Tally(contents, e)
  {
    TallyUpdated(contents, to, contents[to] + contents[l], e);
    TallyUpdated(contents[to := contents[to] + contents[l]], l, [], e);
    TimesConcat(contents[to], contents[l], e);
  }

  lemma StepConserves(heads: seq<ListEntry>, contents: seq<seq<ListEntry>>, op: Op, e: ListEntry)
    requires |heads| == |contents| && Allowed(heads, contents, op)
    ensures Tally(Apply(contents, op), e) + Takes(contents, op, e) ==
            Tally(contents, e) + if Inserts(op) && op.entry == e then 1 else 0
  {
    var l, c := op.list, contents[op.list];
    if op.Moves? {
      MovedTally(contents, l, op.to, e);
    } else {
      TallyUpdated(contents, l, Apply(contents, op)[l], e);
      match op {
        case InsertsHead(_, entry) => TimesConcat([entry], c, e);
        case InsertsTail(_, entry) => TimesConcat(c, [entry], e);
        case InsertsAfter(_, place, _, entry) => InsertedTimes(c, place, entry, e);
        case RemovesHead(_) =>
        case Removes(_, place, _) => RemovedTimes(c, place, e);
      }
    }
  }

  /** No run loses or doubles an entry: an entry is in the lists afterwards, or was taken
      out on the way, as often as it was in them before or was put in. */
  lemma {:induction false} RunsConserve(heads: seq<ListEntry>, contents: seq<seq<ListEntry>>, ops: seq<Op>,
                                        e: ListEntry)
    requires |heads| == |contents| && AllAllowed(heads, contents, ops)
    ensures Tally(Played(heads, contents, ops), e) + Taken(heads, contents, ops, e) ==
            Tally(contents, e) + Given(ops, e)
    decreases |ops|
  {
    if ops == [] {
    } else {
      StepConserves(heads, contents, ops[0], e);
      RunsConserve(heads, Apply(contents, ops[0]), ops[1..], e);
    }
  }
}
