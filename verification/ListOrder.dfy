/** The order of the lists: inserting at the tail makes a list a queue, at the head a stack. */
module ListOrder {
  import opened Lists
  import opened ListRuns

  function Appends(l: nat, es: seq<ListEntry>): (r: seq<Op>)
    ensures |r| == |es|
  {
    if es == [] then [] else [InsertsTail(l, es[0])] + Appends(l, es[1..])
  }

  function Prepends(l: nat, es: seq<ListEntry>): (r: seq<Op>)
    ensures |r| == |es|
  {
    if es == [] then [] else [InsertsHead(l, es[0])] + Prepends(l, es[1..])
  }

  /** Takes the first entry n times. */
  function Drains(l: nat, n: nat): (r: seq<Op>)
    ensures |r| == n
  {
    if n == 0 then [] else [RemovesHead(l)] + Drains(l, n - 1)
  }

  function Reversed(es: seq<ListEntry>): (r: seq<ListEntry>)
    ensures |r| == |es|
  {
    if es == [] then [] else Reversed(es[1..]) + [es[0]]
  }

  function Nothings(n: nat): (r: seq<Answer>)
    ensures |r| == n && forall i :: 0 <= i < n ==> r[i] == Nothing
  {
    if n == 0 then [] else [Nothing] + Nothings(n - 1)
  }

  function RemovedAll(es: seq<ListEntry>): (r: seq<Answer>)
    ensures |r| == |es| && forall i :: 0 <= i < |es| ==> r[i] == Removed(es[i])
  {
    if es == [] then [] else [Removed(es[0])] + RemovedAll(es[1..])
  }

  lemma ConsRun(op: Op, more: seq<Op>, rest: seq<Op>)
    ensures ([op] + more + rest)[0] == op && ([op] + more + rest)[1..] == more + rest
  {
  }

  /** A run whose first operation is op. */
  lemma FirstOp(heads: seq<ListEntry>, contents: seq<seq<ListEntry>>, op: Op, more: seq<Op>, rest: seq<Op>)
    requires |heads| == |contents| && AllAllowed(heads, contents, [op] + more + rest)
    ensures Allowed(heads, contents, op) && AllAllowed(heads, Apply(contents, op), more + rest)
    ensures Played(heads, contents, [op] + more + rest) == Played(heads, Apply(contents, op), more + rest)
    ensures Answers(heads, contents, [op] + more + rest) ==
            [AnswerOf(contents, op)] + Answers(heads, Apply(contents, op), more + rest)
  {
    ConsRun(op, more, rest);
  }

  /** A run that comes to other contents, answering answers on the way, before it goes on with rest. */
  ghost predicate ComesTo(heads: seq<ListEntry>, contents: seq<seq<ListEntry>>, ops: seq<Op>,
                          now: seq<seq<ListEntry>>, rest: seq<Op>, answers: seq<Answer>)
    requires |heads| == |contents| && AllAllowed(heads, contents, ops)
  {
    && |now| == |heads| && AllAllowed(heads, now, rest)
    && Played(heads, contents, ops) == Played(heads, now, rest)
    && Answers(heads, contents, ops) == answers + Answers(heads, now, rest)
  }

  lemma ComesToCons(heads: seq<ListEntry>, contents: seq<seq<ListEntry>>, op: Op, more: seq<Op>, rest: seq<Op>,
                    now: seq<seq<ListEntry>>, answers: seq<Answer>, all: seq<Answer>)
    requires |heads| == |contents| && AllAllowed(heads, contents, [op] + more + rest)
    requires Allowed(heads, contents, op) && AllAllowed(heads, Apply(contents, op), more + rest)
    requires ComesTo(heads, Apply(contents, op), more + rest, now, rest, answers)
    requires all == [AnswerOf(contents, op)] + answers
    ensures ComesTo(heads, contents, [op] + more + rest, now, rest, all)
  {
    FirstOp(heads, contents, op, more, rest);
    AnswersAssociate(AnswerOf(contents, op), answers, Answers(heads, now, rest));
  }

  lemma AnswersAssociate(a: Answer, b: seq<Answer>, c: seq<Answer>)
    ensures [a] + (b + c) == [a] + b + c
  {
  }

  lemma ComesToNow(heads: seq<ListEntry>, contents: seq<seq<ListEntry>>, ops: seq<Op>, now: seq<seq<ListEntry>>,
                   rest: seq<Op>, answers: seq<Answer>)
    requires |heads| == |contents| && AllAllowed(heads, contents, ops)
    requires ops == rest && now == contents && answers == []
    ensures ComesTo(heads, contents, ops, now, rest, answers)
  {
    assert [] + Answers(heads, now, rest) == Answers(heads, now, rest);
  }

  /** Only list l is different. */
  lemma Rewritten(contents: seq<seq<ListEntry>>, l: nat, a: seq<ListEntry>, b: seq<ListEntry>)
    requires l < |contents|
    ensures contents[l := a][l := b] == contents[l := b] && contents[l := a][l] == a
    ensures a == contents[l] ==> contents[l := a] == contents
  {
  }

  lemma {:induction false} AppendsAppend(heads: seq<ListEntry>, contents: seq<seq<ListEntry>>, l: nat,
                                         es: seq<ListEntry>, c: seq<ListEntry>, rest: seq<Op>)
    requires |heads| == |contents| && l < |heads| && AllAllowed(heads, contents, Appends(l, es) + rest)
    requires c == contents[l] + es
    ensures ComesTo(heads, contents, Appends(l, es) + rest, contents[l := c], rest, Nothings(|es|))
    decreases |es|
  {
    if es == [] {
      assert Appends(l, es) + rest == rest;
      Rewritten(contents, l, c, c);
      ComesToNow(heads, contents, Appends(l, es) + rest, contents[l := c], rest, Nothings(|es|));
    } else {
      var op, more := InsertsTail(l, es[0]), Appends(l, es[1..]);
      FirstOp(heads, contents, op, more, rest);
      Rewritten(contents, l, contents[l] + [es[0]], c);
      AppendsAppend(heads, Apply(contents, op), l, es[1..], c, rest);
      ComesToCons(heads, contents, op, more, rest, contents[l := c], Nothings(|es| - 1), Nothings(|es|));
    }
  }

  lemma {:induction false} PrependsPrepend(heads: seq<ListEntry>, contents: seq<seq<ListEntry>>, l: nat,
                                           es: seq<ListEntry>, c: seq<ListEntry>, rest: seq<Op>)
    requires |heads| == |contents| && l < |heads| && AllAllowed(heads, contents, Prepends(l, es) + rest)
    requires c == Reversed(es) + contents[l]
    ensures ComesTo(heads, contents, Prepends(l, es) + rest, contents[l := c], rest, Nothings(|es|))
    decreases |es|
  {
    if es == [] {
      assert Prepends(l, es) + rest == rest;
      Rewritten(contents, l, c, c);
      ComesToNow(heads, contents, Prepends(l, es) + rest, contents[l := c], rest, Nothings(|es|));
    } else {
      var op, more := InsertsHead(l, es[0]), Prepends(l, es[1..]);
      FirstOp(heads, contents, op, more, rest);
      Rewritten(contents, l, [es[0]] + contents[l], c);
      PrependsPrepend(heads, Apply(contents, op), l, es[1..], c, rest);
      ComesToCons(heads, contents, op, more, rest, contents[l := c], Nothings(|es| - 1), Nothings(|es|));
    }
  }

  lemma {:induction false} DrainsDrain(heads: seq<ListEntry>, contents: seq<seq<ListEntry>>, l: nat,
                                       es: seq<ListEntry>, c: seq<ListEntry>, rest: seq<Op>)
    requires |heads| == |contents| && l < |heads| && contents[l] == es + c
    requires AllAllowed(heads, contents, Drains(l, |es|) + rest)
    ensures ComesTo(heads, contents, Drains(l, |es|) + rest, contents[l := c], rest, RemovedAll(es))
    decreases |es|
  {
    if es == [] {
      assert Drains(l, |es|) + rest == rest;
      Rewritten(contents, l, c, c);
      ComesToNow(heads, contents, Drains(l, |es|) + rest, contents[l := c], rest, RemovedAll(es));
    } else {
      var op, more := RemovesHead(l), Drains(l, |es| - 1);
      FirstOp(heads, contents, op, more, rest);
      Rewritten(contents, l, contents[l][1..], c);
      assert contents[l][0] == es[0] && contents[l][1..] == es[1..] + c;
      DrainsDrain(heads, Apply(contents, op), l, es[1..], c, rest);
      ComesToCons(heads, contents, op, more, rest, contents[l := c], RemovedAll(es[1..]), RemovedAll(es));
    }
  }

  lemma AllDrained(heads: seq<ListEntry>, contents: seq<seq<ListEntry>>, l: nat, es: seq<ListEntry>)
    requires |heads| == |contents| && l < |heads| && contents[l] == es
    requires AllAllowed(heads, contents, Drains(l, |es|))
    ensures Played(heads, contents, Drains(l, |es|)) == contents[l := []]
    ensures Answers(heads, contents, Drains(l, |es|)) == RemovedAll(es)
  {
    assert Drains(l, |es|) + [] == Drains(l, |es|) && es + [] == es;
    DrainsDrain(heads, contents, l, es, [], []);
    assert RemovedAll(es) + [] == RemovedAll(es);
  }

  /** Entries inserted at the tail of an empty list are taken out in the same order. */
  lemma Queue(heads: seq<ListEntry>, contents: seq<seq<ListEntry>>, l: nat, es: seq<ListEntry>)
    requires |heads| == |contents| && l < |heads| && contents[l] == []
    requires AllAllowed(heads, contents, Appends(l, es) + Drains(l, |es|))
    ensures Played(heads, contents, Appends(l, es) + Drains(l, |es|)) == contents
    ensures Answers(heads, contents, Appends(l, es) + Drains(l, |es|)) == Nothings(|es|) + RemovedAll(es)
  {
    assert es == contents[l] + es;
    AppendsAppend(heads, contents, l, es, es, Drains(l, |es|));
    AllDrained(heads, contents[l := es], l, es);
    Rewritten(contents, l, es, []);
    Rewritten(contents, l, [], []);
  }

  /** Entries inserted at the head are taken out in the opposite order. */
  lemma Stack(heads: seq<ListEntry>, contents: seq<seq<ListEntry>>, l: nat, es: seq<ListEntry>)
    requires |heads| == |contents| && l < |heads| && contents[l] == []
    requires AllAllowed(heads, contents, Prepends(l, es) + Drains(l, |es|))
    ensures Played(heads, contents, Prepends(l, es) + Drains(l, |es|)) == contents
    ensures Answers(heads, contents, Prepends(l, es) + Drains(l, |es|)) == Nothings(|es|) + RemovedAll(Reversed(es))
  {
    assert Reversed(es) == Reversed(es) + contents[l];
    PrependsPrepend(heads, contents, l, es, Reversed(es), Drains(l, |es|));
    AllDrained(heads, contents[l := Reversed(es)], l, Reversed(es));
    Rewritten(contents, l, Reversed(es), []);
    Rewritten(contents, l, [], []);
  }
}
