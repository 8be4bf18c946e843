/** The intrusive circular doubly linked list, whose entries are linked in place
    around a head, and the refinement of its operations to operations on sequences. */
module Lists {

  /** The links of an entry that is in no list are not defined. */
  class ListEntry {
    var Flink: ListEntry?
    var Blink: ListEntry?

    constructor ()
    {
    }
  }

  ghost predicate Distinct(r: seq<ListEntry>)
  {
    forall i, j :: 0 <= i < j < |r| ==> r[i] != r[j]
  }

  /** Flink leads around r and Blink back. */
  ghost predicate Linked(r: seq<ListEntry>)
    requires r != []
    reads r
  {
    && (forall i {:trigger r[i].Flink} :: 0 <= i < |r| - 1 ==> r[i].Flink == r[i + 1])
    && (forall i {:trigger r[i].Blink} :: 1 <= i < |r| ==> r[i].Blink == r[i - 1])
    && r[|r| - 1].Flink == r[0] && r[0].Blink == r[|r| - 1]
  }

  /** The list with this head has exactly the entries items, in this order. */
  ghost predicate IsRing(head: ListEntry, items: seq<ListEntry>)
    reads [head] + items
  {
    Distinct([head] + items) && Linked([head] + items)
  }

  /** Flink and Blink are inverse to each other everywhere in a list. */
  lemma LinksInverse(head: ListEntry, items: seq<ListEntry>, e: ListEntry)
    requires IsRing(head, items) && e in [head] + items
    ensures e.Flink != null && e.Blink != null && e.Flink.Blink == e && e.Blink.Flink == e
    ensures e.Flink in [head] + items && e.Blink in [head] + items
  {
    var r := [head] + items;
    var i :| 0 <= i < |r| && r[i] == e;
    if i > 0 {
      assert r[i - 1].Flink == r[i];
    }
    if i < |r| - 1 {
      assert r[i + 1].Blink == r[i];
    }
  }

  method InitializeHead(head: ListEntry)
    modifies head
    ensures IsRing(head, [])
  {
    head.Blink := head;
    head.Flink := head;
  }

  method IsEmpty(head: ListEntry, ghost items: seq<ListEntry>) returns (empty: bool)
    requires IsRing(head, items)
    ensures empty <==> items == []
  {
    assert items != [] ==> ([head] + items)[0].Flink == items[0] != head;
    empty := head.Flink == head;
  }

  method InsertHead(head: ListEntry, entry: ListEntry, ghost items: seq<ListEntry>)
    requires IsRing(head, items) && entry !in [head] + items
    modifies entry, [head] + items
    ensures IsRing(head, [entry] + items)
  {
    LinksInverse(head, items, head);
    ghost var r := [head] + items;
    ghost var s := [head] + ([entry] + items);
    assert forall i {:trigger s[i]} :: 2 <= i < |s| ==> s[i] == r[i - 1];
    assert head.Flink == r[if items == [] then 0 else 1];
    var flink := head.Flink;
    entry.Flink := flink;
    entry.Blink := head;
    flink.Blink := entry;
    head.Flink := entry;
    assert Distinct(s);
    assert Linked(s);
  }

  method InsertTail(head: ListEntry, entry: ListEntry, ghost items: seq<ListEntry>)
    requires IsRing(head, items) && entry !in [head] + items
    modifies entry, [head] + items
    ensures IsRing(head, items + [entry])
  {
    LinksInverse(head, items, head);
    ghost var r := [head] + items;
    ghost var s := [head] + (items + [entry]);
    assert forall i {:trigger s[i]} :: 0 <= i < |r| ==> s[i] == r[i];
    assert s[|r|] == entry;
    var blink := head.Blink;
    entry.Flink := head;
    entry.Blink := blink;
    blink.Flink := entry;
    head.Blink := entry;
    assert Distinct(s);
    assert Linked(s);
  }

  /** The ring r with e put behind place k, place by place. */
  ghost predicate Inserted(r: seq<ListEntry>, k: nat, e: ListEntry, s: seq<ListEntry>)
    requires k < |r|
  {
    && |s| == |r| + 1 && s[k + 1] == e
    && (forall i {:trigger s[i]} :: 0 <= i <= k ==> s[i] == r[i])
    && (forall i {:trigger s[i]} :: k + 2 <= i < |s| ==> s[i] == r[i - 1])
  }

  lemma InsertedDistinct(head: ListEntry, items: seq<ListEntry>, k: nat, e: ListEntry)
    requires k <= |items| && Distinct([head] + items) && e !in [head] + items
    ensures Inserted([head] + items, k, e, [head] + (items[..k] + [e] + items[k..]))
    ensures Distinct([head] + (items[..k] + [e] + items[k..]))
  {
    var r, s := [head] + items, [head] + (items[..k] + [e] + items[k..]);
    assert Inserted(r, k, e, s);
  }

  /** Behind the entry at place k, or behind the head when k is 0. */
  method InsertAfter(listEntry: ListEntry, newEntry: ListEntry,
                     ghost head: ListEntry, ghost items: seq<ListEntry>, ghost k: nat)
    requires IsRing(head, items) && newEntry !in [head] + items
    requires k <= |items| && listEntry == ([head] + items)[k]
    modifies newEntry, [head] + items
    ensures IsRing(head, items[..k] + [newEntry] + items[k..])
  {
    LinksInverse(head, items, listEntry);
    ghost var r := [head] + items;
    ghost var s := [head] + (items[..k] + [newEntry] + items[k..]);
    InsertedDistinct(head, items, k, newEntry);
    assert listEntry.Flink == r[if k == |items| then 0 else k + 1];
    var flink := listEntry.Flink;
    listEntry.Flink := newEntry;
    newEntry.Flink := flink;
    newEntry.Blink := listEntry;
    flink.Blink := newEntry;
    assert Linked(s);
  }

  /** On an empty list this returns the head itself and changes nothing. */
  method RemoveHead(head: ListEntry, ghost items: seq<ListEntry>) returns (entry: ListEntry)
    requires IsRing(head, items)
    modifies [head] + items
    ensures items != [] ==> entry == items[0] && IsRing(head, items[1..])
    ensures items == [] ==> entry == head && IsRing(head, [])
  {
    LinksInverse(head, items, head);
    ghost var r := [head] + items;
    ghost var s := if items == [] then [head] else [head] + items[1..];
    assert forall i {:trigger s[i]} :: 1 <= i < |s| ==> s[i] == r[i + 1];
    assert head.Flink == r[if items == [] then 0 else 1];
    entry := head.Flink;
    LinksInverse(head, items, entry);
    assert items != [] ==> entry.Flink == r[if |items| == 1 then 0 else 2];
    var flink := entry.Flink;
    head.Flink := flink;
    flink.Blink := head;
    assert Distinct(s);
    assert Linked(s);
  }

  /** Returns whether the list became empty. */
  method EntryRemove(entry: ListEntry, ghost head: ListEntry, ghost items: seq<ListEntry>, ghost k: nat)
    returns (empty: bool)
    requires IsRing(head, items) && k < |items| && entry == items[k]
    modifies [head] + items
    ensures IsRing(head, items[..k] + items[k + 1..])
    ensures empty <==> items[..k] + items[k + 1..] == []
  {
    LinksInverse(head, items, entry);
    ghost var r := [head] + items;
    ghost var s := [head] + (items[..k] + items[k + 1..]);
    assert forall i {:trigger s[i]} :: 0 <= i <= k ==> s[i] == r[i];
    assert forall i {:trigger s[i]} :: k < i < |s| ==> s[i] == r[i + 1];
    assert entry == r[k + 1] && entry.Blink == r[k];
    assert entry.Flink == r[if k + 1 == |items| then 0 else k + 2];
    var flink := entry.Flink;
    var blink := entry.Blink;
    blink.Flink := flink;
    flink.Blink := blink;
    assert Distinct(s);
    assert Linked(s);
    empty := flink == blink;
  }

  /** The entries of destination followed by those of source, place by place. */
  ghost predicate Appended(r: seq<ListEntry>, d: seq<ListEntry>, s: seq<ListEntry>)
    requires r != []
  {
    && |s| == |d| + |r| - 1
    && (forall i {:trigger s[i]} :: 0 <= i < |d| ==> s[i] == d[i])
    && (forall i {:trigger s[i]} :: |d| <= i < |s| ==> s[i] == r[i - |d| + 1])
  }

  lemma AppendedDistinct(r: seq<ListEntry>, d: seq<ListEntry>, s: seq<ListEntry>)
    requires r != [] && Distinct(r) && Distinct(d) && Appended(r, d, s)
    requires forall e :: e in r ==> e !in d
    ensures Distinct(s) && r[0] !in s
  {
    forall i | 0 <= i < |s| ensures s[i] != r[0] {
      if i < |d| {
        assert d[i] in d && r[0] in r;
      }
    }
    forall i, j | 0 <= i < j < |s| ensures s[i] != s[j] {
      if i < |d| <= j {
        assert r[j - |d| + 1] in r && d[i] in d;
      }
    }
  }

  lemma AppendedHere(source: ListEntry, from: seq<ListEntry>, destination: ListEntry, to: seq<ListEntry>)
    requires Distinct([source] + from) && Distinct([destination] + to)
    requires forall e :: e in [source] + from ==> e !in [destination] + to
    ensures
      var r, d, s := [source] + from, [destination] + to, [destination] + (to + from);
      Appended(r, d, s) && Distinct(s) && source !in s && destination !in r
  {
    var r, d, s := [source] + from, [destination] + to, [destination] + (to + from);
    assert r[0] == source && r[1..] == from && d[0] == destination;
    assert Appended(r, d, s);
    AppendedDistinct(r, d, s);
    assert destination in d;
  }

  /** The branch of MoveItems for an empty destination. */
  method TakeLinks(source: ListEntry, destination: ListEntry, ghost r: seq<ListEntry>, ghost s: seq<ListEntry>)
    requires |r| > 1 && r[0] == source && Distinct(r) && Linked(r)
    requires destination !in r && Appended(r, [destination], s)
    modifies destination, r[1..]
    ensures Linked(s)
  {
    assert source.Flink == r[1] && source.Blink == r[|r| - 1];
    destination.Flink := source.Flink;
    destination.Blink := source.Blink;
    destination.Flink.Blink := destination;
    destination.Blink.Flink := destination;
    assert forall i :: 1 <= i < |r| ==> s[i] == r[i];
  }

  /** The branch of MoveItems for a destination that has items. */
  method ChainLinks(source: ListEntry, destination: ListEntry,
                    ghost r: seq<ListEntry>, ghost d: seq<ListEntry>, ghost s: seq<ListEntry>)
    requires |r| > 1 && r[0] == source && Distinct(r) && Linked(r)
    requires |d| > 1 && d[0] == destination && Distinct(d) && Linked(d)
    requires Distinct(s) && source !in s && Appended(r, d, s)
    modifies r[1..], d
    ensures Linked(s)
  {
    assert source.Flink == r[1] == s[|d|] && source.Blink == r[|r| - 1] == s[|s| - 1];
    assert destination.Blink == d[|d| - 1] == s[|d| - 1];
    source.Flink.Blink := destination.Blink;
    destination.Blink.Flink := source.Flink;
    source.Blink.Flink := destination;
    destination.Blink := source.Blink;
  }

  /** Appends all of source to destination and leaves source empty. */
  method MoveItems(source: ListEntry, destination: ListEntry,
                   ghost from: seq<ListEntry>, ghost to: seq<ListEntry>)
    requires IsRing(source, from) && IsRing(destination, to)
    requires forall e :: e in [source] + from ==> e !in [destination] + to
    modifies [source] + from, [destination] + to
    ensures IsRing(destination, to + from) && IsRing(source, [])
  {
    ghost var r, d, s := [source] + from, [destination] + to, [destination] + (to + from);
    AppendedHere(source, from, destination, to);
    var sourceEmpty := IsEmpty(source, from);
    if sourceEmpty {
      assert to + from == to;
    } else {
      var destinationEmpty := IsEmpty(destination, to);
      if destinationEmpty {
        assert d == [destination];
        TakeLinks(source, destination, r, s);
      } else {
        ChainLinks(source, destination, r, d, s);
      }
      InitializeHead(source);
    }
  }
}
