/** The durable event log (crates/td-event/src/store.rs). A table keyed by event id. */
module EventStores {
  import opened Wrappers
  import opened Sequences
  import opened Sorting
  import opened Events

  /** The order used to list and send events: parent count, then timestamp. It is not causal. */
  function ListedBefore(a: SignedEvent, b: SignedEvent): bool {
    |a.body.parents| < |b.body.parents| || (|a.body.parents| == |b.body.parents| && a.body.tsMs <= b.body.tsMs)
  }

  /** Fewer parents come first, and with as many parents the earlier time. */
  ghost predicate ByParentsThenTime(list: seq<SignedEvent>) {
    forall i, j | 0 <= i < j < |list| ::
      && |list[i].body.parents| <= |list[j].body.parents|
      && (|list[i].body.parents| == |list[j].body.parents| ==> list[i].body.tsMs <= list[j].body.tsMs)
  }

  lemma ListOrderMeans(list: seq<SignedEvent>)
    ensures SortedBy(ListedBefore, list) <==> ByParentsThenTime(list)
  {
  }

  function InListOrder(events: seq<SignedEvent>): (r: seq<SignedEvent>)
    ensures multiset(r) == multiset(events)
  {
    SortBy(ListedBefore, events)
  }

  lemma InListOrderProperties(events: seq<SignedEvent>)
    ensures ByParentsThenTime(InListOrder(events))
    ensures Elements(InListOrder(events)) == Elements(events)
    ensures NoDuplicates(events) ==> NoDuplicates(InListOrder(events))
  {
    SortBySorts(ListedBefore, events);
    ListOrderMeans(InListOrder(events));
    SameElements(InListOrder(events), events);
  }

  lemma SameElements<T>(r: seq<T>, s: seq<T>)
    requires multiset(r) == multiset(s)
    ensures Elements(r) == Elements(s) && |r| == |s|
    ensures NoDuplicates(s) ==> NoDuplicates(r)
  {
    forall x ensures x in r <==> x in s {
      assert x in multiset(r) <==> x in multiset(s);
    }
    assert |r| == |multiset(r)| && |s| == |multiset(s)|;
    if NoDuplicates(s) {
      forall i, j | 0 <= i < j < |r| ensures r[i] != r[j] {
        if r[i] == r[j] {
          assert r == r[..i] + [r[i]] + r[i + 1..j] + [r[j]] + r[j + 1..];
          assert multiset(r)[r[i]] >= 2;
          CountedOnce(s, r[i]);
        }
      }
    }
  }

  lemma {:induction false} CountedOnce<T>(s: seq<T>, x: T)
    requires NoDuplicates(s)
    ensures multiset(s)[x] <= 1
  {
    if s != [] {
      assert s == [s[0]] + s[1..];
      CountedOnce(s[1..], x);
      assert s[0] !in s[1..];
      assert s[0] !in multiset(s[1..]);
    }
  }

  // ----- When the list order puts parents first -----

  /** One of the lists that sorting can produce; events that compare equal come in any order. */
  ghost predicate IsListing(list: seq<SignedEvent>, events: seq<SignedEvent>) {
    multiset(list) == multiset(events) && ByParentsThenTime(list)
  }

  ghost predicate ParentsFirst(list: seq<SignedEvent>) {
    forall i, j | 0 <= i < |list| && 0 <= j < |list| && list[i].id in ParentsOf(list[j].id) :: i < j
  }

  /** Every event compares strictly after its parents: more parents than they have, or as many and later. */
  ghost predicate AfterParents(events: seq<SignedEvent>) {
    forall p, c | p in events && c in events && p.id in ParentsOf(c.id) ::
      || |p.body.parents| < |c.body.parents|
      || (|p.body.parents| == |c.body.parents| && p.body.tsMs < c.body.tsMs)
  }

  /** In every listing an event without parents precedes all that have some, and a chain stands in the order of time. */
  lemma ChainsInOrder(list: seq<SignedEvent>, i: nat, j: nat)
    requires ByParentsThenTime(list) && i < |list| && j < |list|
    ensures list[i].body.parents == [] && list[j].body.parents != [] ==> i < j
    ensures |list[j].body.parents| == 1 && |list[i].body.parents| <= 1 && list[i].body.tsMs < list[j].body.tsMs ==>
              i < j
  {
    if j < i {
      assert |list[j].body.parents| <= |list[i].body.parents|;
    }
  }

  lemma ListOrderIsTotal()
    ensures TotalPreorder(ListedBefore)
  {
  }

  /** Inserted, an element lands before everything it may precede. */
  lemma {:induction false} InsertLandsBefore<T(!new)>(le: (T, T) -> bool, x: T, s: seq<T>, k: nat)
    returns (i: nat, j: nat)
    requires TotalPreorder(le) && SortedBy(le, s) && k < |s| && le(x, s[k])
    ensures var r := InsertSorted(le, x, s); i < j < |r| && r[i] == x && r[j] == s[k]
  {
    if le(x, s[0]) {
      i, j := 0, k + 1;
    } else {
      i, j := InsertLandsBefore(le, x, s[1..], k - 1);
      i, j := i + 1, j + 1;
    }
  }

  /** A listing in which a child that may precede its parent does so. */
  lemma ChildListedFirst(events: seq<SignedEvent>, p: SignedEvent, c: SignedEvent) returns (list: seq<SignedEvent>)
    requires p in events && c in events && p.id in ParentsOf(c.id) && ListedBefore(c, p)
    ensures IsListing(list, events) && !ParentsFirst(list)
  {
    var k :| 0 <= k < |events| && events[k] == p;
    var rest := events[..k] + events[k + 1..];
    assert events == events[..k] + [p] + events[k + 1..];
    assert multiset(events) == multiset(rest) + multiset{p};
    assert c in multiset(events) && c != p;
    assert c in multiset(rest);
    var m :| 0 <= m < |rest| && rest[m] == c;
    var others := rest[..m] + rest[m + 1..];
    assert rest == rest[..m] + [c] + rest[m + 1..];
    assert multiset(rest) == multiset(others) + multiset{c};
    list := ChildThenParent(others, p, c);
  }

  lemma ChildThenParent(others: seq<SignedEvent>, p: SignedEvent, c: SignedEvent) returns (list: seq<SignedEvent>)
    requires p.id in ParentsOf(c.id) && ListedBefore(c, p)
    ensures multiset(list) == multiset(others) + multiset{c} + multiset{p}
    ensures ByParentsThenTime(list) && !ParentsFirst(list)
  {
    ListOrderIsTotal();
    SortBySorts(ListedBefore, others);
    var withParent := InsertSorted(ListedBefore, p, SortBy(ListedBefore, others));
    InsertKeepsSorted(ListedBefore, p, SortBy(ListedBefore, others));
    InsertKeepsSorted(ListedBefore, c, withParent);
    assert p in multiset(withParent);
    var k :| 0 <= k < |withParent| && withParent[k] == p;
    var i, j := InsertLandsBefore(ListedBefore, c, withParent, k);
    list := InsertSorted(ListedBefore, c, withParent);
    ListOrderMeans(list);
    assert list[j].id in ParentsOf(list[i].id) && i < j;
  }

  /**
   Exactly when listing is parent-before-child: for a collection of events, every list that the sort can
   produce puts all parents first if and only if each event compares strictly after its parents in it.
   */
  lemma ListsParentsFirstExactly(events: seq<SignedEvent>)
    ensures (forall list | IsListing(list, events) :: ParentsFirst(list)) <==> AfterParents(events)
  {
    if AfterParents(events) {
      forall list | IsListing(list, events) ensures ParentsFirst(list) {
        SortedAfterParents(list, events);
      }
    } else {
      var p, c :| p in events && c in events && p.id in ParentsOf(c.id) && ListedBefore(c, p);
      var list := ChildListedFirst(events, p, c);
    }
  }

  lemma SortedAfterParents(list: seq<SignedEvent>, events: seq<SignedEvent>)
    requires IsListing(list, events) && AfterParents(events)
    ensures ParentsFirst(list)
  {
    forall i, j | 0 <= i < |list| && 0 <= j < |list| && list[i].id in ParentsOf(list[j].id) ensures i < j {
      assert list[i] in multiset(list) && list[j] in multiset(list);
      assert list[i] in multiset(events) && list[j] in multiset(events);
    }
  }

  /** Ordinary events fail the condition: here a child is listed strictly before its parent in every list. */
  lemma ListOrderIsNotCausal() returns (parent: SignedEvent, child: SignedEvent)
    ensures Verified(parent) && Verified(child) && parent.id in ParentsOf(child.id)
    ensures RoomOf(parent.id) == RoomOf(child.id)
    ensures forall list, i, j | ByParentsThenTime(list) && 0 <= i < |list| && 0 <= j < |list|
                                && list[i] == child && list[j] == parent :: i < j
    ensures !AfterParents([parent, child])
  {
    var root := UnsignedEvent(0, [], Message, RawPayload([]), 1, 1);
    var first := UnsignedEvent(0, [Digest(root, Authentic)], Message, RawPayload([]), 1, 9);
    var second := UnsignedEvent(0, [Digest(first, Authentic)], Message, RawPayload([]), 2, 2);
    parent, child := EventOf(Digest(first, Authentic)), EventOf(Digest(second, Authentic));
    assert parent in [parent, child] && child in [parent, child];
  }

  class EventStore {
    var rows: map<EventId, SignedEvent>

    ghost predicate Valid()
      reads this
    {
      forall id | id in rows :: Verified(rows[id]) && rows[id].id == id
    }

    constructor ()
      ensures Valid() && rows == map[]
    {
      rows := map[];
    }

    /** Insert or ignore: a row is never overwritten. */
    method Put(ev: SignedEvent) returns (r: Result<bool, EventError>)
      requires Valid()
      modifies this
      ensures Valid()
      ensures r.Ok? <==> Verified(ev)
      ensures r.Ok? ==> r.value == (ev.id !in old(rows)) && rows == old(rows)[ev.id := ev]
      ensures r.Err? ==> rows == old(rows)
    {
      var checked := VerifyEvent(ev);
      if checked.Err? {
        return Err(checked.error);
      }
      if ev.id in rows {
        return Ok(false);
      }
      rows := rows[ev.id := ev];
      return Ok(true);
    }

    /** All rows, each once, by parent count and then timestamp. */
    method ListAll() returns (out: seq<SignedEvent>)
      requires Valid()
      ensures NoDuplicates(out) && Elements(out) == rows.Values
      ensures ByParentsThenTime(out)
    {
      out := [];
      var rest := rows.Keys;
      while rest != {}
        invariant rest <= rows.Keys && NoDuplicates(out)
        invariant forall ev :: ev in out <==> ev.id in rows && ev.id !in rest && ev == rows[ev.id]
        decreases |rest|
      {
        var id :| id in rest;
        out := out + [rows[id]];
        rest := rest - {id};
      }
      forall ev ensures ev in out <==> ev in rows.Values {
        assert ev in rows.Values ==> ev.id in rows && rows[ev.id] == ev;
        assert ev.id in rows && rows[ev.id] == ev ==> ev in rows.Values;
      }
      InListOrderProperties(out);
      out := InListOrder(out);
    }
  }
}
