/**
 Replication theorems over what a replica shows: the ids it has accepted and the ids it has parked.
 `Receive` is the effect of handing over a set of events, whatever their order.
 */
module Replication {
  import opened Sequences
  import opened Events
  import opened Causality

  datatype View = View(accepted: set<EventId>, parked: set<EventId>)

  const EMPTY: View := View({}, {})

  ghost function Receive(v: View, ids: set<EventId>): View {
    var c := Closure(v.accepted, v.parked + ids);
    View(c, v.parked + ids - c)
  }

  /** Handing over `ids` ends in an error: one of them, or a parked event they release, is refused by its room. */
  ghost predicate Refuses(v: View, ids: set<EventId>) {
    Blocked(Closure(v.accepted, v.parked + ids), v.parked + ids)
  }

  /** Every view a node reaches: rebuildable, and with nothing left to drain. */
  ghost predicate Quiet(v: View) {
    Founded(v.accepted) && Receive(v, {}) == v
  }

  lemma StuckIsQuiet(v: View)
    requires Founded(v.accepted) && Stuck(v.accepted, v.parked)
    ensures Quiet(v)
  {
    ClosureIsLeast(v.accepted, v.parked, v.accepted);
    assert v.parked + {} == v.parked;
  }

  lemma ReceiveKeepsQuiet(v: View, ids: set<EventId>)
    requires Quiet(v)
    ensures Quiet(Receive(v, ids))
  {
    var pool := v.parked + ids;
    FoundedClosure(v.accepted, pool);
    ClosureIncremental(v.accepted, pool, {});
    var r := Receive(v, ids);
    assert pool + {} == pool && r.parked + {} == r.parked;
  }

  lemma ReceiveInPortions(v: View, ids: set<EventId>, more: set<EventId>)
    ensures Receive(Receive(v, ids), more) == Receive(v, ids + more)
  {
    var pool := v.parked + ids;
    ClosureIncremental(v.accepted, pool, more);
    assert v.parked + (ids + more) == pool + more;
    var c := Closure(v.accepted, pool + more);
    ClosureMonotone(v.accepted, pool, pool + more);
    assert (pool - Closure(v.accepted, pool)) + more - c == pool + more - c;
  }

  // ----- Strong eventual consistency -----

  lemma LastElement(ids: seq<EventId>)
    requires ids != []
    ensures Elements(ids) == Elements(ids[..|ids| - 1]) + {ids[|ids| - 1]}
  {
    assert ids == ids[..|ids| - 1] + [ids[|ids| - 1]];
  }

  /** Events handed over one at a time. */
  ghost function Deliveries(v: View, ids: seq<EventId>): View {
    if ids == [] then v else
    var n := |ids| - 1;
    Receive(Deliveries(v, ids[..n]), {ids[n]})
  }

  /** How many of them are accepted at the moment they are handed over; events released from parking do not count. */
  ghost function Taken(v: View, ids: seq<EventId>): nat {
    if ids == [] then 0 else
    var n := |ids| - 1;
    Taken(v, ids[..n]) + if ids[n] in Deliveries(v, ids).accepted - Deliveries(v, ids[..n]).accepted then 1 else 0
  }

  lemma DeliveriesSnoc(v: View, ids: seq<EventId>, id: EventId)
    ensures Deliveries(v, []) == v && Taken(v, []) == 0 && !SomeStepFails(v, [])
    ensures Deliveries(v, ids + [id]) == Receive(Deliveries(v, ids), {id})
    ensures Taken(v, ids + [id]) == Taken(v, ids) +
              if id in Deliveries(v, ids + [id]).accepted - Deliveries(v, ids).accepted then 1 else 0
    ensures SomeStepFails(v, ids + [id]) <==> SomeStepFails(v, ids) || Refuses(Deliveries(v, ids), {id})
  {
    hide Receive, Refuses;
    assert (ids + [id])[..|ids|] == ids;
    LastStep(v, ids + [id]);
  }

  ghost predicate SomeStepFails(v: View, ids: seq<EventId>) {
    exists k | 0 <= k < |ids| :: Refuses(Deliveries(v, ids[..k]), {ids[k]})
  }

  lemma {:induction false} OrderDoesNotMatter(v: View, ids: seq<EventId>)
    requires Quiet(v)
    ensures Deliveries(v, ids) == Receive(v, Elements(ids))
  {
    if ids == [] {
      assert Elements(ids) == {};
    } else {
      var n := |ids| - 1;
      OrderDoesNotMatter(v, ids[..n]);
      ReceiveInPortions(v, Elements(ids[..n]), {ids[n]});
      LastElement(ids);
    }
  }

  /**
   Any two delivery sequences over the same set of events, whatever their order and repetitions, end in the
   same view, and so with the same tips in every room. That view accepts the least set closed under
   "delivered and all parents accepted" and parks the rest.
   */
  lemma {:induction false} StrongEventualConsistency(one: seq<EventId>, two: seq<EventId>)
    requires Elements(one) == Elements(two)
    ensures Deliveries(EMPTY, one) == Deliveries(EMPTY, two)
    ensures var accepted := Closure({}, Elements(one));
            Deliveries(EMPTY, one) == View(accepted, Elements(one) - accepted)
    ensures forall other | Closed(other, Elements(one)) :: Deliveries(EMPTY, one).accepted <= other
    ensures forall room :: TipsOf(InRoom(Deliveries(EMPTY, one).accepted, room)) ==
                           TipsOf(InRoom(Deliveries(EMPTY, two).accepted, room))
  {
    assert Quiet(EMPTY) by {
      assert EMPTY.parked + {} == {};
    }
    OrderDoesNotMatter(EMPTY, one);
    OrderDoesNotMatter(EMPTY, two);
    assert EMPTY.parked + Elements(one) == Elements(one);
    forall other | Closed(other, Elements(one)) ensures Closure({}, Elements(one)) <= other {
      ClosureIsLeast({}, Elements(one), other);
    }
  }

  /** Whether some delivery of a run fails does not depend on the order either. */
  lemma {:induction false} FailureDoesNotDependOnOrder(v: View, ids: seq<EventId>)
    requires Quiet(v) && Stuck(v.accepted, v.parked)
    ensures SomeStepFails(v, ids) <==> Refuses(v, Elements(ids))
  {
    hide *;
    if ids == [] {
      NothingFails(v, ids);
    } else {
      var n := |ids| - 1;
      var before := Elements(ids[..n]);
      FailureDoesNotDependOnOrder(v, ids[..n]);
      LastStep(v, ids);
      LastElement(ids);
      OrderDoesNotMatter(v, ids[..n]);
      RefusalInPortions(v, before, {ids[n]});
    }
  }

  lemma NothingFails(v: View, ids: seq<EventId>)
    requires ids == [] && Quiet(v) && Stuck(v.accepted, v.parked)
    ensures !SomeStepFails(v, ids) && !Refuses(v, Elements(ids))
  {
    assert v.parked + Elements(ids) == v.parked + {};
  }

  lemma {:induction false} LastStep(v: View, ids: seq<EventId>)
    requires ids != []
    ensures var n := |ids| - 1;
            SomeStepFails(v, ids) <==> SomeStepFails(v, ids[..n]) || Refuses(Deliveries(v, ids[..n]), {ids[n]})
  {
    hide Refuses, Deliveries;
    var n := |ids| - 1;
    assert forall k | 0 <= k < n :: ids[..n][..k] == ids[..k] && ids[..n][k] == ids[k];
  }

  lemma RefusalInPortions(v: View, ids: set<EventId>, more: set<EventId>)
    requires Quiet(v)
    ensures Refuses(v, ids + more) <==> Refuses(v, ids) || Refuses(Receive(v, ids), more)
  {
    var pool := v.parked + ids;
    var mid, c := Closure(v.accepted, pool), Closure(v.accepted, pool + more);
    ClosureIncremental(v.accepted, pool, more);
    ClosureMonotone(v.accepted, pool, pool + more);
    assert v.parked + (ids + more) == pool + more;
    assert Refuses(Receive(v, ids), more) <==> Blocked(c, pool - mid + more);
    assert Blocked(c, pool - mid + more) <==> Blocked(c, pool + more);
    if Blocked(mid, pool) {
      FoundedParentClosed(v.accepted);
      ClosureParentClosed(v.accepted, pool + more);
      BlockedPersists(mid, pool, c, pool + more);
    }
  }

  // ----- Convergence of two nodes -----

  /** Each side sends what it had in the room and the other lacked. */
  ghost function ConvergeRound(a: View, b: View, room: RoomId): (View, View) {
    var missingA := InRoom(b.accepted, room) - a.accepted;
    var missingB := InRoom(a.accepted, room) - b.accepted;
    (Receive(a, missingA), Receive(b, missingB))
  }

  lemma RoomPartFounded(acc: set<EventId>, room: RoomId)
    requires Founded(acc)
    ensures Founded(InRoom(acc, room))
  {
    var part := InRoom(acc, room);
    var d := Closure({}, part);
    var other := d + (acc - part);
    forall id | id in acc && Ready(other, id) ensures id in other {
      if id in part {
        assert Ready(d, id);
      }
    }
    ClosureIsLeast({}, acc, other);
  }

  /** A peer's room history is accepted in full, and only this room gains events. */
  lemma AcceptsRoomHistory(v: View, room: RoomId, history: set<EventId>)
    requires Quiet(v) && Founded(history) && InRoom(history, room) == history
    ensures var v' := Receive(v, history - v.accepted);
            && v.accepted + history <= v'.accepted
            && v'.accepted <= v.accepted + history + InRoom(v.parked, room)
            && v'.parked == v.parked - v'.accepted
  {
    var pool := v.parked + (history - v.accepted);
    var c := Closure(v.accepted, pool);
    ClosureIsLeast({}, history, c);
    var bound := v.accepted + history + InRoom(v.parked, room);
    assert v.parked + {} == v.parked;
    assert Closed(v.accepted, v.parked);
    forall id | id in pool && Ready(bound, id) ensures id in bound {
      assert RoomOf(id) != room ==> Ready(v.accepted, id);
    }
    ClosureIsLeast(v.accepted, pool, bound);
  }

  lemma {:induction false} OneRound(a: View, b: View, room: RoomId)
    requires Quiet(a) && Quiet(b)
    ensures var (a', b') := ConvergeRound(a, b, room);
            var union := InRoom(a.accepted, room) + InRoom(b.accepted, room);
            && Quiet(a') && Quiet(b')
            && union <= InRoom(a'.accepted, room) <= union + InRoom(a.parked, room)
            && union <= InRoom(b'.accepted, room) <= union + InRoom(b.parked, room)
            && a'.parked == a.parked - a'.accepted
            && b'.parked == b.parked - b'.accepted
  {
    var roomA, roomB := InRoom(a.accepted, room), InRoom(b.accepted, room);
    RoomPartFounded(a.accepted, room);
    RoomPartFounded(b.accepted, room);
    assert InRoom(roomA, room) == roomA && InRoom(roomB, room) == roomB;
    AcceptsRoomHistory(a, room, roomB);
    AcceptsRoomHistory(b, room, roomA);
    assert roomB - a.accepted == InRoom(b.accepted, room) - a.accepted;
    ReceiveKeepsQuiet(a, roomB - a.accepted);
    ReceiveKeepsQuiet(b, roomA - b.accepted);
  }

  /** With nothing of the room parked on either side, one round makes both equal to the union. */
  lemma OneRoundSuffices(a: View, b: View, room: RoomId)
    requires Quiet(a) && Quiet(b) && InRoom(a.parked + b.parked, room) == {}
    ensures var (a', b') := ConvergeRound(a, b, room);
            && InRoom(a'.accepted, room) == InRoom(b'.accepted, room)
            && InRoom(a'.accepted, room) == InRoom(a.accepted, room) + InRoom(b.accepted, room)
            && TipsOf(InRoom(a'.accepted, room)) == TipsOf(InRoom(b'.accepted, room))
  {
    OneRound(a, b, room);
    assert InRoom(a.parked, room) <= InRoom(a.parked + b.parked, room);
    assert InRoom(b.parked, room) <= InRoom(a.parked + b.parked, room);
  }

  /** A round that leaves the room different on the two sides has released a parked event. */
  lemma {:induction false} RoundShrinks(a: View, b: View, room: RoomId)
    requires Quiet(a) && Quiet(b)
    ensures var (a', b') := ConvergeRound(a, b, room);
            && |a'.parked| <= |a.parked| && |b'.parked| <= |b.parked|
            && (InRoom(a'.accepted, room) != InRoom(b'.accepted, room) ==>
                  |a'.parked| + |b'.parked| < |a.parked| + |b.parked|)
  {
    OneRound(a, b, room);
    var (a', b') := ConvergeRound(a, b, room);
    var union := InRoom(a.accepted, room) + InRoom(b.accepted, room);
    Released(a.parked, a'.accepted, InRoom(a'.accepted, room), union);
    Released(b.parked, b'.accepted, InRoom(b'.accepted, room), union);
  }

  /** A side that ends with more than the union has taken it from its parked events. */
  lemma Released(parked: set<EventId>, accepted: set<EventId>, roomPart: set<EventId>, union: set<EventId>)
    requires union <= roomPart <= union + parked && roomPart <= accepted
    ensures |parked - accepted| <= |parked|
    ensures roomPart != union ==> |parked - accepted| < |parked|
  {
    Fewer(parked - accepted, parked);
    if id :| id in roomPart - union {
      assert id in parked && id !in parked - accepted;
    } else {
      forall id | id in roomPart ensures id in union {
        assert id !in roomPart - union;
      }
    }
  }

  lemma Fewer(small: set<EventId>, big: set<EventId>)
    requires small <= big
    ensures |small| <= |big|
    ensures small != big ==> |small| < |big|
  {
    assert big == small + (big - small);
    assert |big| == |small| + |big - small|;
  }

  ghost function ConvergeRounds(a: View, b: View, room: RoomId, n: nat): (View, View) {
    if n == 0 then (a, b) else
    var (a', b') := ConvergeRounds(a, b, room, n - 1);
    ConvergeRound(a', b', room)
  }

  /** Once both sides hold the same events of the room, further rounds change nothing at all. */
  lemma AgreedIsStable(a: View, b: View, room: RoomId)
    requires Quiet(a) && Quiet(b) && InRoom(a.accepted, room) == InRoom(b.accepted, room)
    ensures ConvergeRound(a, b, room) == (a, b)
  {
    assert InRoom(b.accepted, room) - a.accepted == {};
    assert InRoom(a.accepted, room) - b.accepted == {};
  }

  lemma {:induction false} RoundsProgress(a: View, b: View, room: RoomId, n: nat)
    requires Quiet(a) && Quiet(b)
    ensures var (a', b') := ConvergeRounds(a, b, room, n);
            && Quiet(a') && Quiet(b')
            && (|| InRoom(a'.accepted, room) == InRoom(b'.accepted, room)
                || |a'.parked| + |b'.parked| + n <= |a.parked| + |b.parked|)
  {
    hide *;
    RoundsUnfold(a, b, room, n);
    if n > 0 {
      RoundsProgress(a, b, room, n - 1);
      var (p, q) := ConvergeRounds(a, b, room, n - 1);
      OneRound(p, q, room);
      if InRoom(p.accepted, room) == InRoom(q.accepted, room) {
        AgreedIsStable(p, q, room);
      } else {
        RoundShrinks(p, q, room);
      }
    }
  }

  lemma RoundsUnfold(a: View, b: View, room: RoomId, n: nat)
    ensures ConvergeRounds(a, b, room, 0) == (a, b)
    ensures n > 0 ==> var (p, q) := ConvergeRounds(a, b, room, n - 1);
                      ConvergeRounds(a, b, room, n) == ConvergeRound(p, q, room)
  {
  }

  /** As many rounds as there are parked events on both sides, plus one, always suffice. */
  lemma {:induction false} BoundedConvergence(a: View, b: View, room: RoomId, n: nat)
    requires Quiet(a) && Quiet(b) && n > |a.parked| + |b.parked|
    ensures var (a', b') := ConvergeRounds(a, b, room, n);
            && InRoom(a'.accepted, room) == InRoom(b'.accepted, room)
            && TipsOf(InRoom(a'.accepted, room)) == TipsOf(InRoom(b'.accepted, room))
  {
    RoundsProgress(a, b, room, n);
  }

  /** Where every event's parents are of its own room, nothing is ever refused. */
  lemma SameRoomsNeverRefuse(v: View, ids: set<EventId>)
    requires forall id | id in v.parked + ids :: SameRoomParents(id)
    ensures !Refuses(v, ids)
  {
  }

  /** A round fails: a room refuses something of what one of the sides is sent, or that it releases. */
  ghost predicate RoundRefuses(ab: (View, View), room: RoomId) {
    var (a, b) := ab;
    || Refuses(a, InRoom(b.accepted, room) - a.accepted)
    || Refuses(b, InRoom(a.accepted, room) - b.accepted)
  }

  lemma RefusalMeans(a: View, b: View, room: RoomId)
    ensures RoundRefuses((a, b), room) <==>
              || Refuses(a, InRoom(b.accepted, room) - a.accepted)
              || Refuses(b, InRoom(a.accepted, room) - b.accepted)
  {
  }

  lemma {:induction false} RoundsParkNothingNew(a: View, b: View, room: RoomId, n: nat)
    requires Quiet(a) && Quiet(b)
    ensures var (a', b') := ConvergeRounds(a, b, room, n);
            Quiet(a') && Quiet(b') && a'.parked <= a.parked && b'.parked <= b.parked
  {
    hide *;
    RoundsUnfold(a, b, room, n);
    if n > 0 {
      RoundsParkNothingNew(a, b, room, n - 1);
      var (p, q) := ConvergeRounds(a, b, room, n - 1);
      OneRound(p, q, room);
    }
  }

  lemma AcceptedIsSameRoom(v: View, id: EventId)
    requires Quiet(v) && id in v.accepted
    ensures SameRoomParents(id)
  {
    FoundedParentClosed(v.accepted);
    assert Ready(v.accepted, id);
  }

  /** Only a parked event can make a round fail, and only one that names a parent of another room. */
  lemma NoRoundRefuses(a: View, b: View, room: RoomId, n: nat)
    requires Quiet(a) && Quiet(b)
    requires forall id | id in a.parked + b.parked :: SameRoomParents(id)
    ensures !RoundRefuses(ConvergeRounds(a, b, room, n), room)
  {
    RoundsParkNothingNew(a, b, room, n);
    hide ConvergeRounds, Quiet, Refuses, SameRoomParents;
    var (p, q) := ConvergeRounds(a, b, room, n);
    forall id | id in p.accepted + q.accepted ensures SameRoomParents(id) {
      AcceptedIsSameRoom(if id in p.accepted then p else q, id);
    }
    SameRoomsNeverRefuse(p, InRoom(q.accepted, room) - p.accepted);
    SameRoomsNeverRefuse(q, InRoom(p.accepted, room) - q.accepted);
  }

  // ----- One event certifies a history -----

  /**
   A node that has accepted an event authored on top of all tips of a room history holds that history,
   whatever it has parked or lost. Every node's accepted set is founded.
   */
  lemma FanoutCertificate(history: set<EventId>, message: EventId, held: set<EventId>)
    requires Founded(history) && TipsOf(history) <= Elements(ParentsOf(message))
    requires Founded(held) && message in held
    ensures history <= held
  {
    var log := CausalOrder(history);
    FoundedParentClosed(held);
    TipsCertifyHistory(log, message, held);
  }
}
