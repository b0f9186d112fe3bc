/** One device's replica: accepted events, room DAGs, inbox, outbox, durable log (crates/td-node/src/sync.rs). */
module DeviceNodes {
  import opened Wrappers
  import opened Sequences
  import opened Sorting
  import opened Events
  import opened Causality
  import opened RoomDags
  import opened EventStores
  import opened Replication

  datatype SyncError = EventFailed(event: EventError) | DagFailed(dag: DagError)

  /** A room's refusal of an event with a parent elsewhere. */
  predicate IsMissingParent(e: SyncError) {
    e.DagFailed? && e.dag.MissingParent?
  }

  lemma RoomRefuses(e: DagError)
    ensures IsMissingParent(DagFailed(e)) <==> e.MissingParent?
  {
  }

  ghost function IdsOf(events: seq<SignedEvent>): set<EventId> {
    set ev | ev in events :: ev.id
  }

  ghost predicate DistinctIds(events: seq<SignedEvent>) {
    forall i, j | 0 <= i < j < |events| :: events[i].id != events[j].id
  }

  ghost predicate AllVerified(events: seq<SignedEvent>) {
    forall ev | ev in events :: Verified(ev)
  }

  /** The ids of those entries of a batch that verify, in order. */
  ghost function VerifiedIds(events: seq<SignedEvent>): seq<EventId> {
    if events == [] then [] else
    var last := events[|events| - 1];
    VerifiedIds(events[..|events| - 1]) + if Verified(last) then [last.id] else []
  }

  lemma VerifiedIdsSnoc(events: seq<SignedEvent>, i: nat)
    requires i < |events|
    ensures VerifiedIds(events[..0]) == [] && events[..|events|] == events
    ensures VerifiedIds(events[..i + 1])
         == VerifiedIds(events[..i]) + if Verified(events[i]) then [events[i].id] else []
  {
    assert events[..i + 1][..i] == events[..i];
  }

  lemma {:induction false} VerifiedIdsAre(events: seq<SignedEvent>)
    ensures |VerifiedIds(events)| <= |events|
    ensures forall id :: id in VerifiedIds(events) <==> exists ev | ev in events :: Verified(ev) && ev.id == id
    ensures AllVerified(events) <==> |VerifiedIds(events)| == |events|
    ensures AllVerified(events) ==> Elements(VerifiedIds(events)) == IdsOf(events)
  {
    if events != [] {
      var front, last := events[..|events| - 1], events[|events| - 1];
      assert events == front + [last];
      VerifiedIdsAre(front);
    }
  }

  lemma TakeFirst(aside: seq<SignedEvent>, queue: seq<SignedEvent>)
    requires queue != [] && DistinctIds(aside + queue)
    ensures var first, others := queue[0], queue[1..];
            && DistinctIds(others) && DistinctIds(aside + others) && DistinctIds(aside + [first] + others)
            && first.id !in IdsOf(aside) && first.id !in IdsOf(others)
            && IdsOf(queue) == {first.id} + IdsOf(others)
            && IdsOf(aside + [first]) == IdsOf(aside) + {first.id}
  {
    var first, others := queue[0], queue[1..];
    assert queue == [first] + others;
    assert aside + [first] + others == aside + queue;
    var all := aside + queue;
    assert forall i | 0 <= i < |aside| :: all[i] == aside[i];
    assert forall i | 0 <= i < |queue| :: all[|aside| + i] == queue[i];
    assert forall i | 0 <= i < |others| :: others[i] == all[|aside| + 1 + i];
    forall i, j | 0 <= i < j < |aside + others| ensures (aside + others)[i].id != (aside + others)[j].id {
      var i' := if i < |aside| then i else i + 1;
      var j' := if j < |aside| then j else j + 1;
      assert all[i'] == (aside + others)[i] && all[j'] == (aside + others)[j];
    }
  }

  datatype SyncOffer = SyncOffer(fromDevice: DeviceId, room: RoomId, tips: seq<EventId>, have: set<EventId>)

  lemma SameIds(r: seq<SignedEvent>, s: seq<SignedEvent>)
    requires Elements(r) == Elements(s)
    ensures IdsOf(r) == IdsOf(s) && (AllVerified(s) ==> AllVerified(r))
  {
    assert forall ev :: ev in r <==> ev in Elements(r);
    assert forall ev :: ev in s <==> ev in Elements(s);
  }

  lemma StartSync(acc: set<EventId>, parked: set<EventId>, missing: seq<SignedEvent>)
    requires Stuck(acc, parked)
    ensures Drained(acc, parked + IdsOf(missing[..0]), acc, parked, false)
  {
    assert IdsOf(missing[..0]) == {};
    ClosureIsLeast(acc, parked, acc);
  }

  lemma ItsVerified(events: seq<SignedEvent>, i: nat)
    requires i < |events| && AllVerified(events)
    ensures Verified(events[i])
  {
    assert events[i] in events;
  }

  lemma IdsOfNext(missing: seq<SignedEvent>, i: nat)
    requires i < |missing|
    ensures IdsOf(missing[..i + 1]) == IdsOf(missing[..i]) + {missing[i].id}
    ensures IdsOf(missing[..i + 1]) <= IdsOf(missing)
  {
    assert missing[..i + 1] == missing[..i] + [missing[i]];
  }

  lemma SyncStep(
    acc: set<EventId>, parked: set<EventId>, mid: set<EventId>, left: set<EventId>,
    missing: seq<SignedEvent>, i: nat, acc': set<EventId>, parked': set<EventId>, failed: bool)
    requires i < |missing| && ParentClosed(acc)
    requires Drained(acc, parked + IdsOf(missing[..i]), mid, left, false)
    requires Drained(mid, left + {missing[i].id}, acc', parked', failed)
    ensures failed ==> Drained(acc, parked + IdsOf(missing), acc', parked', true)
    ensures !failed ==> Drained(acc, parked + IdsOf(missing[..i + 1]), acc', parked', false)
  {
    hide *;
    var sofar := parked + IdsOf(missing[..i]);
    IdsOfNext(missing, i);
    DrainedInPortions(acc, sofar, mid, left, {missing[i].id}, acc', parked', failed);
    assert parked + IdsOf(missing[..i + 1]) == sofar + {missing[i].id};
    if failed {
      FailureIsFinal(acc, sofar + {missing[i].id}, IdsOf(missing), acc', parked');
      assert sofar + {missing[i].id} + IdsOf(missing) == parked + IdsOf(missing);
    }
  }

  lemma DrainedIsReceive(v: View, ids: set<EventId>, acc: set<EventId>, parked: set<EventId>, failed: bool)
    requires Drained(v.accepted, v.parked + ids, acc, parked, failed)
    ensures failed <==> Refuses(v, ids)
    ensures !failed ==> View(acc, parked) == Receive(v, ids)
  {
  }

  lemma StillReady(acc: set<EventId>, mid: set<EventId>, id: EventId)
    requires acc <= mid
    ensures Ready(acc, id) ==> Ready(mid, id)
  {
  }

  /** One more event handed over, on top of those that `ids` stands for. */
  lemma DeliverStep(start: View, ids: seq<EventId>, mid: set<EventId>, left: set<EventId>, id: EventId,
                    acc: set<EventId>, parked: set<EventId>, failed: bool)
    requires Deliveries(start, ids) == View(mid, left) && Drained(mid, left + {id}, acc, parked, failed)
    ensures SomeStepFails(start, ids + [id]) <==> SomeStepFails(start, ids) || failed
    ensures !failed ==> Deliveries(start, ids + [id]) == View(acc, parked)
    ensures !failed ==> Taken(start, ids + [id]) == Taken(start, ids) + if id in acc && id !in mid then 1 else 0
  {
    hide *;
    DeliveriesSnoc(start, ids, id);
    DrainedIsReceive(View(mid, left), {id}, acc, parked, failed);
  }

  /**
   A batch handed over so far: a failure beyond those of the entries that do not verify is a refusal by a room,
   and without one the view is that of delivering the others.
   */
  ghost predicate HandedOver(start: View, batch: seq<SignedEvent>, now: View, taken: nat, failures: nat) {
    var ids := VerifiedIds(batch);
    && |batch| <= failures + |ids|
    && (failures + |ids| == |batch| <==> !SomeStepFails(start, ids))
    && (failures + |ids| == |batch| ==>
          Stuck(now.accepted, now.parked) && now == Deliveries(start, ids) && taken == Taken(start, ids))
  }

  lemma NothingHandedOver(start: View, batch: seq<SignedEvent>)
    requires Stuck(start.accepted, start.parked)
    ensures HandedOver(start, batch[..0], start, 0, 0)
  {
    DeliveriesSnoc(start, [], NoPreimage(0));
  }

  lemma HandOverOne(start: View, batch: seq<SignedEvent>, ev: SignedEvent, mid: View, now: View,
                    taken: nat, failures: nat, failed: bool)
    requires HandedOver(start, batch, mid, taken, failures)
    requires Verified(ev) && Stuck(mid.accepted, mid.parked) ==>
               && Drained(mid.accepted, mid.parked + {ev.id}, now.accepted, now.parked, failed)
               && (!failed ==> Stuck(now.accepted, now.parked))
    requires !Verified(ev) ==> failed && now == mid
    ensures HandedOver(start, batch + [ev], now,
                       taken + if !failed && ev.id in now.accepted && ev.id !in mid.accepted then 1 else 0,
                       failures + if failed then 1 else 0)
  {
    hide Drained, Stuck, Deliveries, Taken, SomeStepFails, VerifiedIds;
    var ids := VerifiedIds(batch);
    assert (batch + [ev])[..|batch|] == batch;
    VerifiedIdsSnoc(batch + [ev], |batch|);
    assert (batch + [ev])[..|batch| + 1] == batch + [ev];
    assert ids + [] == ids;
    if Verified(ev) {
      DeliveriesSnoc(start, ids, ev.id);
      if failures + |ids| == |batch| {
        DeliverStep(start, ids, mid.accepted, mid.parked, ev.id, now.accepted, now.parked, failed);
      }
    }
  }

  lemma AllHandedOver(start: View, batch: seq<SignedEvent>, now: View, taken: nat, failures: nat)
    requires Founded(start.accepted) && Stuck(start.accepted, start.parked)
    requires HandedOver(start, batch, now, taken, failures)
    ensures var ids := VerifiedIds(batch);
            && |batch| <= failures + |ids|
            && (failures + |ids| == |batch| <==> !Refuses(start, Elements(ids)))
            && (failures + |ids| == |batch| ==>
                  && Stuck(now.accepted, now.parked) && now == Receive(start, Elements(ids))
                  && taken == Taken(start, ids))
  {
    hide Stuck, Founded, Deliveries, Taken, SomeStepFails, VerifiedIds, Refuses, Receive, Quiet;
    StuckIsQuiet(start);
    OrderDoesNotMatter(start, VerifiedIds(batch));
    FailureDoesNotDependOnOrder(start, VerifiedIds(batch));
  }

  /**
   A batch is taken in up to its k-th entry, which either does not verify and changes nothing, or meets a room's
   refusal of it or of what it releases.
   */
  ghost predicate StopsAt(start: View, batch: seq<SignedEvent>, k: nat, now: View) {
    && k < |batch|
    && AllVerified(batch[..k]) && !Refuses(start, IdsOf(batch[..k]))
    && var before := Receive(start, IdsOf(batch[..k]));
       if !Verified(batch[k]) then now == before
       else Drained(before.accepted, before.parked + {batch[k].id}, now.accepted, now.parked, true)
  }

  lemma StopsMeans(start: View, batch: seq<SignedEvent>, k: nat, before: View, now: View)
    requires k < |batch| && |VerifiedIds(batch[..k])| == k
    requires !Refuses(start, Elements(VerifiedIds(batch[..k])))
    requires before == Receive(start, Elements(VerifiedIds(batch[..k])))
    requires if !Verified(batch[k]) then now == before
             else Drained(before.accepted, before.parked + {batch[k].id}, now.accepted, now.parked, true)
    ensures StopsAt(start, batch, k, now)
  {
    hide Drained, Receive, Refuses, VerifiedIds;
    VerifiedIdsAre(batch[..k]);
  }

  /** A peer's `have` list leaves out other rooms; for the room's own events that makes no difference. */
  lemma SameMissing(a: set<EventId>, b: set<EventId>, room: RoomId)
    ensures InRoom(b, room) - InRoom(a, room) == InRoom(b, room) - a
    ensures InRoom(a, room) - InRoom(b, room) == InRoom(a, room) - b
  {
  }

  lemma ConvergeRoundMeans(a: View, b: View, room: RoomId)
    ensures ConvergeRound(a, b, room) == (
              Receive(a, InRoom(b.accepted, room) - a.accepted), Receive(b, InRoom(a.accepted, room) - b.accepted))
  {
  }

  lemma ReplayIsReceive(ids: set<EventId>, acc: set<EventId>, parked: set<EventId>, failed: bool)
    requires Drained({}, {} + ids, acc, parked, failed)
    ensures failed <==> Refuses(EMPTY, ids)
    ensures !failed ==> View(acc, parked) == Receive(EMPTY, ids)
    ensures acc <= ids
  {
  }

  lemma RowIds(store: EventStore, listed: seq<SignedEvent>)
    requires store.Valid() && Elements(listed) == store.rows.Values
    ensures AllVerified(listed) && IdsOf(listed) == store.rows.Keys
  {
    forall ev | ev in listed ensures Verified(ev) && ev.id in store.rows {
      assert ev in Elements(listed);
    }
    forall id | id in store.rows ensures id in IdsOf(listed) {
      assert store.rows[id] in Elements(listed);
    }
  }

  lemma InRoomOfOneMore(acc: set<EventId>, ev: SignedEvent, room: RoomId)
    requires Verified(ev)
    ensures InRoom(acc + {ev.id}, room) == InRoom(acc, room) + if ev.body.roomId == room then {ev.id} else {}
  {
  }

  lemma VerifiedRoom(ev: SignedEvent)
    requires Verified(ev)
    ensures RoomOf(ev.id) == ev.body.roomId
  {
  }

  /** What one pass has lost is missing at the end as well. */
  lemma LostForGood(
    pool: set<EventId>, left: set<EventId>, acc': set<EventId>, parked': set<EventId>)
    requires left <= pool && !(left <= parked' + acc')
    ensures !(pool <= parked' + acc')
  {
  }

  lemma DrainingPool(acc: set<EventId>, pool: set<EventId>, acc': set<EventId>, parked': set<EventId>)
    requires Draining(acc, pool, acc', parked')
    ensures parked' <= pool <= parked' + acc'
  {
  }

  // ----- The drain, step by step -----

  datatype Outcome = Outcome(accepted: set<EventId>, inbox: seq<SignedEvent>, failed: bool)

  /** One pass, with `aside` set aside so far. A refusal drops what was set aside and keeps what stood behind it. */
  ghost function Pass(acc: set<EventId>, aside: seq<SignedEvent>, queue: seq<SignedEvent>): (o: Outcome)
    ensures acc <= o.accepted && |o.inbox| <= |aside| + |queue|
    ensures o.accepted != acc ==> |o.inbox| < |aside| + |queue|
    decreases |queue|
  {
    if queue == [] then Outcome(acc, aside, false)
    else
      var ev, others := queue[0], queue[1..];
      if ev.id in acc then Pass(acc, aside, others)
      else if !ParentsKnown(acc, ev.id) then Pass(acc, aside + [ev], others)
      else if !SameRoomParents(ev.id) then Outcome(acc, others, true)
      else Pass(acc + {ev.id}, aside, others)
  }

  /** Passes until one fails or accepts nothing. */
  ghost function Drain(acc: set<EventId>, queue: seq<SignedEvent>): Outcome
    decreases |queue|
  {
    var o := Pass(acc, [], queue);
    if o.failed || o.accepted == acc then o else Drain(o.accepted, o.inbox)
  }

  lemma PassStep(acc: set<EventId>, aside: seq<SignedEvent>, queue: seq<SignedEvent>)
    requires queue != []
    ensures var ev, others := queue[0], queue[1..];
            Pass(acc, aside, queue) ==
              if ev.id in acc then Pass(acc, aside, others)
              else if !ParentsKnown(acc, ev.id) then Pass(acc, aside + [ev], others)
              else if !SameRoomParents(ev.id) then Outcome(acc, others, true)
              else Pass(acc + {ev.id}, aside, others)
  {
  }

  lemma PassDone(acc: set<EventId>, aside: seq<SignedEvent>)
    ensures Pass(acc, aside, []) == Outcome(acc, aside, false)
  {
  }

  lemma DrainStep(acc: set<EventId>, queue: seq<SignedEvent>)
    ensures var o := Pass(acc, [], queue);
            Drain(acc, queue) == if o.failed || o.accepted == acc then o else Drain(o.accepted, o.inbox)
  {
  }

  /** Some way into a pass over `queue0` on top of `acc0`. */
  ghost predicate Passing(
    acc0: set<EventId>, queue0: seq<SignedEvent>,
    acc: set<EventId>, aside: seq<SignedEvent>, queue: seq<SignedEvent>, progress: bool)
  {
    && acc0 <= acc <= Closure(acc0, IdsOf(queue0))
    && AllVerified(aside) && DistinctIds(aside + queue)
    && IdsOf(aside) + IdsOf(queue) <= IdsOf(queue0) <= IdsOf(aside) + IdsOf(queue) + acc
    && |aside| + |queue| <= |queue0| - (if progress then 1 else 0)
    && (progress <==> acc != acc0)
    && Pass(acc, aside, queue) == Pass(acc0, [], queue0)
    && (!progress ==> forall ev | ev in aside :: ev.id !in acc0 && !ParentsKnown(acc0, ev.id))
  }

  lemma PassBegins(acc: set<EventId>, queue: seq<SignedEvent>)
    requires DistinctIds(queue)
    ensures Passing(acc, queue, acc, [], queue, false)
  {
    assert [] + queue == queue;
    assert IdsOf([]) == {};
  }

  lemma FirstDropped(acc0: set<EventId>, queue0: seq<SignedEvent>,
                     acc: set<EventId>, aside: seq<SignedEvent>, queue: seq<SignedEvent>, progress: bool)
    requires Passing(acc0, queue0, acc, aside, queue, progress) && queue != [] && queue[0].id in acc
    ensures Passing(acc0, queue0, acc, aside, queue[1..], progress)
  {
    hide Pass, Closure, ParentsKnown, SameRoomParents, DistinctIds, IdsOf;
    TakeFirst(aside, queue);
    PassStep(acc, aside, queue);
  }

  lemma FirstAside(acc0: set<EventId>, queue0: seq<SignedEvent>,
                   acc: set<EventId>, aside: seq<SignedEvent>, queue: seq<SignedEvent>, progress: bool)
    requires Passing(acc0, queue0, acc, aside, queue, progress) && queue != [] && Verified(queue[0])
    requires queue[0].id !in acc && !ParentsKnown(acc, queue[0].id)
    ensures Passing(acc0, queue0, acc, aside + [queue[0]], queue[1..], progress)
  {
    hide Pass, Closure, ParentsKnown, SameRoomParents, DistinctIds, IdsOf;
    TakeFirst(aside, queue);
    PassStep(acc, aside, queue);
  }

  lemma FirstTaken(acc0: set<EventId>, queue0: seq<SignedEvent>,
                   acc: set<EventId>, aside: seq<SignedEvent>, queue: seq<SignedEvent>, progress: bool)
    requires Passing(acc0, queue0, acc, aside, queue, progress) && queue != []
    requires queue[0].id !in acc && Ready(acc, queue[0].id)
    ensures Passing(acc0, queue0, acc + {queue[0].id}, aside, queue[1..], true)
  {
    TakeFirst(aside, queue);
    PassStep(acc, aside, queue);
    ReadyMeans(acc, queue[0].id);
    var c := Closure(acc0, IdsOf(queue0));
    ReadyMonotone(acc, c, queue[0].id);
    assert queue[0].id in c;
    hide Pass, Closure, ParentsKnown, SameRoomParents, DistinctIds, IdsOf, Ready;
  }

  lemma FirstRefused(acc0: set<EventId>, queue0: seq<SignedEvent>,
                     acc: set<EventId>, aside: seq<SignedEvent>, queue: seq<SignedEvent>, progress: bool)
    requires Passing(acc0, queue0, acc, aside, queue, progress) && queue != []
    requires queue[0].id !in acc && ParentsKnown(acc, queue[0].id) && !SameRoomParents(queue[0].id)
    ensures Pass(acc0, [], queue0) == Outcome(acc, queue[1..], true)
    ensures acc0 <= acc <= Closure(acc0, IdsOf(queue0)) && Blocked(acc, IdsOf(queue0))
    ensures IdsOf(queue[1..]) <= IdsOf(queue0) && !(IdsOf(queue0) <= IdsOf(queue[1..]) + acc)
  {
    hide Pass, Closure, ParentsKnown, SameRoomParents, DistinctIds, IdsOf;
    TakeFirst(aside, queue);
    PassStep(acc, aside, queue);
    assert queue[0].id in IdsOf(queue0);
  }

  lemma PassEnds(acc0: set<EventId>, queue0: seq<SignedEvent>,
                 acc: set<EventId>, aside: seq<SignedEvent>, progress: bool)
    requires Passing(acc0, queue0, acc, aside, [], progress)
    ensures AllVerified(aside) && DistinctIds(aside)
    ensures Pass(acc0, [], queue0) == Outcome(acc, aside, false) && (progress <==> acc != acc0)
    ensures Draining(acc0, IdsOf(queue0), acc, IdsOf(aside))
    ensures acc0 <= acc <= Closure(acc0, IdsOf(queue0)) && IdsOf(aside) <= IdsOf(queue0)
    ensures |aside| <= |queue0| - (if progress then 1 else 0)
    ensures !progress ==> Stuck(acc, IdsOf(aside))
  {
    hide Pass, Closure, ParentsKnown;
    PassDone(acc, aside);
    assert aside + [] == aside;
    assert IdsOf([]) == {};
  }

  /** What a failing pass loses: the refused event, and every event before it that it has not accepted. */
  lemma {:induction false} PassLoses(
    acc: set<EventId>, aside: seq<SignedEvent>, queue: seq<SignedEvent>) returns (k: nat)
    requires Pass(acc, aside, queue).failed
    ensures var o := Pass(acc, aside, queue);
            && k < |queue| && o.inbox == queue[k + 1..]
            && queue[k].id !in o.accepted && ParentsKnown(o.accepted, queue[k].id) && !SameRoomParents(queue[k].id)
    decreases |queue|
  {
    var ev, others := queue[0], queue[1..];
    PassStep(acc, aside, queue);
    if ev.id in acc {
      k := PassLoses(acc, aside, others);
      k := k + 1;
    } else if !ParentsKnown(acc, ev.id) {
      k := PassLoses(acc, aside + [ev], others);
      k := k + 1;
    } else if !SameRoomParents(ev.id) {
      k := 0;
    } else {
      k := PassLoses(acc + {ev.id}, aside, others);
      k := k + 1;
    }
  }

  /**
   A drain that fails and loses an unrelated event. `reply` names a parent of another room, which has just been
   accepted, and `waiting` is parked ahead of it for a parent that may still come.
   */
  lemma UnrelatedIsLost() returns (parent: SignedEvent, reply: SignedEvent, waiting: SignedEvent)
    ensures Verified(parent) && Verified(reply) && Verified(waiting)
    ensures RoomOf(parent.id) != RoomOf(reply.id) && parent.id in ParentsOf(reply.id)
    ensures parent.id !in ParentsOf(waiting.id) && SameRoomParents(waiting.id)
    ensures Stuck({}, {waiting.id, reply.id}) && Blocked({parent.id}, {waiting.id, reply.id})
    ensures Drain({parent.id}, [waiting, reply]) == Outcome({parent.id}, [], true)
  {
    var first := UnsignedEvent(1, [], Message, RawPayload([]), 1, 1);
    var other := UnsignedEvent(0, [], Message, RawPayload([]), 1, 2);
    var second := UnsignedEvent(0, [Digest(first, Authentic)], Message, RawPayload([]), 1, 3);
    var third := UnsignedEvent(0, [Digest(other, Authentic)], Message, RawPayload([]), 1, 4);
    parent, reply := EventOf(Digest(first, Authentic)), EventOf(Digest(second, Authentic));
    waiting := EventOf(Digest(third, Authentic));
    var acc := {parent.id};
    assert Digest(other, Authentic) in ParentsOf(waiting.id) && Digest(first, Authentic) in ParentsOf(reply.id);
    assert !ParentsKnown(acc, waiting.id) && ParentsKnown(acc, reply.id) && !SameRoomParents(reply.id);
    assert waiting.id !in acc && reply.id !in acc;
    hide ParentsKnown, SameRoomParents, Pass, Drain;
    PassStep(acc, [], [waiting, reply]);
    assert [waiting, reply][1..] == [reply];
    PassStep(acc, [] + [waiting], [reply]);
    assert [reply][1..] == [];
    DrainStep(acc, [waiting, reply]);
  }

  class DeviceNode {
    const deviceId: DeviceId
    var events: map<EventId, SignedEvent>
    var dags: map<RoomId, RoomDag>
    var outbox: seq<SignedEvent>
    var inbox: seq<SignedEvent>
    const durable: EventStore?
    /** What the log held when it was opened. */
    ghost const logBase: set<EventId>
    ghost var Repr: set<object>

    ghost predicate DagMatches(room: RoomId)
      requires room in dags
      reads this`events, this`dags, dags[room]
    {
      && dags[room].Valid()
      && dags[room].roomId == Some(room)
      && dags[room].events.Keys == InRoom(events.Keys, room)
    }

    /** The event map and the room DAGs hold the same verified events. */
    ghost predicate Consistent()
      reads this`events, this`dags, dags.Values
    {
      && (forall id | id in events :: Verified(events[id]) && events[id].id == id)
      && (forall room | room in dags :: DagMatches(room))
      && (forall id | id in events :: RoomOf(id) in dags)
    }

    ghost predicate Valid()
      reads this`events, this`dags, this`inbox, this`Repr, Repr - {this}
      ensures Valid() ==> this in Repr
    {
      && this in Repr && dags.Values <= Repr && (durable != null ==> durable in Repr)
      && Consistent()
      && AllVerified(inbox) && DistinctIds(inbox)
      && (durable != null ==> durable.Valid() && durable.rows.Keys == logBase + events.Keys)
    }

    ghost function Accepted(): set<EventId>
      reads this`events
    {
      events.Keys
    }

    ghost function Parked(): set<EventId>
      reads this`inbox
    {
      IdsOf(inbox)
    }

    ghost function Seen(): View
      reads this`events, this`inbox
    {
      View(Accepted(), Parked())
    }

    /** Nothing in the inbox is accepted already or has all its parents. */
    ghost predicate Settled()
      reads this`events, this`inbox
    {
      Stuck(Accepted(), Parked())
    }

    constructor (deviceId: DeviceId, durable: EventStore?)
      requires durable != null ==> durable.Valid()
      ensures Valid() && Settled() && Repr == {this} + (if durable == null then {} else {durable})
      ensures events == map[] && dags == map[] && outbox == [] && inbox == []
      ensures this.deviceId == deviceId && this.durable == durable && Accepted() == {} && Parked() == {}
      ensures durable != null ==> logBase == durable.rows.Keys
    {
      this.deviceId, this.durable := deviceId, durable;
      logBase := if durable == null then {} else durable.rows.Keys;
      if durable == null {
        Repr := {this};
      } else {
        var log: EventStore := durable;
        Repr := {this, log};
      }
      events, dags := map[], map[];
      outbox, inbox := [], [];
    }

    /** The room's tips, none for an unknown room. */
    method Tips(room: RoomId) returns (tips: seq<EventId>)
      requires Valid()
      ensures NoDuplicates(tips) && Elements(tips) == TipsOf(InRoom(Accepted(), room))
    {
      if room in dags {
        assert DagMatches(room);
        tips := dags[room].Tips();
      } else {
        assert InRoom(Accepted(), room) == {};
        tips := [];
      }
    }

    /** The DAGs together hold exactly the accepted events, so those are closed under taking parents. */
    lemma IsParentClosed()
      requires Consistent()
      ensures ParentClosed(Accepted())
    {
      forall id | id in events ensures Ready(Accepted(), id) {
        var room := RoomOf(id);
        assert DagMatches(room) && id in InRoom(Accepted(), room);
        dags[room].IsParentClosed();
      }
    }

    lemma ValidIsParentClosed()
      requires Valid()
      ensures ParentClosed(Accepted())
    {
      IsParentClosed();
    }

    /** The accepted events can be rebuilt from nothing: each room's insertion order shows how. */
    lemma IsFounded()
      requires Consistent()
      ensures Founded(Accepted())
    {
      var acc := Accepted();
      forall id | id in acc ensures id in Closure({}, acc) {
        RoomIsFounded(RoomOf(id), id);
      }
    }

    lemma ValidIsFounded()
      requires Valid()
      ensures Founded(Accepted())
    {
      IsFounded();
    }

    lemma RoomIsFounded(room: RoomId, id: EventId)
      requires Consistent() && room in dags && id in InRoom(Accepted(), room)
      ensures id in Closure({}, Accepted())
    {
      assert DagMatches(room);
      var log := dags[room].log;
      assert Elements(log) == InRoom(Accepted(), room);
      dags[room].IsParentClosed();
      var i := IndexIn(log, id);
      LogInClosure(log, Accepted(), |log|);
    }

    /** The room's DAG, created empty on first use. */
    method OpenDag(room: RoomId) returns (dag: RoomDag)
      requires Consistent() && dags.Values <= Repr
      modifies this`dags, this`Repr
      ensures Consistent() && dags.Values <= Repr && Repr == old(Repr) + {dag} && fresh(Repr - old(Repr))
      ensures dags == old(dags)[room := dag] && (dag in old(dags.Values) || fresh(dag))
    {
      if room !in dags {
        dag := new RoomDag(room);
        dags, Repr := dags[room := dag], Repr + {dag};
        assert InRoom(Accepted(), room) == {};
        forall q | q in dags ensures DagMatches(q) {
          assert q != room ==> q in old(dags) && old(DagMatches(q));
        }
      } else {
        dag := dags[room];
      }
    }

    /**
     Insert an event whose parents are all known into its room's DAG and the event map. It fails exactly
     when a parent lives in another room, and then accepts nothing.
     */
    method Insert(ev: SignedEvent) returns (r: Result<bool, SyncError>)
      requires Consistent() && dags.Values <= Repr
      requires Verified(ev) && ev.id !in events && ParentsKnown(Accepted(), ev.id)
      modifies this`events, this`dags, this`Repr, dags.Values
      ensures Consistent() && dags.Values <= Repr && old(Repr) <= Repr && fresh(Repr - old(Repr))
      ensures r.Ok? <==> SameRoomParents(ev.id)
      ensures r.Ok? ==> r.value && events == old(events)[ev.id := ev]
      ensures r.Err? ==> events == old(events) && IsMissingParent(r.error)
    {
      var dag := OpenDag(ev.body.roomId);
      r := InsertInto(dag, ev);
    }

    method InsertInto(dag: RoomDag, ev: SignedEvent) returns (r: Result<bool, SyncError>)
      requires Consistent() && Verified(ev) && ev.id !in events && ParentsKnown(Accepted(), ev.id)
      requires ev.body.roomId in dags && dags[ev.body.roomId] == dag
      modifies this`events, dag
      ensures Consistent()
      ensures r.Ok? <==> SameRoomParents(ev.id)
      ensures r.Ok? ==> r.value && events == old(events)[ev.id := ev]
      ensures r.Err? ==> events == old(events) && IsMissingParent(r.error)
    {
      hide *;
      RoomDecides(ev);
      var ingested := dag.Ingest(ev);
      if ingested.Ok? {
        events := events[ev.id := ev];
        r := Ok(true);
      } else {
        RoomRefuses(ingested.error);
        r := Err(DagFailed(ingested.error));
      }
      StillConsistent(ev);
    }

    lemma RoomDecides(ev: SignedEvent)
      requires Consistent() && Verified(ev) && ParentsKnown(Accepted(), ev.id) && ev.body.roomId in dags
      ensures var dag := dags[ev.body.roomId];
              && dag.Valid() && dag.roomId == Some(ev.body.roomId)
              && (ev.id in dag.events <==> ev.id in events)
              && (SameRoomParents(ev.id) <==> ParentsKnown(dag.events.Keys, ev.id))
              && (SameRoomParents(ev.id) <==> forall p | p in ParentsOf(ev.id) :: p in dag.events)
    {
      assert DagMatches(ev.body.roomId);
    }

    /** `Insert`, and the durable log follows. */
    method Accept(ev: SignedEvent) returns (r: Result<bool, SyncError>)
      requires Valid() && Verified(ev) && ev.id !in events && ParentsKnown(Accepted(), ev.id)
      modifies this`events, this`dags, this`Repr, Repr - {this}
      ensures Valid() && fresh(Repr - old(Repr))
      ensures r.Ok? <==> SameRoomParents(ev.id)
      ensures r.Ok? ==> r.value && events == old(events)[ev.id := ev]
      ensures r.Err? ==> events == old(events) && IsMissingParent(r.error)
    {
      hide RoomDag.Valid, DagMatches, Consistent;
      r := Insert(ev);
      if r.Ok? {
        Persist(ev);
      }
    }

    method Persist(ev: SignedEvent)
      requires Consistent() && Verified(ev) && (durable != null ==> durable.Valid())
      modifies durable
      ensures Consistent()
      ensures durable != null ==> durable.Valid() && durable.rows.Keys == old(durable.rows.Keys) + {ev.id}
    {
      if durable != null {
        var stored := durable.Put(ev);
      }
    }

    /** The head of the inbox: dropped if accepted already, handed back if not ready, accepted otherwise. */
    method DrainFirst() returns (taken: bool, r: Result<Option<SignedEvent>, SyncError>)
      requires Valid() && inbox != []
      modifies this`events, this`dags, this`inbox, this`Repr, Repr - {this}
      ensures Valid() && fresh(Repr - old(Repr))
      ensures inbox == old(inbox)[1..]
      ensures var ev := old(inbox[0]);
              && events == (if taken then old(events)[ev.id := ev] else old(events))
              && taken == (ev.id !in old(events) && Ready(old(Accepted()), ev.id))
              && match r
                 case Ok(None) => taken || ev.id in events
                 case Ok(Some(back)) => back == ev && ev.id !in events && !ParentsKnown(Accepted(), ev.id)
                 case Err(e) =>
                   IsMissingParent(e) && ev.id !in events && ParentsKnown(Accepted(), ev.id) && !SameRoomParents(ev.id)
    {
      hide RoomDag.Valid, DagMatches, Consistent;
      TakeFirst([], inbox);
      assert [] + inbox == inbox;
      var ev := inbox[0];
      inbox := inbox[1..];
      if ev.id in events {
        return false, Ok(None);
      }
      if exists p | p in ev.body.parents :: p !in events {
        return false, Ok(Some(ev));
      }
      var accepted := Accept(ev);
      if accepted.Err? {
        return false, Err(accepted.error);
      }
      return true, Ok(None);
    }

    /**
     One pass over the inbox: what is accepted already is dropped, what has all its parents is accepted,
     the rest is put back. An error loses what was set aside so far.
     */
    method DrainPass() returns (progress: bool, r: Result<(), SyncError>)
      requires Valid()
      modifies this`events, this`dags, this`inbox, this`Repr, Repr - {this}
      ensures Valid() && fresh(Repr - old(Repr))
      ensures old(Accepted()) <= Accepted() <= Closure(old(Accepted()), old(Parked()))
      ensures Parked() <= old(Parked())
      ensures r.Ok? ==> Draining(old(Accepted()), old(Parked()), Accepted(), Parked())
      ensures r.Ok? && progress ==> |inbox| < old(|inbox|)
      ensures r.Ok? && !progress ==> Settled() && Accepted() == old(Accepted()) && |inbox| <= old(|inbox|)
      ensures r.Err? ==> Blocked(Accepted(), old(Parked())) && !(old(Parked()) <= Parked() + Accepted())
      ensures Outcome(Accepted(), inbox, r.Err?) == Pass(old(Accepted()), [], old(inbox))
      ensures r.Ok? ==> (progress <==> Accepted() != old(Accepted()))
      ensures r.Err? ==> IsMissingParent(r.error)
    {
      hide RoomDag.Valid, DagMatches, Consistent, Passing, Pass, Closure, Blocked, Draining, Ready, SameRoomParents;
      hide IdsOf, DistinctIds;
      ghost var acc, queue := Accepted(), inbox;
      progress := false;
      var rest := [];
      ValidInbox();
      PassBegins(acc, queue);
      while inbox != []
        invariant Valid() && fresh(Repr - old(Repr))
        invariant Passing(acc, queue, Accepted(), rest, inbox, progress)
        decreases |inbox|
      {
        ghost var mid, left := Accepted(), inbox;
        ValidInbox();
        ReadyMeans(mid, left[0].id);
        var taken, step := DrainFirst();
        assert Accepted() == if taken then mid + {left[0].id} else mid;
        match step {
          case Err(e) =>
            FirstRefused(acc, queue, mid, rest, left, progress);
            return progress, Err(e);
          case Ok(Some(ev)) =>
            FirstAside(acc, queue, mid, rest, left, progress);
            rest := rest + [ev];
          case Ok(None) =>
            if taken {
              FirstTaken(acc, queue, mid, rest, left, progress);
            } else {
              FirstDropped(acc, queue, mid, rest, left, progress);
            }
        }
        progress := progress || taken;
      }
      PassEnds(acc, queue, Accepted(), rest, progress);
      inbox := rest;
      return progress, Ok(());
    }

    lemma ValidInbox()
      requires Valid()
      ensures AllVerified(inbox) && DistinctIds(inbox)
    {
    }

    /**
     Passes until one makes no progress. It succeeds exactly when no parked event that gets all its parents
     is refused by its room; then the inbox keeps exactly what is still not ready. A failure always loses
     parked events, the refused one at least.
     */
    method DrainInbox() returns (r: Result<(), SyncError>)
      requires Valid()
      modifies this`events, this`dags, this`inbox, this`Repr, Repr - {this}
      ensures Valid() && fresh(Repr - old(Repr))
      ensures Drained(old(Accepted()), old(Parked()), Accepted(), Parked(), r.Err?)
      ensures r.Ok? <==> old(Parked()) <= Parked() + Accepted()
      ensures r.Ok? ==> Settled()
      ensures Outcome(Accepted(), inbox, r.Err?) == Drain(old(Accepted()), old(inbox))
      ensures r.Err? ==> IsMissingParent(r.error)
    {
      hide *;
      ValidIsParentClosed();
      ghost var acc, pool, queue := Accepted(), Parked(), inbox;
      NothingDrainedYet(acc, pool);
      var progress := true;
      while progress
        invariant Valid() && fresh(Repr - old(Repr))
        invariant Draining(acc, pool, Accepted(), Parked())
        invariant !progress ==> Settled()
        invariant if progress then Drain(Accepted(), inbox) == Drain(acc, queue)
                  else Outcome(Accepted(), inbox, false) == Drain(acc, queue)
        decreases if progress then |inbox| + 1 else 0
      {
        ghost var mid, left := Accepted(), Parked();
        DrainingPool(acc, pool, mid, left);
        DrainStep(mid, inbox);
        var pass;
        progress, pass := DrainPass();
        if pass.Err? {
          DrainingFails(acc, pool, mid, left, Accepted(), Parked());
          LostForGood(pool, left, Accepted(), Parked());
          return Err(pass.error);
        }
        DrainingComposes(acc, pool, mid, left, Accepted(), Parked());
      }
      SettledMeans();
      DrainingPool(acc, pool, Accepted(), Parked());
      DrainingStuck(acc, pool, Accepted(), Parked());
      return Ok(());
    }

    lemma SettledMeans()
      ensures Settled() <==> Stuck(Accepted(), Parked())
    {
    }

    /** What handing over one verified event does. */
    twostate predicate Ingested(ev: SignedEvent, toOutbox: bool, new r: Result<bool, SyncError>)
      reads this`events, this`inbox, this`outbox
    {
      && (r == Ok(true) ==> ev.id !in old(Accepted()) && ev.id in Accepted())
      && (r == Ok(false) ==> Accepted() == old(Accepted()))
      && (ev.id in old(Accepted()) ==> r == Ok(false) && Parked() == old(Parked()))
      && (ev.id !in old(Accepted()) && !ParentsKnown(old(Accepted()), ev.id) ==>
            r == Ok(false) && Parked() == old(Parked()) + {ev.id})
      && (r.Ok? && (old(Settled()) || r.value) ==> Settled())
      && (old(Settled()) || ev.id in Accepted() - old(Accepted()) ==>
            Drained(old(Accepted()), old(Parked()) + {ev.id}, Accepted(), Parked(), r.Err?))
      && (ev.id !in old(Accepted()) && ParentsKnown(old(Accepted()), ev.id) && !SameRoomParents(ev.id) ==>
            r.Err? && Accepted() == old(Accepted()) && Parked() == old(Parked()))
      && (r.Err? ==> IsMissingParent(r.error) && ev.id !in old(Accepted()) && ParentsKnown(old(Accepted()), ev.id))
      && old(Accepted()) <= Accepted()
      && (Ready(old(Accepted()), ev.id) ==> ev.id in Accepted())
      && outbox == old(outbox) + (
           if toOutbox && ev.id !in old(Accepted()) && Ready(old(Accepted()), ev.id) then [ev] else [])
    }

    /** What a commit of one's own event means, whatever else it releases. */
    twostate lemma LocalCommit(ev: SignedEvent, new r: Result<bool, SyncError>)
      requires Ingested(ev, true, r) && Ready(old(Accepted()), ev.id)
      ensures old(Accepted()) + {ev.id} <= Accepted()
      ensures ev.id !in old(Accepted()) ==> outbox == old(outbox) + [ev]
      ensures r.Ok? && old(Settled()) ==> Settled()
      ensures r.Err? && old(Settled()) ==> Refuses(old(Seen()), {ev.id})
    {
    }

    /** Nothing a peer or a caller can see has changed. */
    twostate predicate Untouched()
      reads this`events, this`inbox, this`outbox
    {
      events == old(events) && inbox == old(inbox) && outbox == old(outbox)
    }

    /**
     Take in one verified event. A known event changes nothing; one with an unknown parent is parked once;
     one that its room refuses changes nothing; any other is accepted and everything it was holding up after it.
     */
    method IngestEvent(ev: SignedEvent, toOutbox: bool) returns (r: Result<bool, SyncError>)
      requires Valid() && Verified(ev)
      modifies this`events, this`dags, this`inbox, this`outbox, this`Repr, Repr - {this}
      ensures Valid() && fresh(Repr - old(Repr))
      ensures Ingested(ev, toOutbox, r)
    {
      hide Closure, Drained, Stuck, Blocked, ParentsKnown, SameRoomParents, Ready, Parked, Valid;
      hide Consistent, DagMatches, RoomDag.Valid, Settled;
      ghost var acc, parked := Accepted(), Parked();
      SettledMeans();
      if Settled() {
        NothingToDrain(acc, parked, ev.id);
      }
      Lookup(ev);
      if ev.id in events {
        r := Ok(false);
      } else if exists p | p in ev.body.parents :: p !in events {
        Park(ev);
        r := Ok(false);
      } else {
        r := AcceptAndDrain(ev, toOutbox);
      }
    }

    /** What the lookups in the event map mean for the sets. */
    lemma Lookup(ev: SignedEvent)
      requires Verified(ev)
      ensures ev.id in events <==> ev.id in Accepted()
      ensures ParentsKnown(Accepted(), ev.id) <==> forall p | p in ev.body.parents :: p in events
      ensures Ready(Accepted(), ev.id) <==> ParentsKnown(Accepted(), ev.id) && SameRoomParents(ev.id)
    {
    }

    /** Author a local event: it is also queued for the relay. */
    method CommitLocal(ev: SignedEvent) returns (r: Result<bool, SyncError>)
      requires Valid()
      modifies this`events, this`dags, this`inbox, this`outbox, this`Repr, Repr - {this}
      ensures Valid() && fresh(Repr - old(Repr))
      ensures if Verified(ev) then Ingested(ev, true, r)
              else r == Err(EventFailed(VerifyEvent(ev).error)) && Untouched()
    {
      hide *;
      var checked := VerifyEvent(ev);
      if checked.Err? {
        KeptUntouched();
        return Err(EventFailed(checked.error));
      }
      r := IngestEvent(ev, true);
    }

    /** Apply an event from a peer or the relay. */
    method CommitRemote(ev: SignedEvent) returns (r: Result<bool, SyncError>)
      requires Valid()
      modifies this`events, this`dags, this`inbox, this`outbox, this`Repr, Repr - {this}
      ensures Valid() && fresh(Repr - old(Repr)) && outbox == old(outbox)
      ensures !Verified(ev) ==> r == Err(EventFailed(VerifyEvent(ev).error)) && Untouched() && Seen() == old(Seen())
      ensures Verified(ev) && r.Err? ==> IsMissingParent(r.error)
      ensures old(Accepted()) <= Accepted()
      ensures r == Ok(true) ==> ev.id !in old(Accepted()) && ev.id in Accepted()
      ensures r == Ok(false) ==> Accepted() == old(Accepted())
      ensures Verified(ev) && Ready(old(Accepted()), ev.id) ==> ev.id in Accepted()
      ensures Verified(ev) && old(Settled()) ==>
                Drained(old(Accepted()), old(Parked()) + {ev.id}, Accepted(), Parked(), r.Err?)
                && (r.Ok? ==> Settled())
    {
      hide *;
      var checked := VerifyEvent(ev);
      if checked.Err? {
        KeptUntouched();
        return Err(EventFailed(checked.error));
      }
      r := IngestEvent(ev, false);
      IngestedMeans(ev, r);
    }

    twostate lemma IngestedMeans(ev: SignedEvent, new r: Result<bool, SyncError>)
      requires Ingested(ev, false, r)
      ensures old(Accepted()) <= Accepted() && outbox == old(outbox)
      ensures r == Ok(true) ==> ev.id !in old(Accepted()) && ev.id in Accepted()
      ensures r == Ok(false) ==> Accepted() == old(Accepted())
      ensures Ready(old(Accepted()), ev.id) ==> ev.id in Accepted()
      ensures r.Err? ==> IsMissingParent(r.error)
      ensures old(Settled()) ==>
                Drained(old(Accepted()), old(Parked()) + {ev.id}, Accepted(), Parked(), r.Err?)
                && (r.Ok? ==> Settled())
    {
    }

    twostate lemma KeptUntouched()
      requires unchanged(this)
      ensures Untouched() && Accepted() == old(Accepted()) && Seen() == old(Seen())
    {
    }

    /** The event has all its parents: accept it, queue it if it is ours, then drain. */
    method AcceptAndDrain(ev: SignedEvent, toOutbox: bool) returns (r: Result<bool, SyncError>)
      requires Valid() && Verified(ev) && ev.id !in events && ParentsKnown(Accepted(), ev.id)
      modifies this`events, this`dags, this`inbox, this`outbox, this`Repr, Repr - {this}
      ensures Valid() && fresh(Repr - old(Repr))
      ensures Drained(old(Accepted()), old(Parked()) + {ev.id}, Accepted(), Parked(), r.Err?)
      ensures old(Accepted()) <= Accepted()
      ensures r.Ok? ==> r.value && Settled() && ev.id in Accepted()
      ensures SameRoomParents(ev.id) ==> ev.id in Accepted()
      ensures !SameRoomParents(ev.id) ==> r.Err? && Accepted() == old(Accepted()) && Parked() == old(Parked())
      ensures r.Err? ==> IsMissingParent(r.error)
      ensures outbox == old(outbox) + (if toOutbox && SameRoomParents(ev.id) then [ev] else [])
    {
      hide *;
      ValidIsParentClosed();
      ReadyMeans(Accepted(), ev.id);
      ghost var acc, parked := Accepted(), Parked();
      var accepted := Admit(ev, toOutbox);
      if accepted.Ok? {
        assert Accepted() == acc + {ev.id};
        var drained := DrainInbox();
        DrainedAfterAccept(acc, parked, ev.id, Accepted(), Parked(), drained.Err?);
        r := if drained.Ok? then Ok(true) else Err(drained.error);
      } else {
        assert Accepted() == acc && Parked() == parked;
        RefusedIsDrained(acc, parked, ev.id);
        r := Err(accepted.error);
      }
    }

    /** Accept, and queue for the relay if the event is local. */
    method Admit(ev: SignedEvent, toOutbox: bool) returns (r: Result<bool, SyncError>)
      requires Valid() && Verified(ev) && ev.id !in events && ParentsKnown(Accepted(), ev.id)
      modifies this`events, this`dags, this`outbox, this`Repr, Repr - {this}
      ensures Valid() && fresh(Repr - old(Repr))
      ensures r.Ok? <==> SameRoomParents(ev.id)
      ensures Accepted() == old(Accepted()) + (if r.Ok? then {ev.id} else {})
      ensures r.Err? ==> IsMissingParent(r.error)
      ensures outbox == old(outbox) + (if toOutbox && r.Ok? then [ev] else [])
    {
      hide RoomDag.Valid, DagMatches, Consistent, Valid, ParentsKnown, SameRoomParents;
      r := Accept(ev);
      if r.Ok? && toOutbox {
        outbox := outbox + [ev];
      }
    }

    /** At the back of the inbox, once. */
    method Park(ev: SignedEvent)
      requires Valid() && Verified(ev)
      modifies this`inbox
      ensures Valid() && Parked() == old(Parked()) + {ev.id}
      ensures old(Settled()) && ev.id !in Accepted() && !ParentsKnown(Accepted(), ev.id) ==> Settled()
    {
      hide RoomDag.Valid, DagMatches, Consistent;
      if forall e | e in inbox :: e.id != ev.id {
        inbox := inbox + [ev];
      }
    }

    // ----- Catch-up with a peer -----

    function RoomEventIds(room: RoomId): (ids: set<EventId>)
      reads this`events
      ensures ids == InRoom(Accepted(), room)
    {
      set id | id in events && RoomOf(id) == room
    }

    /** The room's events that the peer lacks, each once, by parent count and then timestamp. */
    method MissingForPeer(room: RoomId, peerHave: set<EventId>) returns (missing: seq<SignedEvent>)
      requires Valid()
      ensures AllVerified(missing) && IdsOf(missing) == InRoom(Accepted(), room) - peerHave
      ensures NoDuplicates(missing) && ByParentsThenTime(missing)
    {
      hide *;
      missing := CollectMissing(room, peerHave);
      RoomPartAccepted(room, peerHave);
      Collected(missing, InRoom(Accepted(), room) - peerHave);
      InListOrderProperties(missing);
      SameIds(InListOrder(missing), missing);
      missing := InListOrder(missing);
    }

    /** The filter over the event map, in whatever order the map is walked. */
    method CollectMissing(room: RoomId, peerHave: set<EventId>) returns (missing: seq<SignedEvent>)
      requires Valid()
      ensures NoDuplicates(missing)
      ensures forall ev :: ev in missing <==> Verified(ev) && ev.id in InRoom(Accepted(), room) - peerHave
    {
      hide Valid, Consistent, DagMatches, RoomDag.Valid;
      missing := [];
      var rest := events.Keys;
      while rest != {}
        invariant rest <= events.Keys && NoDuplicates(missing)
        invariant forall ev :: ev in missing <==>
                    Verified(ev) && ev.id in events && RoomOf(ev.id) == room && ev.id !in peerHave && ev.id !in rest
        decreases |rest|
      {
        var id :| id in rest;
        StoredEvent(id);
        if RoomOf(id) == room && id !in peerHave {
          missing := missing + [events[id]];
        }
        rest := rest - {id};
      }
    }

    lemma RoomPartAccepted(room: RoomId, peerHave: set<EventId>)
      ensures InRoom(Accepted(), room) - peerHave <= Accepted()
    {
    }

    lemma StoredEvent(id: EventId)
      requires Valid() && id in events
      ensures Verified(events[id]) && events[id].id == id
    {
    }

    lemma Collected(collected: seq<SignedEvent>, wanted: set<EventId>)
      requires Valid() && wanted <= Accepted()
      requires forall ev :: ev in collected <==> Verified(ev) && ev.id in wanted
      ensures IdsOf(collected) == wanted && AllVerified(collected)
    {
      forall id | id in wanted ensures id in IdsOf(collected) {
        assert events[id] in collected;
      }
    }

    /** Every event of the room, each once, by parent count and then timestamp. */
    method ListEvents(room: RoomId) returns (listed: seq<SignedEvent>)
      requires Valid()
      ensures AllVerified(listed) && IdsOf(listed) == InRoom(Accepted(), room)
      ensures NoDuplicates(listed) && ByParentsThenTime(listed)
    {
      listed := MissingForPeer(room, {});
    }

    method BuildOffer(room: RoomId) returns (offer: SyncOffer)
      requires Valid()
      ensures offer.fromDevice == deviceId && offer.room == room && offer.have == InRoom(Accepted(), room)
      ensures NoDuplicates(offer.tips) && Elements(offer.tips) == TipsOf(InRoom(Accepted(), room))
    {
      var tips := Tips(room);
      offer := SyncOffer(deviceId, room, tips, RoomEventIds(room));
    }

    method RespondToOffer(offer: SyncOffer) returns (missing: seq<SignedEvent>)
      requires Valid()
      ensures AllVerified(missing) && IdsOf(missing) == InRoom(Accepted(), offer.room) - offer.have
    {
      missing := MissingForPeer(offer.room, offer.have);
    }

    /**
     Hand over a peer's events one by one, stopping at the first error. The count is of events accepted at
     the moment they were handed over, not of parked ones they released.
     */
    method ApplySyncResponse(missing: seq<SignedEvent>) returns (r: Result<nat, SyncError>)
      requires Valid()
      modifies this`events, this`dags, this`inbox, this`outbox, this`Repr, Repr - {this}
      ensures Valid() && fresh(Repr - old(Repr))
      ensures old(Accepted()) <= Accepted() && outbox == old(outbox)
      ensures r.Ok? ==> AllVerified(missing) && r.value <= |missing|
      ensures r.Ok? ==> (r.value == 0 <==> Accepted() == old(Accepted()))
      ensures old(Settled()) && AllVerified(missing) ==>
                Drained(old(Accepted()), old(Parked()) + IdsOf(missing), Accepted(), Parked(), r.Err?)
                && (r.Ok? ==> Settled() && r.value == Taken(old(Seen()), VerifiedIds(missing)))
      ensures old(Settled()) && r.Err? ==> exists k: nat :: StopsAt(old(Seen()), missing, k, Seen())
    {
      hide *;
      ValidIsParentClosed();
      ValidIsFounded();
      SeenMeans();
      SettledMeans();
      ghost var acc, parked, seen, settled := Accepted(), Parked(), Seen(), Settled();
      var n := 0;
      VerifiedIdsAre(missing[..0]);
      if settled {
        StartSync(acc, parked, missing);
        NothingHandedOver(seen, missing);
      }
      for i := 0 to |missing|
        invariant Valid() && fresh(Repr - old(Repr))
        invariant acc <= Accepted() && outbox == old(outbox)
        invariant n <= i && (n == 0 <==> Accepted() == acc)
        invariant |VerifiedIds(missing[..i])| == i
        invariant settled ==> HandedOver(seen, missing[..i], Seen(), n, 0)
        invariant settled ==> Settled() && Drained(acc, parked + IdsOf(missing[..i]), Accepted(), Parked(), false)
      {
        ghost var mid, left, before := Accepted(), Parked(), Seen();
        SeenMeans();
        SettledMeans();
        var step := CommitRemote(missing[i]);
        SeenMeans();
        SettledMeans();
        VerifiedIdsSnoc(missing, i);
        if settled {
          HandOverOne(seen, missing[..i], missing[i], before, Seen(), n, 0, step.Err?);
          assert missing[..i + 1] == missing[..i] + [missing[i]];
          if Verified(missing[i]) {
            SyncStep(acc, parked, mid, left, missing, i, Accepted(), Parked(), step.Err?);
          }
        }
        if step.Err? {
          if AllVerified(missing) {
            ItsVerified(missing, i);
          }
          if settled {
            AllHandedOver(seen, missing[..i], before, n, 0);
            StopsMeans(seen, missing, i, before, Seen());
          }
          return Err(step.error);
        }
        if step.value {
          n := n + 1;
        }
      }
      assert missing[..|missing|] == missing;
      VerifiedIdsAre(missing);
      if settled {
        AllHandedOver(seen, missing, Seen(), n, 0);
      }
      return Ok(n);
    }

    /** In a settled node the view is quiet: the replication theorems apply to it. */
    lemma SettledIsQuiet()
      requires Valid() && Settled()
      ensures Quiet(Seen())
    {
      IsFounded();
      StuckIsQuiet(Seen());
    }

    /**
     The HTTP ingest route: hand over events one by one, counting the accepted ones and collecting errors. An
     error costs its own event alone, unless it is a room's refusal.
     */
    method SyncIngest(pushed: seq<SignedEvent>) returns (accepted: nat, errors: seq<SyncError>)
      requires Valid()
      modifies this`events, this`dags, this`inbox, this`outbox, this`Repr, Repr - {this}
      ensures Valid() && fresh(Repr - old(Repr))
      ensures old(Accepted()) <= Accepted() && outbox == old(outbox) && accepted + |errors| <= |pushed|
      ensures forall ev | ev in pushed && Verified(ev) && Ready(old(Accepted()), ev.id) :: ev.id in Accepted()
      ensures errors == [] ==> (accepted == 0 <==> Accepted() == old(Accepted()))
      ensures accepted > 0 ==> exists ev | ev in pushed :: ev.id in Accepted() && ev.id !in old(Accepted())
      ensures old(Settled()) ==>
                var ids := VerifiedIds(pushed);
                && |pushed| <= |errors| + |ids|
                && (|errors| + |ids| == |pushed| <==> !Refuses(old(Seen()), Elements(ids)))
                && (|errors| + |ids| == |pushed| ==>
                      Settled() && Seen() == Receive(old(Seen()), Elements(ids)) && accepted == Taken(old(Seen()), ids))
    {
      hide *;
      ValidIsFounded();
      SeenMeans();
      SettledMeans();
      ghost var seen, settled := Seen(), Settled();
      accepted, errors := 0, [];
      if settled {
        NothingHandedOver(seen, pushed);
      }
      for i := 0 to |pushed|
        invariant Valid() && fresh(Repr - old(Repr))
        invariant seen.accepted <= Accepted() && outbox == old(outbox) && accepted + |errors| <= i
        invariant forall ev | ev in pushed[..i] && Verified(ev) && Ready(seen.accepted, ev.id) :: ev.id in Accepted()
        invariant errors == [] ==> (accepted == 0 <==> Accepted() == seen.accepted)
        invariant accepted > 0 ==> exists ev | ev in pushed :: ev.id in Accepted() && ev.id !in seen.accepted
        invariant settled ==> HandedOver(seen, pushed[..i], Seen(), accepted, |errors|)
      {
        ghost var mid := Seen();
        SeenMeans();
        SettledMeans();
        StillReady(seen.accepted, mid.accepted, pushed[i].id);
        var step := CommitRemote(pushed[i]);
        SeenMeans();
        SettledMeans();
        if settled {
          HandOverOne(seen, pushed[..i], pushed[i], mid, Seen(), accepted, |errors|, step.Err?);
        }
        assert pushed[..i + 1] == pushed[..i] + [pushed[i]];
        match step {
          case Ok(true) =>
            assert pushed[i] in pushed && pushed[i].id in Accepted() && pushed[i].id !in seen.accepted;
            accepted := accepted + 1;
          case Ok(false) =>
          case Err(e) => errors := errors + [e];
        }
      }
      assert pushed[..|pushed|] == pushed;
      SeenMeans();
      SettledMeans();
      if settled {
        AllHandedOver(seen, pushed, Seen(), accepted, |errors|);
      }
    }

    /** Any mix of one's own and others' events, in any order: the view becomes that of receiving their set. */
    method CommitAll(given: seq<SignedEvent>, own: seq<bool>) returns (failures: nat)
      requires Valid() && |own| == |given|
      modifies this`events, this`dags, this`inbox, this`outbox, this`Repr, Repr - {this}
      ensures Valid() && fresh(Repr - old(Repr)) && old(Accepted()) <= Accepted()
      ensures old(Settled()) ==>
                var ids := VerifiedIds(given);
                && |given| <= failures + |ids|
                && (failures + |ids| == |given| <==> !Refuses(old(Seen()), Elements(ids)))
                && (failures + |ids| == |given| ==> Settled() && Seen() == Receive(old(Seen()), Elements(ids)))
    {
      hide *;
      ValidIsFounded();
      SeenMeans();
      SettledMeans();
      ghost var seen, settled, taken := Seen(), Settled(), 0;
      failures := 0;
      if settled {
        NothingHandedOver(seen, given);
      }
      for i := 0 to |given|
        invariant Valid() && fresh(Repr - old(Repr)) && seen.accepted <= Accepted()
        invariant settled ==> HandedOver(seen, given[..i], Seen(), taken, failures)
      {
        ghost var mid := Seen();
        SeenMeans();
        SettledMeans();
        var step := CommitOne(given[i], own[i]);
        SeenMeans();
        SettledMeans();
        if settled {
          HandOverOne(seen, given[..i], given[i], mid, Seen(), taken, failures, step.Err?);
        }
        assert given[..i + 1] == given[..i] + [given[i]];
        if step.Ok? && given[i].id in Accepted() && given[i].id !in mid.accepted {
          taken := taken + 1;
        }
        if step.Err? {
          failures := failures + 1;
        }
      }
      assert given[..|given|] == given;
      SeenMeans();
      SettledMeans();
      if settled {
        AllHandedOver(seen, given, Seen(), taken, failures);
      }
    }

    method CommitOne(ev: SignedEvent, own: bool) returns (r: Result<bool, SyncError>)
      requires Valid()
      modifies this`events, this`dags, this`inbox, this`outbox, this`Repr, Repr - {this}
      ensures Valid() && fresh(Repr - old(Repr)) && old(Accepted()) <= Accepted()
      ensures !Verified(ev) ==> r.Err? && Seen() == old(Seen())
      ensures Verified(ev) && old(Settled()) ==>
                Drained(old(Accepted()), old(Parked()) + {ev.id}, Accepted(), Parked(), r.Err?)
                && (r.Ok? ==> Settled())
    {
      hide *;
      if own {
        r := CommitLocal(ev);
        if Verified(ev) {
          IngestedDrains(ev, r);
        } else {
          UntouchedMeans();
        }
      } else {
        r := CommitRemote(ev);
      }
    }

    twostate lemma UntouchedMeans()
      requires Untouched()
      ensures Accepted() == old(Accepted()) && Seen() == old(Seen())
    {
    }

    twostate lemma IngestedDrains(ev: SignedEvent, new r: Result<bool, SyncError>)
      requires Ingested(ev, true, r)
      ensures old(Accepted()) <= Accepted()
      ensures old(Settled()) ==>
                Drained(old(Accepted()), old(Parked()) + {ev.id}, Accepted(), Parked(), r.Err?)
                && (r.Ok? ==> Settled())
    {
    }

    /**
     Strong eventual consistency of two nodes: whichever of the same events each has authored itself, in whatever
     order and however often it meets them, and whatever forged ones come in between, a room of both or of
     neither refuses something, and if of neither then both end in the same view.
     */
    static method SameEventsSameView(
      a: DeviceNode, b: DeviceNode,
      eventsA: seq<SignedEvent>, ownA: seq<bool>, eventsB: seq<SignedEvent>, ownB: seq<bool>)
      returns (failuresA: nat, failuresB: nat)
      requires a.Valid() && b.Valid() && a.Repr !! b.Repr
      requires a.Settled() && b.Settled() && a.Seen() == b.Seen()
      requires |ownA| == |eventsA| && |ownB| == |eventsB|
      requires Elements(VerifiedIds(eventsA)) == Elements(VerifiedIds(eventsB))
      modifies a`events, a`dags, a`inbox, a`outbox, a`Repr, a.Repr - {a}
      modifies b`events, b`dags, b`inbox, b`outbox, b`Repr, b.Repr - {b}
      ensures a.Valid() && b.Valid()
      ensures failuresA + |VerifiedIds(eventsA)| == |eventsA| <==> failuresB + |VerifiedIds(eventsB)| == |eventsB|
      ensures failuresA + |VerifiedIds(eventsA)| == |eventsA| ==>
                a.Seen() == b.Seen() == Receive(old(a.Seen()), Elements(VerifiedIds(eventsA)))
    {
      hide *;
      a.SeenMeans();
      b.SeenMeans();
      failuresA := a.CommitAll(eventsA, ownA);
      failuresB := b.CommitAll(eventsB, ownB);
      a.SeenMeans();
    }

    lemma RoomsCovered()
      requires Valid()
      ensures forall id | id in Accepted() :: RoomOf(id) in dags.Keys
    {
    }

    lemma SeenMeans()
      ensures Seen() == View(Accepted(), Parked())
    {
    }

    /** One bidirectional exchange; both offers are built before either side applies anything. */
    static method ConvergeWith(a: DeviceNode, b: DeviceNode, room: RoomId) returns (r: Result<(), SyncError>)
      requires a.Valid() && b.Valid() && a.Repr !! b.Repr
      modifies a`events, a`dags, a`inbox, a`outbox, a`Repr, a.Repr - {a}
      modifies b`events, b`dags, b`inbox, b`outbox, b`Repr, b.Repr - {b}
      ensures a.Valid() && b.Valid() && a.Repr !! b.Repr
      ensures fresh(a.Repr - old(a.Repr)) && fresh(b.Repr - old(b.Repr))
      ensures old(a.Accepted()) <= a.Accepted() && old(b.Accepted()) <= b.Accepted()
      ensures old(a.Settled() && b.Settled()) ==>
                && (r.Err? <==> || Refuses(old(a.Seen()), InRoom(old(b.Accepted()), room) - old(a.Accepted()))
                                || Refuses(old(b.Seen()), InRoom(old(a.Accepted()), room) - old(b.Accepted())))
                && (Refuses(old(a.Seen()), InRoom(old(b.Accepted()), room) - old(a.Accepted())) ==>
                      b.Seen() == old(b.Seen()))
                && (!Refuses(old(a.Seen()), InRoom(old(b.Accepted()), room) - old(a.Accepted())) ==>
                      a.Seen() == ConvergeRound(old(a.Seen()), old(b.Seen()), room).0)
                && (r.Ok? ==> a.Settled() && b.Settled()
                              && (a.Seen(), b.Seen()) == ConvergeRound(old(a.Seen()), old(b.Seen()), room))
    {
      hide *;
      var offerA := a.BuildOffer(room);
      var offerB := b.BuildOffer(room);
      var missingA := b.RespondToOffer(offerA);
      var missingB := a.RespondToOffer(offerB);
      ghost var seenA, seenB, settled := a.Seen(), b.Seen(), a.Settled() && b.Settled();
      a.SeenMeans();
      b.SeenMeans();
      SameMissing(a.Accepted(), b.Accepted(), room);
      ConvergeRoundMeans(seenA, seenB, room);
      var appliedA := a.ApplySyncResponse(missingA);
      if settled {
        DrainedIsReceive(seenA, IdsOf(missingA), a.Accepted(), a.Parked(), appliedA.Err?);
      }
      a.SeenMeans();
      if appliedA.Err? {
        return Err(appliedA.error);
      }
      var appliedB := b.ApplySyncResponse(missingB);
      if settled {
        DrainedIsReceive(seenB, IdsOf(missingB), b.Accepted(), b.Parked(), appliedB.Err?);
      }
      b.SeenMeans();
      if appliedB.Err? {
        return Err(appliedB.error);
      }
      return Ok(());
    }

    /**
     Exchanges one after the other. They fail exactly if some round meets a refusal, so never where all parked
     events have their parents in their own rooms.
     */
    static method ConvergeRepeatedly(a: DeviceNode, b: DeviceNode, room: RoomId, n: nat)
      returns (r: Result<(), SyncError>)
      requires a.Valid() && b.Valid() && a.Repr !! b.Repr && a.Settled() && b.Settled()
      modifies a`events, a`dags, a`inbox, a`outbox, a`Repr, a.Repr - {a}
      modifies b`events, b`dags, b`inbox, b`outbox, b`Repr, b.Repr - {b}
      ensures a.Valid() && b.Valid() && a.Repr !! b.Repr
      ensures r.Err? <==>
                exists k | 0 <= k < n :: RoundRefuses(ConvergeRounds(old(a.Seen()), old(b.Seen()), room, k), room)
      ensures (forall id | id in old(a.Parked()) + old(b.Parked()) :: SameRoomParents(id)) ==> r.Ok?
      ensures r.Ok? ==> (a.Seen(), b.Seen()) == ConvergeRounds(old(a.Seen()), old(b.Seen()), room, n)
      ensures r.Ok? && n > |old(a.Parked())| + |old(b.Parked())| ==>
                InRoom(a.Accepted(), room) == InRoom(b.Accepted(), room)
                && TipsOf(InRoom(a.Accepted(), room)) == TipsOf(InRoom(b.Accepted(), room))
    {
      hide *;
      ghost var seenA, seenB := a.Seen(), b.Seen();
      a.SettledIsQuiet();
      b.SettledIsQuiet();
      a.SeenMeans();
      b.SeenMeans();
      RoundsUnfold(seenA, seenB, room, 0);
      for k := 0 to n
        invariant a.Valid() && b.Valid() && a.Repr !! b.Repr && a.Settled() && b.Settled()
        invariant fresh(a.Repr - old(a.Repr)) && fresh(b.Repr - old(b.Repr))
        invariant (a.Seen(), b.Seen()) == ConvergeRounds(seenA, seenB, room, k)
        invariant forall j | 0 <= j < k :: !RoundRefuses(ConvergeRounds(seenA, seenB, room, j), room)
      {
        RoundsUnfold(seenA, seenB, room, k + 1);
        a.SeenMeans();
        b.SeenMeans();
        RefusalMeans(a.Seen(), b.Seen(), room);
        r := ConvergeWith(a, b, room);
        if r.Err? {
          if forall id | id in seenA.parked + seenB.parked :: SameRoomParents(id) {
            NoRoundRefuses(seenA, seenB, room, k);
            assert false;
          }
          return;
        }
      }
      if n > |seenA.parked| + |seenB.parked| {
        BoundedConvergence(seenA, seenB, room, n);
      }
      a.SeenMeans();
      b.SeenMeans();
      return Ok(());
    }

    /**
     Reopen a durable log: replay all rows into a fresh node without queueing anything. It fails exactly when
     the log holds an event that its room refuses.
     */
    static method WithSqlite(deviceId: DeviceId, store: EventStore) returns (r: Result<DeviceNode, SyncError>)
      requires store.Valid()
      modifies store
      ensures store.Valid() && store.rows.Keys == old(store.rows.Keys)
      ensures r.Err? <==> Refuses(EMPTY, old(store.rows.Keys))
      ensures r.Ok? ==> var node := r.value;
                        && node.Valid() && node.Settled() && fresh(node.Repr - {store}) && node.deviceId == deviceId
                        && node.durable == store && node.outbox == [] && node.logBase == old(store.rows.Keys)
                        && node.Seen() == Receive(EMPTY, old(store.rows.Keys))
    {
      hide *;
      var node := new DeviceNode(deviceId, store);
      var events := store.ListAll();
      RowIds(store, events);
      var replayed := node.ApplySyncResponse(events);
      ReplayIsReceive(IdsOf(events), node.Accepted(), node.Parked(), replayed.Err?);
      node.LogUnchanged();
      node.SeenMeans();
      r := if replayed.Ok? then Ok(node) else Err(replayed.error);
    }

    lemma LogUnchanged()
      requires Valid() && durable != null && Accepted() <= logBase
      ensures durable.Valid() && durable.rows.Keys == logBase
    {
    }

    /**
     Restart transparency: the log of a node that started from an empty log or a log it replayed in full holds
     exactly its accepted events, and reopening that log accepts the same events, parks none and so has the
     same tips.
     */
    lemma RestartIsTransparent()
      requires Valid() && durable != null && logBase <= Accepted()
      ensures durable.rows.Keys == Accepted()
      ensures !Refuses(EMPTY, durable.rows.Keys)
      ensures Receive(EMPTY, durable.rows.Keys) == View(Accepted(), {})
    {
      IsFounded();
      IsParentClosed();
      var acc := Accepted();
      assert EMPTY.parked + acc == acc;
    }

    /** Inserting one event into its room's DAG and the event map leaves every other room as it was. */
    twostate lemma StillConsistent(ev: SignedEvent)
      requires old(Consistent()) && dags == old(dags) && ev.body.roomId in dags && Verified(ev)
      requires var dag := dags[ev.body.roomId];
               && dag.Valid() && dag.roomId == Some(ev.body.roomId)
               && (forall q | q in dags && dags[q] != dag :: unchanged(dags[q]))
               && (|| (dag.events == old(dag.events) && events == old(events))
                   || (dag.events == old(dag.events)[ev.id := ev] && events == old(events)[ev.id := ev]))
      ensures Consistent()
    {
      hide RoomDag.Valid, InRoom, Verified;
      var room := ev.body.roomId;
      assert old(DagMatches(room));
      assert Accepted() == old(Accepted()) || Accepted() == old(Accepted()) + {ev.id};
      forall q | q in dags ensures DagMatches(q) {
        assert old(DagMatches(q));
        InRoomOfOneMore(old(Accepted()), ev, q);
      }
      VerifiedRoom(ev);
    }
  }
}
