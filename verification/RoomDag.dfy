/** The per-room causal DAG and its child index (crates/td-event/src/dag.rs). */
module RoomDags {
  import opened Wrappers
  import opened Sequences
  import opened Events
  import opened Causality

  datatype DagError =
    | BadEvent(error: EventError)
    | RoomMismatch
    | MissingParent(parent: EventId)

  class RoomDag {
    var roomId: Option<RoomId>
    var events: map<EventId, SignedEvent>
    var children: map<EventId, seq<EventId>>
    /** The order of insertion. */
    ghost var log: seq<EventId>

    ghost predicate Valid()
      reads this
    {
      && (forall id | id in events :: Verified(events[id]) && events[id].id == id && roomId == Some(RoomOf(id)))
      && CausalLog(log)
      && Elements(log) == events.Keys
      && (forall p | p in children :: p in events)
      && Indexed(children, events.Keys)
    }

    /** What the child index lists under `p`. */
    function Kids(p: EventId): seq<EventId>
      reads this
    {
      Under(children, p)
    }

    constructor (room: RoomId)
      ensures Valid() && roomId == Some(room) && events == map[]
    {
      roomId := Some(room);
      events, children, log := map[], map[], [];
    }

    /** The tips in some order, each once. */
    method Tips() returns (tips: seq<EventId>)
      requires Valid()
      ensures NoDuplicates(tips) && Elements(tips) == TipsOf(events.Keys)
    {
      ghost var wanted := TipsOf(events.Keys);
      tips := [];
      var rest := events.Keys;
      while rest != {}
        invariant rest <= events.Keys && NoDuplicates(tips)
        invariant forall id :: id in tips <==> id in wanted && id !in rest
        decreases |rest|
      {
        var id :| id in rest;
        KidsDecideTip(id);
        if Kids(id) == [] {
          tips := tips + [id];
        }
        rest := rest - {id};
      }
    }

    lemma IsParentClosed()
      requires Valid()
      ensures ParentClosed(events.Keys)
    {
      LogPositions(log);
      forall id, p | id in events && p in ParentsOf(id) ensures p in events && RoomOf(p) == RoomOf(id) {
        assert id in Elements(log);
        assert p in log[..IndexIn(log, id)];
        assert p in Elements(log);
      }
    }

    /** An event is a tip exactly when the child index lists nothing under it. */
    lemma KidsDecideTip(id: EventId)
      requires Valid() && id in events
      ensures id in TipsOf(events.Keys) <==> Kids(id) == []
    {
      if Kids(id) != [] {
        var c := Kids(id)[0];
        assert multiset(Kids(id))[c] == Named(events.Keys, c, id);
        assert c in multiset(Kids(id));
        assert id in multiset(ParentsOf(c));
      } else {
        forall c | c in events.Keys ensures id !in ParentsOf(c) {
          assert multiset(Kids(id))[c] == Named(events.Keys, c, id);
        }
      }
    }

    /**
     An invalid event, a foreign room and a missing parent are errors and change nothing; a duplicate is
     reported and changes nothing; anything else is inserted and replaces its parents among the tips.
     */
    method Ingest(ev: SignedEvent) returns (r: Result<bool, DagError>)
      requires Valid()
      modifies this
      ensures Valid()
      ensures match r
              case Err(BadEvent(e)) => VerifyEvent(ev) == Err(e)
              case Err(RoomMismatch) => Verified(ev) && old(roomId).Some? && old(roomId).value != ev.body.roomId
              case Err(MissingParent(p)) =>
                && Verified(ev) && RoomFits(old(roomId), ev)
                && ev.id !in old(events) && p in ParentsOf(ev.id) && p !in old(events)
              case Ok(inserted) =>
                && Verified(ev) && RoomFits(old(roomId), ev)
                && inserted == (ev.id !in old(events))
                && (inserted ==> ParentsKnown(old(events.Keys), ev.id))
      ensures events == if r == Ok(true) then old(events)[ev.id := ev] else old(events)
      ensures roomId == if r.Ok? || r.error.MissingParent? then Some(ev.body.roomId) else old(roomId)
      ensures r == Ok(true) ==> log == old(log) + [ev.id]
      ensures r == Ok(true) ==>
                TipsOf(events.Keys) == TipsOf(old(events.Keys)) - Elements(ev.body.parents) + {ev.id}
    {
      var checked := VerifyEvent(ev);
      if checked.Err? {
        return Err(BadEvent(checked.error));
      }
      match roomId {
        case Some(rid) =>
          if ev.body.roomId != rid {
            return Err(RoomMismatch);
          }
        case None =>
          NoRoomNoEvents();
          roomId := Some(ev.body.roomId);
      }
      if ev.id in events {
        return Ok(false);
      }
      var parents := ev.body.parents;
      for i := 0 to |parents|
        invariant forall p | p in parents[..i] :: p in events
      {
        assert parents[..i + 1] == parents[..i] + [parents[i]];
        if parents[i] !in events {
          return Err(MissingParent(parents[i]));
        }
      }
      Append(ev);
      return Ok(true);
    }

    lemma NoRoomNoEvents()
      requires Valid()
      ensures roomId == None ==> events == map[]
    {
      assert roomId == None ==> forall id :: id !in events;
    }

    /** The insertion itself: index under the parents, then into the event map. */
    method Append(ev: SignedEvent)
      requires Valid() && Verified(ev) && roomId == Some(ev.body.roomId)
      requires ev.id !in events && ParentsKnown(events.Keys, ev.id)
      modifies this`children, this`events, this`log
      ensures Valid()
      ensures events == old(events)[ev.id := ev] && log == old(log) + [ev.id]
      ensures TipsOf(events.Keys) == TipsOf(old(events.Keys)) - Elements(ev.body.parents) + {ev.id}
    {
      AcceptKeepsOrder(ev.id);
      IndexUnderParents(ev.id, ev.body.parents);
      events := events[ev.id := ev];
      log := log + [ev.id];
    }

    /** Lists `id` once more under each entry of `parents`. */
    method IndexUnderParents(id: EventId, parents: seq<EventId>)
      requires Indexed(children, events.Keys) && id !in events && id.Digest? && parents == ParentsOf(id)
      requires forall p | p in children || p in parents :: p in events
      modifies this`children
      ensures Indexed(children, events.Keys + {id})
      ensures forall p | p in children :: p in events
    {
      for i := 0 to |parents|
        invariant forall p | p in children :: p in events
        invariant PartlyIndexed(children, events.Keys, id, parents[..i])
      {
        PushIndexes(children, events.Keys, id, parents, i);
        children := children[parents[i] := Kids(parents[i]) + [id]];
      }
      assert parents[..|parents|] == parents;
      forall p, c ensures multiset(Kids(p))[c] == Named(events.Keys + {id}, c, p) {
        assert multiset(Kids(p))[c] == Named(events.Keys, c, p) + (if c == id then multiset(parents)[p] else 0);
      }
    }

    lemma AcceptKeepsOrder(id: EventId)
      requires Valid() && id !in events && ParentsKnown(events.Keys, id)
      ensures CausalLog(log + [id]) && Elements(log + [id]) == events.Keys + {id}
      ensures TipsOf(events.Keys + {id}) == TipsOf(events.Keys) - Elements(ParentsOf(id)) + {id}
    {
      LogSnoc(log, id);
      IsParentClosed();
      TipsAfterAccept(events.Keys, id);
    }
  }

  predicate RoomFits(room: Option<RoomId>, ev: SignedEvent) {
    room == None || room == Some(ev.body.roomId)
  }

  function Under(children: map<EventId, seq<EventId>>, p: EventId): seq<EventId> {
    if p in children then children[p] else []
  }

  /** How often `c` names `p` as a parent, for an inserted `c`. */
  ghost function Named(inserted: set<EventId>, c: EventId, p: EventId): nat {
    if c in inserted then multiset(ParentsOf(c))[p] else 0
  }

  /** The index lists `c` under `p` exactly as often as the inserted event `c` names `p`. */
  ghost predicate Indexed(children: map<EventId, seq<EventId>>, inserted: set<EventId>) {
    forall p, c :: multiset(Under(children, p))[c] == Named(inserted, c, p)
  }

  ghost predicate PartlyIndexed(
    children: map<EventId, seq<EventId>>, inserted: set<EventId>, id: EventId, done: seq<EventId>)
  {
    forall p, c :: multiset(Under(children, p))[c] ==
                   Named(inserted, c, p) + (if c == id then multiset(done)[p] else 0)
  }

  lemma PushIndexes(
    children: map<EventId, seq<EventId>>, inserted: set<EventId>, id: EventId, parents: seq<EventId>, i: nat)
    requires i < |parents| && PartlyIndexed(children, inserted, id, parents[..i])
    ensures PartlyIndexed(children[parents[i] := Under(children, parents[i]) + [id]], inserted, id, parents[..i + 1])
  {
    assert parents[..i + 1] == parents[..i] + [parents[i]];
    var after := children[parents[i] := Under(children, parents[i]) + [id]];
    forall p, c ensures multiset(Under(after, p))[c] ==
                        Named(inserted, c, p) + (if c == id then multiset(parents[..i + 1])[p] else 0) {
      assert multiset(Under(children, p))[c] ==
             Named(inserted, c, p) + (if c == id then multiset(parents[..i])[p] else 0);
    }
  }
}
