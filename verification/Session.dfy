/** Authoring, fanout and the local clock of a node session (crates/td-node/src/rpc.rs). */
module Sessions {
  import opened Wrappers
  import opened Sequences
  import opened Events
  import opened Causality
  import opened Replication
  import opened EventStores
  import opened DeviceNodes

  datatype SendError = NotAMember | CommitFailed(error: SyncError)

  /** A step in the life of a device; `saved` says whether meta.json could be written. */
  datatype LifeStep =
    | Creating(name: string, saved: bool)
    | Sending(room: RoomId, payload: Payload, saved: bool)
    | Receiving(ev: SignedEvent)
    | Restarting

  /** The steps of a life in which the device authors something. */
  function AuthoringSteps(life: seq<LifeStep>): seq<LifeStep> {
    if life == [] then [] else
    var last := life[|life| - 1];
    AuthoringSteps(life[..|life| - 1]) + if last.Creating? || last.Sending? then [last] else []
  }

  /** The event says what the step asked the device to author, in the device's own name. */
  ghost predicate Carries(id: EventId, step: LifeStep, author: DeviceId, roomIdOf: (DeviceId, string, nat) -> RoomId) {
    && id.Digest? && id.body.authorDevice == author
    && match step
       case Creating(name, _) =>
         && id.body.kind == EventKind.CreateRoom && id.body.payload == CreateRoomPayload(author, name)
         && id.body.roomId == roomIdOf(author, name, id.body.tsMs)
       case Sending(room, payload, _) =>
         id.body.kind == Message && id.body.payload == payload && id.body.roomId == room
       case _ => false
  }

  ghost predicate CarriesAll(
    ids: seq<EventId>, steps: seq<LifeStep>, author: DeviceId, roomIdOf: (DeviceId, string, nat) -> RoomId)
  {
    |ids| == |steps| && forall i | 0 <= i < |ids| :: Carries(ids[i], steps[i], author, roomIdOf)
  }

  /** Timestamps rise strictly along the list and none is above `bound`. */
  ghost predicate RisingTo(ids: seq<EventId>, bound: nat) {
    && (forall i, j | 0 <= i < j < |ids| :: TsOf(ids[i]) < TsOf(ids[j]))
    && (forall i | 0 <= i < |ids| :: TsOf(ids[i]) <= bound)
  }

  class NodeSession {
    const deviceId: DeviceId
    const node: DeviceNode
    var tsCounter: nat
    /** The counter in meta.json; a write that fails leaves the previous value. */
    var savedTs: nat
    /** Everything this device has ever authored, in order, across restarts. */
    ghost var authored: seq<EventId>

    ghost predicate Valid()
      reads this, node`events, node`dags, node`inbox, node`Repr, node.Repr - {node}
    {
      && node.Valid() && this !in node.Repr
      && RisingTo(authored, tsCounter)
      && Elements(authored) <= node.Accepted()
    }

    constructor (deviceId: DeviceId, node: DeviceNode, tsCounter: nat, savedTs: nat, ghost authored: seq<EventId>)
      requires node.Valid() && RisingTo(authored, tsCounter) && Elements(authored) <= node.Accepted()
      ensures Valid() && this.deviceId == deviceId && this.node == node && this.authored == authored
      ensures this.tsCounter == tsCounter && this.savedTs == savedTs
    {
      this.deviceId, this.node := deviceId, node;
      this.tsCounter, this.savedTs, this.authored := tsCounter, savedTs, authored;
    }

    method NextTs(saved: bool) returns (ts: nat)
      modifies this`tsCounter, this`savedTs
      ensures ts == tsCounter == old(tsCounter) + 1
      ensures savedTs == if saved then ts else old(savedTs)
    {
      tsCounter := tsCounter + 1;
      ts := tsCounter;
      if saved {
        savedTs := tsCounter;
      }
    }

    lemma ValidMeans()
      ensures Valid() <==> (
                && node.Valid() && this !in node.Repr
                && RisingTo(authored, tsCounter)
                && Elements(authored) <= node.Accepted())
    {
    }

    /** Commit a verified event whose parents are all there. */
    method CommitOwn(ev: SignedEvent) returns (r: Result<bool, SyncError>)
      requires node.Valid() && Verified(ev) && Ready(node.Accepted(), ev.id)
      modifies node`events, node`dags, node`inbox, node`outbox, node`Repr, node.Repr - {node}
      ensures node.Valid() && fresh(node.Repr - old(node.Repr))
      ensures old(node.Accepted()) + {ev.id} <= node.Accepted()
      ensures ev.id !in old(node.Accepted()) ==> node.outbox == old(node.outbox) + [ev]
      ensures r.Ok? && old(node.Settled()) ==> node.Settled()
      ensures r.Err? && old(node.Settled()) ==> Refuses(old(node.Seen()), {ev.id})
    {
      hide *;
      r := node.CommitLocal(ev);
      node.LocalCommit(ev, r);
    }

    /** Sign on top of the given parents with a fresh timestamp, and commit. */
    method Author(room: RoomId, parents: seq<EventId>, kind: EventKind, payload: Payload, saved: bool)
      returns (ev: SignedEvent, r: Result<bool, SyncError>)
      requires Valid()
      requires forall p | p in parents :: p in node.Accepted() && RoomOf(p) == room
      modifies this, node`events, node`dags, node`inbox, node`outbox, node`Repr, node.Repr - {node}
      ensures Valid() && fresh(node.Repr - old(node.Repr))
      ensures Verified(ev) && RoomOf(ev.id) == room && ParentsOf(ev.id) == parents
      ensures ev.body.kind == kind && ev.body.payload == payload && ev.body.authorDevice == deviceId
      ensures TsOf(ev.id) == old(tsCounter) + 1 && authored == old(authored) + [ev.id]
      ensures old(node.Accepted()) + {ev.id} <= node.Accepted()
      ensures ev.id !in old(node.Accepted()) ==> node.outbox == old(node.outbox) + [ev]
      ensures r.Ok? && old(node.Settled()) ==> node.Settled()
      ensures r.Err? && old(node.Settled()) ==> Refuses(old(node.Seen()), {ev.id})
    {
      hide *;
      ValidMeans();
      RisingGrows(authored, tsCounter);
      var ts := NextTs(saved);
      var body := UnsignedEvent(room, parents, kind, payload, deviceId, ts);
      ev := SignEvent(deviceId, body).value;
      SignedMeans(ev, node.Accepted());
      r := CommitOwn(ev);
      authored := authored + [ev.id];
      ValidMeans();
    }

    /**
     Create a room. The id is a digest of creator, name and the drawn time; nothing here depends on which. The
     event names no parents and is accepted, even when a parked event it releases is refused.
     */
    method CreateRoom(name: string, roomIdOf: (DeviceId, string, nat) -> RoomId, saved: bool)
      returns (ev: SignedEvent, r: Result<bool, SyncError>)
      requires Valid()
      modifies this, node`events, node`dags, node`inbox, node`outbox, node`Repr, node.Repr - {node}
      ensures Valid() && fresh(node.Repr - old(node.Repr))
      ensures Verified(ev) && ParentsOf(ev.id) == [] && RoomOf(ev.id) == roomIdOf(deviceId, name, TsOf(ev.id))
      ensures ev.body.kind == EventKind.CreateRoom && ev.body.payload == CreateRoomPayload(deviceId, name)
      ensures ev.body.authorDevice == deviceId
      ensures TsOf(ev.id) == old(tsCounter) + 1 && authored == old(authored) + [ev.id]
      ensures old(node.Accepted()) + {ev.id} <= node.Accepted()
      ensures r.Ok? && old(node.Settled()) ==> node.Settled()
      ensures r.Err? && old(node.Settled()) ==> Refuses(old(node.Seen()), {ev.id})
    {
      hide *;
      var room := roomIdOf(deviceId, name, tsCounter + 1);
      ev, r := Author(room, [], EventKind.CreateRoom, CreateRoomPayload(deviceId, name), saved);
    }

    /**
     Author a message on top of all tips of the room. The message is new, covers all tips of what the author
     saw, and is accepted by the author even when a parked event it releases is refused.
     */
    method SendMessage(room: RoomId, payload: Payload, mayMessage: bool, saved: bool)
      returns (r: Result<SignedEvent, SendError>)
      requires Valid()
      modifies this, node`events, node`dags, node`inbox, node`outbox, node`Repr, node.Repr - {node}
      ensures Valid() && fresh(node.Repr - old(node.Repr))
      ensures r == Err(NotAMember) <==> !mayMessage && InRoom(old(node.Accepted()), room) == {}
      ensures r == Err(NotAMember) ==> authored == old(authored) && node.Seen() == old(node.Seen())
      ensures r != Err(NotAMember) ==>
                && authored != [] && old(authored) == authored[..|authored| - 1]
                && authored[|authored| - 1].Digest?
                && CertifiedMessage(InRoom(old(node.Accepted()), room), room, authored[|authored| - 1])
                && old(node.Accepted()) + {authored[|authored| - 1]} <= node.Accepted()
                && node.outbox == old(node.outbox) + [EventOf(authored[|authored| - 1])]
                && var body := authored[|authored| - 1].body;
                   && body.kind == Message && body.payload == payload && body.authorDevice == deviceId
                   && body.roomId == room && body.tsMs == old(tsCounter) + 1
      ensures r.Ok? ==> Verified(r.value) && r.value.id == authored[|authored| - 1]
      ensures r.Ok? && old(node.Settled()) ==> node.Settled()
      ensures r.Err? && r.error.CommitFailed? && old(node.Settled()) ==>
                Refuses(old(node.Seen()), {authored[|authored| - 1]})
    {
      hide *;
      ValidMeans();
      node.ValidIsFounded();
      ghost var acc := node.Accepted();
      node.SeenMeans();
      RoomPartFounded(acc, room);
      if !mayMessage && node.RoomEventIds(room) == {} {
        return Err(NotAMember);
      }
      var parents := node.Tips(room);
      TipsAreInHistory(acc, room, parents);
      var ev, committed := Author(room, parents, Message, payload, saved);
      SignedMeans(ev, acc);
      MessageIsNew(acc, room, ev);
      r := match committed case Ok(_) => Ok(ev) case Err(e) => Err(CommitFailed(e));
    }

    /** A peer's or the relay's event, even one that carries this device's own name, leaves the clock alone. */
    method IngestRemote(ev: SignedEvent) returns (r: Result<bool, SyncError>)
      requires Valid()
      modifies node`events, node`dags, node`inbox, node`outbox, node`Repr, node.Repr - {node}
      ensures Valid() && fresh(node.Repr - old(node.Repr)) && node.outbox == old(node.outbox)
      ensures authored == old(authored) && tsCounter == old(tsCounter)
      ensures old(node.Accepted()) <= node.Accepted()
      ensures Verified(ev) && old(node.Settled()) ==>
                (r.Err? <==> Refuses(old(node.Seen()), {ev.id}))
                && (r.Ok? ==> node.Settled() && node.Seen() == Receive(old(node.Seen()), {ev.id}))
    {
      hide *;
      ValidMeans();
      ghost var seen := node.Seen();
      node.SeenMeans();
      r := node.CommitRemote(ev);
      if Verified(ev) && old(node.Settled()) {
        DrainedIsReceive(seen, {ev.id}, node.Accepted(), node.Parked(), r.Err?);
      }
      node.SeenMeans();
      ValidMeans();
    }

    /**
     Bring a session back from its durable log and whatever counter meta.json still holds. The counter is
     pushed above every timestamp in the log, so the device goes on above all it has ever authored.
     */
    static method LoadFromDataDir(deviceId: DeviceId, store: EventStore, savedTs: nat, ghost authored: seq<EventId>)
      returns (r: Result<NodeSession, SyncError>)
      requires store.Valid()
      requires RisingTo(authored, HighestTs(authored)) && Elements(authored) <= Closure({}, store.rows.Keys)
      modifies store
      ensures store.Valid() && store.rows.Keys == old(store.rows.Keys)
      ensures r.Err? <==> Refuses(EMPTY, old(store.rows.Keys))
      ensures r.Ok? ==> var s := r.value;
                        && fresh(s) && s.Valid() && s.node.Settled() && s.authored == authored
                        && s.deviceId == deviceId && s.node.deviceId == deviceId
                        && fresh(s.node) && s.node.durable == store && fresh(s.node.Repr - {store})
                        && s.node.logBase == old(store.rows.Keys)
                        && s.node.Seen() == Receive(EMPTY, old(store.rows.Keys)) && s.node.outbox == []
                        && s.savedTs == savedTs && s.tsCounter >= savedTs && s.tsCounter >= 1
                        && (|| s.tsCounter <= 1 || s.tsCounter == savedTs
                            || exists id | id in s.node.Accepted() :: s.tsCounter == TsOf(id) + 1)
                        && forall id | id in s.node.Accepted() :: TsOf(id) < s.tsCounter
    {
      hide *;
      var reopened := DeviceNode.WithSqlite(deviceId, store);
      if reopened.Err? {
        return Err(reopened.error);
      }
      var node := reopened.value;
      node.SeenMeans();
      ReplayAccepts(store.rows.Keys);
      var counter := CounterAbove(node, if savedTs > 1 then savedTs else 1);
      RisingBelow(authored, counter, node.Accepted());
      var session := new NodeSession(deviceId, node, counter, savedTs, authored);
      r := Ok(session);
    }

    /** A session can be reloaded from its own log at any time. */
    lemma CanReload()
      requires Valid() && node.durable != null
      ensures node.durable.Valid()
      ensures RisingTo(authored, HighestTs(authored)) && Elements(authored) <= Closure({}, node.durable.rows.Keys)
    {
      node.ValidIsFounded();
      ClosureMonotone({}, node.Accepted(), node.durable.rows.Keys);
    }

    /**
     The whole life of a device from an empty log: any rooms created, any sends, any events of others and any
     restarts, with any of the writes of meta.json lost. No restart ever fails, and the device has authored
     exactly what it was asked to, in order, in its own name and under strictly rising timestamps, and all of it
     is in the log.
     */
    static method WholeLife(
      deviceId: DeviceId, store: EventStore, roomIdOf: (DeviceId, string, nat) -> RoomId, life: seq<LifeStep>)
      returns (ghost authored: seq<EventId>)
      requires store.Valid() && store.rows == map[]
      modifies store
      ensures CarriesAll(authored, AuthoringSteps(life), deviceId, roomIdOf)
      ensures forall i, j | 0 <= i < j < |authored| :: TsOf(authored[i]) < TsOf(authored[j])
      ensures store.Valid() && Elements(authored) <= store.rows.Keys
    {
      hide *;
      NothingAuthored(store.rows);
      var loaded := LoadFromDataDir(deviceId, store, 0, []);
      var s := loaded.value;
      NothingLogged(s.node.logBase, s.node.Accepted());
      for done := 0 to |life|
        invariant fresh(s) && fresh(s.node) && fresh(s.node.Repr - {store})
        invariant s.Valid() && s.node.durable == store && s.deviceId == deviceId
        invariant CarriesAll(s.authored, AuthoringSteps(life[..done]), deviceId, roomIdOf)
        invariant s.node.logBase <= s.node.Accepted()
      {
        AuthoringSnoc(life, done);
        ghost var before := s.authored;
        match life[done] {
          case Creating(name, saved) =>
            var created, _ := s.CreateRoom(name, roomIdOf, saved);
            SignedMeans(created, {});
            CarriesOneMore(before, AuthoringSteps(life[..done]), created.id, life[done], deviceId, roomIdOf);
          case Sending(room, payload, saved) =>
            var sent := s.SendMessage(room, payload, true, saved);
            ghost var id := s.authored[|s.authored| - 1];
            assert s.authored == before + [id];
            CarriesOneMore(before, AuthoringSteps(life[..done]), id, life[done], deviceId, roomIdOf);
          case Receiving(ev) =>
            var received := s.IngestRemote(ev);
          case Restarting =>
            s.CanReload();
            s.ValidMeans();
            s.node.RestartIsTransparent();
            var reloaded := LoadFromDataDir(deviceId, store, s.savedTs, s.authored);
            s := reloaded.value;
            s.node.SeenMeans();
        }
      }
      assert life[..|life|] == life;
      s.LogHoldsAuthored();
      authored := s.authored;
      RisingMeans(authored, s.tsCounter);
    }

    lemma LogHoldsAuthored()
      requires Valid()
      ensures RisingTo(authored, tsCounter)
      ensures node.durable != null ==> node.durable.Valid() && Elements(authored) <= node.durable.rows.Keys
    {
    }

    /** The two loops over rooms and their events that lift the counter. */
    static method CounterAbove(node: DeviceNode, start: nat) returns (counter: nat)
      requires node.Valid()
      ensures counter >= start && forall id | id in node.Accepted() :: TsOf(id) < counter
      ensures counter == start || exists id | id in node.Accepted() :: counter == TsOf(id) + 1
    {
      hide *;
      counter := start;
      var rooms := node.dags.Keys;
      node.RoomsCovered();
      while rooms != {}
        invariant counter >= start
        invariant counter == start || exists id | id in node.Accepted() :: counter == TsOf(id) + 1
        invariant forall id | id in node.Accepted() && RoomOf(id) !in rooms :: TsOf(id) < counter
        decreases |rooms|
      {
        var room :| room in rooms;
        var listed := node.ListEvents(room);
        ListedMeans(listed, node.Accepted(), room);
        for i := 0 to |listed|
          invariant counter >= start
          invariant counter == start || exists id | id in node.Accepted() :: counter == TsOf(id) + 1
          invariant forall id | id in node.Accepted() && RoomOf(id) !in rooms :: TsOf(id) < counter
          invariant forall j | 0 <= j < i :: listed[j].body.tsMs < counter
        {
          if listed[i].body.tsMs >= counter {
            counter := listed[i].body.tsMs + 1;
            assert listed[i].id in node.Accepted() && counter == TsOf(listed[i].id) + 1;
          }
        }
        rooms := rooms - {room};
      }
      node.RoomsCovered();
    }

    /**
     Push a message to one peer: the new event alone first, and the room's full DAG once if nothing was
     accepted. A peer that accepts the event alone holds everything its author saw, whatever state it was in;
     after the full push so does a settled peer whose rooms refuse none of it.
     */
    method Fanout(peer: DeviceNode, ev: SignedEvent, ghost history: set<EventId>) returns (pushedAll: bool)
      requires Valid() && peer.Valid()
      requires peer.Repr !! node.Repr && this !in peer.Repr
      requires Founded(history) && CertifiedMessage(history, RoomOf(ev.id), ev.id) && Verified(ev)
      requires history + {ev.id} <= InRoom(node.Accepted(), RoomOf(ev.id))
      modifies peer`events, peer`dags, peer`inbox, peer`outbox, peer`Repr, peer.Repr - {peer}
      ensures peer.Valid() && fresh(peer.Repr - old(peer.Repr))
      ensures old(peer.Accepted()) <= peer.Accepted()
      ensures !pushedAll ==> history + {ev.id} <= peer.Accepted()
      ensures old(peer.Settled()) && !Refuses(old(peer.Seen()), InRoom(node.Accepted(), RoomOf(ev.id))) ==>
                && peer.Settled() && history + {ev.id} <= peer.Accepted()
                && (pushedAll ==> InRoom(node.Accepted(), RoomOf(ev.id)) <= peer.Accepted())
                && (!pushedAll ==> peer.Seen() == Receive(old(peer.Seen()), {ev.id}))
                && (pushedAll <==> ev.id in old(peer.Accepted()) || !Ready(old(peer.Accepted()), ev.id))
    {
      hide *;
      ValidMeans();
      node.ValidIsFounded();
      node.SeenMeans();
      peer.SeenMeans();
      ghost var seen, full := peer.Seen(), InRoom(node.Accepted(), RoomOf(ev.id));
      ghost var fits := peer.Settled() && !Refuses(seen, full);
      var fullDag := node.ListEvents(ev.body.roomId);
      JustOne(ev);
      if fits {
        peer.SettledIsQuiet();
        PushInTwoSteps(seen, node.Accepted(), ev.id);
        peer.SettledMeans();
        NotReadyIsNotTaken(seen, ev.id);
      }
      VerifiedIdsAre([ev]);
      VerifiedIdsAre(fullDag);
      var accepted, errors := peer.SyncIngest([ev]);
      peer.SeenMeans();
      peer.ValidIsFounded();
      if accepted == 0 {
        var more, moreErrors := peer.SyncIngest(fullDag);
        peer.SeenMeans();
        pushedAll := true;
      } else {
        DeltaCertifies(history, ev, old(peer.Accepted()), peer.Accepted());
        pushedAll := false;
      }
    }
  }

  lemma AuthoringSnoc(life: seq<LifeStep>, n: nat)
    requires n < |life|
    ensures AuthoringSteps(life[..n + 1])
         == if life[n].Creating? || life[n].Sending? then AuthoringSteps(life[..n]) + [life[n]]
            else AuthoringSteps(life[..n])
  {
    assert life[..n + 1][..n] == life[..n];
  }

  lemma CarriesOneMore(ids: seq<EventId>, steps: seq<LifeStep>, id: EventId, step: LifeStep,
                       author: DeviceId, roomIdOf: (DeviceId, string, nat) -> RoomId)
    requires CarriesAll(ids, steps, author, roomIdOf)
    requires id.Digest? && id.body.authorDevice == author
    requires match step
             case Creating(name, _) =>
               && id.body.kind == EventKind.CreateRoom && id.body.payload == CreateRoomPayload(author, name)
               && id.body.roomId == roomIdOf(author, name, id.body.tsMs)
             case Sending(room, payload, _) =>
               id.body.kind == Message && id.body.payload == payload && id.body.roomId == room
             case _ => false
    ensures CarriesAll(ids + [id], steps + [step], author, roomIdOf)
  {
  }

  lemma RisingMeans(ids: seq<EventId>, bound: nat)
    requires RisingTo(ids, bound)
    ensures forall i, j | 0 <= i < j < |ids| :: TsOf(ids[i]) < TsOf(ids[j])
  {
  }

  lemma NothingLogged(logBase: set<EventId>, accepted: set<EventId>)
    ensures logBase == {} ==> logBase <= accepted
  {
  }

  lemma NothingAuthored(rows: map<EventId, SignedEvent>)
    requires rows == map[]
    ensures RisingTo([], HighestTs([])) && Elements<EventId>([]) <= Closure({}, rows.Keys)
    ensures !Refuses(EMPTY, rows.Keys)
    ensures forall author, roomIdOf :: CarriesAll([], AuthoringSteps([]), author, roomIdOf)
  {
  }

  lemma JustOne(ev: SignedEvent)
    requires Verified(ev)
    ensures AllVerified([ev]) && IdsOf([ev]) == {ev.id} && RoomOf(ev.id) == ev.body.roomId
  {
    assert ev in [ev];
  }

  /** The delta and then the full DAG end where the full DAG alone would, and neither step is refused. */
  lemma {:induction false} PushInTwoSteps(peer: View, sender: set<EventId>, id: EventId)
    requires Quiet(peer) && Founded(sender) && id in InRoom(sender, RoomOf(id))
    requires !Refuses(peer, InRoom(sender, RoomOf(id)))
    ensures var full := InRoom(sender, RoomOf(id));
            && !Refuses(peer, {id})
            && !Refuses(Receive(peer, {id}), full)
            && full <= Receive(Receive(peer, {id}), full).accepted
  {
    var full := InRoom(sender, RoomOf(id));
    assert {id} + full == full;
    RefusalInPortions(peer, {id}, full);
    ReceiveInPortions(peer, {id}, full);
    RoomPartFounded(sender, RoomOf(id));
    var c := Closure(peer.accepted, peer.parked + full);
    ClosureIsLeast({}, full, c);
  }

  lemma {:induction false} NotReadyIsNotTaken(peer: View, id: EventId)
    requires Quiet(peer) && Stuck(peer.accepted, peer.parked) && !Refuses(peer, {id})
    ensures id in Receive(peer, {id}).accepted <==> id in peer.accepted || Ready(peer.accepted, id)
  {
    hide Closure, Blocked, Founded;
    FoundedParentClosed(peer.accepted);
    ReadyMeans(peer.accepted, id);
    NothingToDrain(peer.accepted, peer.parked, id);
    if id !in peer.accepted && ParentsKnown(peer.accepted, id) && !SameRoomParents(id) {
      RefusedIsDrained(peer.accepted, peer.parked, id);
    }
    if Ready(peer.accepted, id) {
      ReadyMonotone(peer.accepted, Closure(peer.accepted, peer.parked + {id}), id);
    }
  }

  /** If handing over the message alone got anything accepted, then the whole history is there. */
  lemma DeltaCertifies(history: set<EventId>, message: SignedEvent, before: set<EventId>, held: set<EventId>)
    requires Founded(history) && CertifiedMessage(history, RoomOf(message.id), message.id)
    requires Founded(held) && exists ev | ev in [message] :: ev.id in held && ev.id !in before
    ensures history + {message.id} <= held
  {
    FanoutCertificate(history, message.id, held);
  }

  /** A message that covers all tips of the history it was authored on, and is not part of it. */
  ghost predicate CertifiedMessage(history: set<EventId>, room: RoomId, id: EventId) {
    && RoomOf(id) == room
    && id !in history
    && Elements(ParentsOf(id)) == TipsOf(history)
    && TipsOf(history + {id}) == {id}
  }

  lemma RisingGrows(ids: seq<EventId>, bound: nat)
    requires RisingTo(ids, bound)
    ensures forall id | TsOf(id) == bound + 1 :: RisingTo(ids + [id], bound + 1)
    ensures forall id :: Elements(ids + [id]) == Elements(ids) + {id}
  {
  }

  lemma SignedMeans(ev: SignedEvent, acc: set<EventId>)
    requires Verified(ev)
    ensures ev.id.Digest? && ev == EventOf(ev.id) && ev.id.body == ev.body
    ensures RoomOf(ev.id) == ev.body.roomId && ParentsOf(ev.id) == ev.body.parents && TsOf(ev.id) == ev.body.tsMs
    ensures Ready(acc, ev.id) <==> forall p | p in ev.body.parents :: p in acc && RoomOf(p) == ev.body.roomId
  {
  }

  ghost function HighestTs(ids: seq<EventId>): nat {
    if ids == [] then 0 else TsOf(ids[|ids| - 1])
  }

  lemma ReplayAccepts(rows: set<EventId>)
    ensures Receive(EMPTY, rows).accepted == Closure({}, rows)
  {
    assert EMPTY.parked + rows == rows;
  }

  lemma RisingBelow(ids: seq<EventId>, bound: nat, acc: set<EventId>)
    requires RisingTo(ids, HighestTs(ids)) && Elements(ids) <= acc
    requires forall id | id in acc :: TsOf(id) < bound
    ensures RisingTo(ids, bound)
  {
    forall i | 0 <= i < |ids| ensures TsOf(ids[i]) <= bound {
      assert ids[i] in Elements(ids);
    }
  }

  lemma ListedMeans(listed: seq<SignedEvent>, acc: set<EventId>, room: RoomId)
    requires AllVerified(listed) && IdsOf(listed) == InRoom(acc, room)
    ensures forall id | id in acc && RoomOf(id) == room ::
              exists j :: 0 <= j < |listed| && listed[j].body.tsMs == TsOf(id)
    ensures forall j | 0 <= j < |listed| :: listed[j].id in acc && listed[j].body.tsMs == TsOf(listed[j].id)
  {
    forall j | 0 <= j < |listed| ensures listed[j].id in acc && listed[j].body.tsMs == TsOf(listed[j].id) {
      assert listed[j] in listed && listed[j].id in IdsOf(listed);
    }
    forall id | id in acc && RoomOf(id) == room
      ensures exists j :: 0 <= j < |listed| && listed[j].body.tsMs == TsOf(id)
    {
      assert id in IdsOf(listed);
      var ev :| ev in listed && ev.id == id;
      var j :| 0 <= j < |listed| && listed[j] == ev;
      assert Verified(listed[j]);
    }
  }

  lemma TipsAreInHistory(acc: set<EventId>, room: RoomId, tips: seq<EventId>)
    requires Elements(tips) == TipsOf(InRoom(acc, room))
    ensures forall p | p in tips :: p in acc && RoomOf(p) == room
  {
    forall p | p in tips ensures p in acc && RoomOf(p) == room {
      assert p in Elements(tips);
    }
  }

  /** Some tip of a history is not a parent of a given member: walk up from the member to a tip. */
  lemma TipNotAmongParents(history: set<EventId>, id: EventId) returns (tip: EventId)
    requires Founded(history) && id in history
    ensures tip in TipsOf(history) && tip !in ParentsOf(id)
  {
    var log := CausalOrder(history);
    var path := ReachesTip(log, id);
    tip := path[|path| - 1];
    if |path| > 1 {
      NoCycle(log, path);
    }
    if tip in ParentsOf(id) {
      ChildComesLater(log, tip, id);
      assert false;
    }
  }

  /** An event on top of all tips of a room is new there, and becomes the only tip. */
  lemma MessageIsNew(acc: set<EventId>, room: RoomId, ev: SignedEvent)
    requires Founded(acc) && Founded(InRoom(acc, room)) && Verified(ev) && RoomOf(ev.id) == room
    requires Elements(ParentsOf(ev.id)) == TipsOf(InRoom(acc, room))
    ensures CertifiedMessage(InRoom(acc, room), room, ev.id)
    ensures ev.id !in acc && Ready(acc, ev.id) && ev == EventOf(ev.id)
  {
    var history := InRoom(acc, room);
    if ev.id in history {
      var tip := TipNotAmongParents(history, ev.id);
      assert false;
    }
    FoundedParentClosed(history);
    TipsAreInHistory(acc, room, ParentsOf(ev.id));
    TipsAfterAccept(history, ev.id);
    assert TipsOf(history) - Elements(ParentsOf(ev.id)) == {};
  }
}
