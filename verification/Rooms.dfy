/** Rooms and their membership, folded from events as they are applied (crates/td-event/src/room.rs). */
module Rooms {
  import opened Wrappers
  import opened Sequences
  import opened Events
  import opened Causality
  import opened RoomDags

  datatype MemberState = Invited | Joined | Left | Banned

  datatype RoomError =
    | EventFailed(event: EventError)
    | DagFailed(dag: DagError)
    | BadPayload
    | NotMember(device: DeviceId)
    | UnknownRoom
    | InvalidTransition
    | Unauthorized

  type Members = map<DeviceId, MemberState>

  /** What a room amounts to: its members, the ids in its DAG, and the tips it has cached. */
  datatype RoomView = RoomView(
    name: string, creator: DeviceId, members: Members, ids: set<EventId>, tips: set<EventId>)

  predicate IsJoined(members: Members, d: DeviceId) {
    d in members && members[d] == Joined
  }

  predicate IsIn(members: Members, d: DeviceId, state: MemberState) {
    d in members && members[d] == state
  }

  function StateAfter(action: MembershipAction): MemberState {
    match action
    case Invite => Invited
    case Join => Joined
    case Leave => Left
    case Ban => Banned
  }

  function StateOf(members: Members, d: DeviceId): Option<MemberState> {
    if d in members then Some(members[d]) else None
  }

  /** A banned device is not let in again by an invite or a join. */
  predicate Refused(members: Members, target: DeviceId, action: MembershipAction) {
    (action == Invite || action == Join) && IsIn(members, target, Banned)
  }

  ghost predicate CanIngest(ids: set<EventId>, id: EventId) {
    id !in ids && ParentsKnown(ids, id)
  }

  /** What a verified event does to its room; no other room changes. */
  ghost function AfterEvent(room: Option<RoomView>, ev: SignedEvent): Option<RoomView> {
    if !Verified(ev) then room
    else match ev.body.kind
      case CreateRoom =>
        if !ev.body.payload.CreateRoomPayload? then room
        else if room.Some? then Some(Extended(room.value, ev.id))
        else if !ParentsKnown({}, ev.id) then None
        else Some(RoomView(ev.body.payload.name, ev.body.payload.creator,
                           map[ev.body.payload.creator := Joined], {ev.id}, {ev.id}))
      case Membership =>
        if room.None? || !ev.body.payload.MembershipPayload? then room
        else Some(Folded(room.value, ev.id, ev.body.payload.target, ev.body.payload.action))
      case _ =>
        if room.None? || !IsJoined(room.value.members, ev.body.authorDevice) then room
        else Some(Extended(room.value, ev.id))
  }

  ghost function Extended(v: RoomView, id: EventId): RoomView {
    if CanIngest(v.ids, id) then v.(ids := v.ids + {id}, tips := TipsOf(v.ids + {id})) else v
  }

  /** A refused invite or join has already entered the DAG, and leaves the cached tips behind. */
  ghost function Folded(v: RoomView, id: EventId, target: DeviceId, action: MembershipAction): RoomView {
    if !CanIngest(v.ids, id) then v
    else if Refused(v.members, target, action) then v.(ids := v.ids + {id})
    else Extended(v, id).(members := v.members[target := StateAfter(action)])
  }

  ghost predicate IngestReply(ids: set<EventId>, id: EventId, r: Result<bool, RoomError>) {
    if id in ids then r == Ok(false)
    else if ParentsKnown(ids, id) then r == Ok(true)
    else r.Err? && r.error.DagFailed? && r.error.dag.MissingParent?
         && r.error.dag.parent in ParentsOf(id) && r.error.dag.parent !in ids
  }

  ghost predicate Reply(room: Option<RoomView>, ev: SignedEvent, r: Result<bool, RoomError>) {
    if VerifyEvent(ev).Err? then r == Err(EventFailed(VerifyEvent(ev).error))
    else match ev.body.kind
      case CreateRoom =>
        if !ev.body.payload.CreateRoomPayload? then r == Err(BadPayload)
        else IngestReply(if room.Some? then room.value.ids else {}, ev.id, r)
      case Membership =>
        if !ev.body.payload.MembershipPayload? then r == Err(BadPayload)
        else if room.None? then r == Err(UnknownRoom)
        else if CanIngest(room.value.ids, ev.id)
                && Refused(room.value.members, ev.body.payload.target, ev.body.payload.action)
        then r == Err(InvalidTransition)
        else IngestReply(room.value.ids, ev.id, r)
      case _ =>
        if room.None? then r == Err(UnknownRoom)
        else if !IsJoined(room.value.members, ev.body.authorDevice) then r == Err(NotMember(ev.body.authorDevice))
        else IngestReply(room.value.ids, ev.id, r)
  }

  /** Only a refused invite or join of a banned device lies on top of all cached tips. */
  ghost predicate OnlyRefusedOnTips(v: RoomView) {
    forall id | id in v.ids && Elements(ParentsOf(id)) == v.tips ::
      id.Digest? && id.body.payload.MembershipPayload?
      && Refused(v.members, id.body.payload.target, id.body.payload.action)
  }

  lemma NothingOnFreshTips(ids: set<EventId>, id: EventId)
    requires ParentClosed(ids) && CanIngest(ids, id)
    ensures forall x | x in ids + {id} :: Elements(ParentsOf(x)) != TipsOf(ids + {id})
  {
    TipsAfterAccept(ids, id);
    forall x | x in ids + {id} ensures Elements(ParentsOf(x)) != TipsOf(ids + {id}) {
      if x in ids {
        assert Ready(ids, x) && id !in ParentsOf(x);
      }
      assert id in TipsOf(ids + {id}) && id !in Elements(ParentsOf(x));
    }
  }

  lemma ExtendedIsSettled(v: RoomView, id: EventId)
    requires ParentClosed(v.ids) && OnlyRefusedOnTips(v)
    ensures OnlyRefusedOnTips(Extended(v, id))
  {
    if CanIngest(v.ids, id) {
      NothingOnFreshTips(v.ids, id);
    }
  }

  lemma FoldedIsSettled(v: RoomView, id: EventId, target: DeviceId, action: MembershipAction)
    requires ParentClosed(v.ids) && OnlyRefusedOnTips(v)
    requires id.Digest? && id.body.payload.MembershipPayload?
    requires id.body.payload.target == target && id.body.payload.action == action
    ensures OnlyRefusedOnTips(Folded(v, id, target, action))
  {
    if CanIngest(v.ids, id) {
      NothingOnFreshTips(v.ids, id);
    }
  }

  /** The checks before a membership event is authored, in order. */
  function RefusalOf(members: Members, actor: DeviceId, target: DeviceId, action: MembershipAction): Option<RoomError> {
    match action
    case Invite => if IsJoined(members, actor) then None else Some(Unauthorized)
    case Ban => if IsJoined(members, actor) then None else Some(Unauthorized)
    case Join =>
      if actor != target then Some(Unauthorized)
      else if IsIn(members, target, Invited) || IsJoined(members, target) then None
      else Some(InvalidTransition)
    case Leave =>
      if actor == target && (IsIn(members, target, Joined) || IsIn(members, target, Invited)) then None
      else Some(Unauthorized)
  }

  function Refusal(
    room: Option<RoomView>, actor: DeviceId, target: DeviceId, action: MembershipAction): Option<RoomError>
  {
    if room.None? then Some(UnknownRoom) else RefusalOf(room.value.members, actor, target, action)
  }

  class RoomState {
    const roomId: RoomId
    const name: string
    const creator: DeviceId
    const dag: RoomDag
    var members: Members
    var tips: seq<EventId>

    ghost predicate Valid()
      reads this, dag
    {
      && dag.Valid() && dag.roomId == Some(roomId) && Elements(tips) <= dag.events.Keys
      && OnlyRefusedOnTips(View())
    }

    ghost function View(): RoomView
      reads this, dag
    {
      RoomView(name, creator, members, dag.events.Keys, Elements(tips))
    }

    constructor (roomId: RoomId, name: string, creator: DeviceId, dag: RoomDag, tips: seq<EventId>)
      requires dag.Valid() && dag.roomId == Some(roomId) && Elements(tips) <= dag.events.Keys
      requires forall id | id in dag.events :: Elements(ParentsOf(id)) != Elements(tips)
      ensures Valid() && this.roomId == roomId && this.dag == dag
      ensures View() == RoomView(name, creator, map[creator := Joined], dag.events.Keys, Elements(tips))
    {
      this.roomId, this.name, this.creator, this.dag := roomId, name, creator, dag;
      this.members, this.tips := map[creator := Joined], tips;
    }

    /** Into the DAG only. */
    method IngestIntoDag(ev: SignedEvent) returns (r: Result<bool, RoomError>)
      requires Valid() && Verified(ev) && ev.body.roomId == roomId
      modifies dag
      ensures dag.Valid() && dag.roomId == Some(roomId) && ParentClosed(old(dag.events.Keys))
      ensures IngestReply(old(dag.events.Keys), ev.id, r)
      ensures View() == if CanIngest(old(dag.events.Keys), ev.id)
                        then old(View()).(ids := old(dag.events.Keys) + {ev.id}) else old(View())
    {
      hide RoomDag.Valid, TipsOf, OnlyRefusedOnTips;
      dag.IsParentClosed();
      var got := dag.Ingest(ev);
      return if got.Err? then Err(DagFailed(got.error)) else Ok(got.value);
    }

    /** Into the DAG, and on to the new tips. */
    method Ingest(ev: SignedEvent) returns (r: Result<bool, RoomError>)
      requires Valid() && Verified(ev) && ev.body.roomId == roomId
      modifies this, dag
      ensures Valid()
      ensures IngestReply(old(dag.events.Keys), ev.id, r)
      ensures View() == Extended(old(View()), ev.id)
    {
      hide RoomDag.Valid, TipsOf, OnlyRefusedOnTips, ParentClosed;
      ghost var v := View();
      r := IngestIntoDag(ev);
      if r == Ok(true) {
        tips := dag.Tips();
        TipsAreMembers(dag.events.Keys);
      }
      ExtendedIsSettled(v, ev.id);
    }

    lemma ParentsClosed()
      requires Valid()
      ensures ParentClosed(dag.events.Keys) && OnlyRefusedOnTips(View())
    {
      dag.IsParentClosed();
    }

    method ApplyMembership(ev: SignedEvent, target: DeviceId, action: MembershipAction)
      returns (r: Result<bool, RoomError>)
      requires Valid() && Verified(ev) && ev.body.roomId == roomId && Says(ev, target, action)
      modifies this, dag
      ensures Valid()
      ensures if CanIngest(old(dag.events.Keys), ev.id) && Refused(old(members), target, action)
              then r == Err(InvalidTransition)
              else IngestReply(old(dag.events.Keys), ev.id, r)
      ensures View() == Folded(old(View()), ev.id, target, action)
    {
      hide RoomDag.Valid, TipsOf, OnlyRefusedOnTips, ParentClosed;
      ghost var v := View();
      ParentsClosed();
      FoldedIsSettled(v, ev.id, target, action);
      r := IngestIntoDag(ev);
      if r != Ok(true) {
        return;
      }
      match action {
        case Invite =>
          if target in members && members[target] == Banned {
            return Err(InvalidTransition);
          }
          members := members[target := Invited];
        case Join =>
          if target in members && members[target] == Banned {
            return Err(InvalidTransition);
          }
          members := members[target := Joined];
        case Leave => members := members[target := Left];
        case Ban => members := members[target := Banned];
      }
      tips := dag.Tips();
      TipsAreMembers(dag.events.Keys);
    }
  }

  predicate Says(ev: SignedEvent, target: DeviceId, action: MembershipAction) {
    ev.body.payload.MembershipPayload? && ev.body.payload.target == target && ev.body.payload.action == action
  }

  lemma TipsAreMembers(ids: set<EventId>)
    ensures TipsOf(ids) <= ids
  {
  }

  /** A room that holds nothing but its create event, which must name no parents. */
  method StartRoom(ev: SignedEvent) returns (r: Result<RoomState, RoomError>)
    requires Verified(ev) && ev.body.payload.CreateRoomPayload?
    ensures r.Ok? <==> ParentsKnown({}, ev.id)
    ensures r.Err? ==> IngestReply({}, ev.id, Err(r.error))
    ensures r.Ok? ==>
              var p := ev.body.payload;
              && fresh(r.value) && fresh(r.value.dag) && r.value.Valid() && r.value.roomId == ev.body.roomId
              && r.value.View() == RoomView(p.name, p.creator, map[p.creator := Joined], {ev.id}, {ev.id})
  {
    hide RoomDag.Valid, TipsOf;
    var dag := new RoomDag(ev.body.roomId);
    var got := dag.Ingest(ev);
    if got.Err? {
      return Err(DagFailed(got.error));
    }
    var tips := dag.Tips();
    FirstTip(ev.id);
    assert dag.events.Keys == {ev.id};
    var room := new RoomState(ev.body.roomId, ev.body.payload.name, ev.body.payload.creator, dag, tips);
    return Ok(room);
  }

  class RoomRegistry {
    var rooms: map<RoomId, RoomState>
    ghost var Repr: set<object>

    ghost predicate Valid()
      reads this, Repr
    {
      && this in Repr
      && forall q | q in rooms ::
           rooms[q] in Repr && rooms[q].dag in Repr && rooms[q].roomId == q && rooms[q].Valid()
    }

    ghost function ViewOf(room: RoomId): Option<RoomView>
      requires room in rooms ==> rooms[room] in Repr && rooms[room].dag in Repr
      reads this, Repr
    {
      if room in rooms then Some(rooms[room].View()) else None
    }

    constructor ()
      ensures Valid() && fresh(Repr) && forall q :: ViewOf(q) == None
    {
      rooms, Repr := map[], {this};
    }

    /** A step of one room leaves the others alone: rooms share neither states nor DAGs. */
    twostate lemma OthersUnchanged(room: RoomId)
      requires old(Valid()) && rooms == old(rooms) && Repr == old(Repr)
      requires room in rooms && rooms[room].Valid()
      requires forall o | o in Repr && o != rooms[room] && o != rooms[room].dag :: unchanged(o)
      ensures Valid() && forall q | q != room :: ViewOf(q) == old(ViewOf(q))
    {
      forall q | q in rooms && q != room ensures rooms[q].Valid() && rooms[q].View() == old(rooms[q].View()) {
        assert rooms[q].roomId == q && rooms[room].roomId == room;
        assert old(rooms[q].dag.roomId) == Some(q) && old(rooms[room].dag.roomId) == Some(room);
      }
    }

    method IngestInto(room: RoomId, ev: SignedEvent) returns (r: Result<bool, RoomError>)
      requires Valid() && Verified(ev) && ev.body.roomId == room && room in rooms
      modifies rooms[room], rooms[room].dag
      ensures Valid() && IngestReply(old(ViewOf(room)).value.ids, ev.id, r)
      ensures ViewOf(room) == Some(Extended(old(ViewOf(room)).value, ev.id))
      ensures forall q | q != room :: ViewOf(q) == old(ViewOf(q))
    {
      hide RoomDag.Valid, Extended, IngestReply, Verified;
      r := rooms[room].Ingest(ev);
      OthersUnchanged(room);
    }

    method ApplyMembershipTo(room: RoomId, ev: SignedEvent, target: DeviceId, action: MembershipAction)
      returns (r: Result<bool, RoomError>)
      requires Valid() && Verified(ev) && ev.body.roomId == room && room in rooms && Says(ev, target, action)
      modifies rooms[room], rooms[room].dag
      ensures Valid()
      ensures var v := old(ViewOf(room)).value;
              if CanIngest(v.ids, ev.id) && Refused(v.members, target, action) then r == Err(InvalidTransition)
              else IngestReply(v.ids, ev.id, r)
      ensures ViewOf(room) == Some(Folded(old(ViewOf(room)).value, ev.id, target, action))
      ensures forall q | q != room :: ViewOf(q) == old(ViewOf(q))
    {
      hide RoomDag.Valid, Folded, IngestReply, Verified, Refused, CanIngest;
      r := rooms[room].ApplyMembership(ev, target, action);
      OthersUnchanged(room);
    }

    /** The new room of a create event, if its DAG takes the event. */
    method OpenRoom(ev: SignedEvent) returns (r: Result<bool, RoomError>)
      requires Valid() && Verified(ev) && ev.body.payload.CreateRoomPayload? && ev.body.roomId !in rooms
      modifies this
      ensures Valid() && old(Repr) <= Repr && fresh(Repr - old(Repr))
      ensures IngestReply({}, ev.id, r)
      ensures ViewOf(ev.body.roomId)
           == if !ParentsKnown({}, ev.id) then None
              else Some(RoomView(ev.body.payload.name, ev.body.payload.creator,
                                 map[ev.body.payload.creator := Joined], {ev.id}, {ev.id}))
      ensures forall q | q != ev.body.roomId :: ViewOf(q) == old(ViewOf(q))
    {
      hide RoomDag.Valid;
      var started := StartRoom(ev);
      if started.Err? {
        return Err(started.error);
      }
      var room := started.value;
      rooms, Repr := rooms[ev.body.roomId := room], Repr + {room, room.dag};
      return Ok(true);
    }

    method ApplyEvent(ev: SignedEvent) returns (r: Result<bool, RoomError>)
      requires Valid()
      modifies Repr
      ensures Valid() && old(Repr) <= Repr && fresh(Repr - old(Repr))
      ensures Reply(old(ViewOf(ev.body.roomId)), ev, r)
      ensures ViewOf(ev.body.roomId) == AfterEvent(old(ViewOf(ev.body.roomId)), ev)
      ensures forall q | q != ev.body.roomId :: ViewOf(q) == old(ViewOf(q))
    {
      hide RoomDag.Valid, RoomState.Valid, Extended, Folded, IngestReply;
      var checked := VerifyEvent(ev);
      if checked.Err? {
        return Err(EventFailed(checked.error));
      }
      var room := ev.body.roomId;
      match ev.body.kind {
        case CreateRoom =>
          if !ev.body.payload.CreateRoomPayload? {
            return Err(BadPayload);
          }
          if room in rooms {
            r := IngestInto(room, ev);
          } else {
            r := OpenRoom(ev);
          }
        case Membership =>
          if !ev.body.payload.MembershipPayload? {
            return Err(BadPayload);
          }
          if room !in rooms {
            return Err(UnknownRoom);
          }
          r := ApplyMembershipTo(room, ev, ev.body.payload.target, ev.body.payload.action);
        case _ =>
          if room !in rooms {
            return Err(UnknownRoom);
          }
          if !IsJoined(rooms[room].members, ev.body.authorDevice) {
            return Err(NotMember(ev.body.authorDevice));
          }
          r := IngestInto(room, ev);
      }
    }

    /**
     Authors a membership event on the cached tips. It is never refused for a missing parent. Out of the calls
     that pass the checks only the invite of a banned device fails, and that event has entered the DAG; the very
     same invite again is answered as known, and has no effect either. Every other answer of success means that
     the member's state has changed as asked.
     */
    method MembershipEvent(
      signer: DeviceId, room: RoomId, actor: DeviceId, target: DeviceId, action: MembershipAction, tsMs: nat)
      returns (r: Result<SignedEvent, RoomError>, ghost id: EventId)
      requires Valid()
      modifies Repr
      ensures Valid() && old(Repr) <= Repr && fresh(Repr - old(Repr))
      ensures forall q | q != room :: ViewOf(q) == old(ViewOf(q))
      ensures var v, refusal := old(ViewOf(room)), Refusal(old(ViewOf(room)), actor, target, action);
              if refusal.Some? || signer != actor
              then r == Err(if refusal.Some? then refusal.value else EventFailed(AuthorMismatch)) && ViewOf(room) == v
              else
                && Authored(v.value, id, room, actor, target, action, tsMs)
                && ViewOf(room) == Some(Folded(v.value, id, target, action))
                && r == if id !in v.value.ids && Refused(v.value.members, target, action) then Err(InvalidTransition)
                        else Ok(EventOf(id))
      ensures old(ViewOf(room)).Some? ==>
                var before, c := old(ViewOf(room)).value.members, Call(signer, actor, target, action);
                && ViewOf(room).Some? && LocalStep(before, c, ViewOf(room).value.members)
                && ViewOf(room).value.name == old(ViewOf(room)).value.name
                && (Allowed(before, c) ==> r.Ok?)
                && (r.Ok? ==> Allowed(before, c) || (action == Invite && IsIn(before, target, Banned)))
    {
      hide RoomDag.Valid, Folded, Refused, OnlyRefusedOnTips;
      id := NoPreimage(0);
      if room !in rooms {
        return Err(UnknownRoom), id;
      }
      var state := rooms[room];
      match action {
        case Invite =>
          if !IsJoined(state.members, actor) {
            return Err(Unauthorized), id;
          }
        case Ban =>
          if !IsJoined(state.members, actor) {
            return Err(Unauthorized), id;
          }
        case Join =>
          if actor != target {
            return Err(Unauthorized), id;
          }
          if !IsIn(state.members, target, Invited) && !IsJoined(state.members, target) {
            return Err(InvalidTransition), id;
          }
        case Leave =>
          if actor != target || !(IsIn(state.members, target, Joined) || IsIn(state.members, target, Invited)) {
            return Err(Unauthorized), id;
          }
      }
      var body := UnsignedEvent(room, state.tips, Membership, MembershipPayload(target, action, actor), actor, tsMs);
      var signed := SignEvent(signer, body);
      if signed.Err? {
        return Err(EventFailed(signed.error)), id;
      }
      id := signed.value.id;
      ghost var v := ViewOf(room).value;
      assert Authored(v, id, room, actor, target, action, tsMs);
      var applied := ApplyEvent(signed.value);
      assert CanIngest(v.ids, id) <==> id !in v.ids;
      AuthoredStep(v, id, room, Call(signer, actor, target, action), tsMs);
      if applied.Err? {
        return Err(applied.error), id;
      }
      return Ok(signed.value), id;
    }

    /** The new room's id is a digest of creator, name and time; nothing here depends on which. */
    method CreateRoom(
      signer: DeviceId, creator: DeviceId, name: string, tsMs: nat, roomIdOf: (DeviceId, string, nat) -> RoomId)
      returns (r: Result<(RoomId, SignedEvent), RoomError>)
      requires Valid()
      modifies Repr
      ensures Valid() && old(Repr) <= Repr && fresh(Repr - old(Repr))
      ensures r == Err(EventFailed(AuthorMismatch)) <==> signer != creator
      ensures r.Err? ==> signer != creator && forall q :: ViewOf(q) == old(ViewOf(q))
      ensures r.Ok? ==>
                var (room, ev) := r.value;
                && room == roomIdOf(creator, name, tsMs)
                && Verified(ev) && ev.body.kind == EventKind.CreateRoom && ev.body.roomId == room
                && ev.body.payload == CreateRoomPayload(creator, name) && ev.body.authorDevice == creator
                && ViewOf(room).Some? && ev.id in ViewOf(room).value.ids
                && match old(ViewOf(room))
                   case None => ViewOf(room).value == RoomView(name, creator, map[creator := Joined], {ev.id}, {ev.id})
                   case Some(v) =>
                     var now := ViewOf(room).value;
                     now.name == v.name && now.creator == v.creator && now.members == v.members
      ensures forall q | q != roomIdOf(creator, name, tsMs) :: ViewOf(q) == old(ViewOf(q))
    {
      hide RoomDag.Valid, TipsOf, OnlyRefusedOnTips;
      var room := roomIdOf(creator, name, tsMs);
      var body := UnsignedEvent(room, [], EventKind.CreateRoom, CreateRoomPayload(creator, name), creator, tsMs);
      var signed := SignEvent(signer, body);
      if signed.Err? {
        return Err(EventFailed(signed.error));
      }
      assert ParentsOf(signed.value.id) == [];
      var applied := ApplyEvent(signed.value);
      if applied.Err? {
        assert false;
      }
      return Ok((room, signed.value));
    }

    /**
     Any list of local calls on any rooms. From where the given room exists, which is the beginning or the call
     before `from`, its members go through a run of the membership machine with one step for each call on it.
     */
    method AuthorAll(calls: seq<LocalCall>, roomIdOf: (DeviceId, string, nat) -> RoomId, room: RoomId)
      returns (ghost from: nat, ghost states: seq<Members>)
      requires Valid()
      modifies Repr
      ensures Valid() && fresh(Repr - old(Repr))
      ensures old(ViewOf(room)).Some? ==>
                && ViewOf(room).Some? && from == 0
                && LocalRun(old(ViewOf(room)).value.members, states, CallsOn(calls, room))
                && states[|states| - 1] == ViewOf(room).value.members
      ensures old(ViewOf(room)).None? && ViewOf(room).Some? ==>
                && 0 < from <= |calls| && calls[from - 1].Creating?
                && var c := calls[from - 1];
                   && roomIdOf(c.creator, c.name, c.tsMs) == room && ViewOf(room).value.name == c.name
                   && LocalRun(map[c.creator := Joined], states, CallsOn(calls[from..], room))
                   && states[|states| - 1] == ViewOf(room).value.members
    {
      hide RoomDag.Valid, RoomState.Valid, RoomRegistry.ViewOf, Folded, Authored, LocalRun, LocalStep, Allowed, CallsOn;
      from, states := 0, [];
      if ViewOf(room).Some? {
        states := [ViewOf(room).value.members];
        RunBegins(calls, 0, room, states[0]);
      }
      ghost var existed, start := ViewOf(room).Some?, if ViewOf(room).Some? then ViewOf(room).value.members else map[];
      for i := 0 to |calls|
        invariant Valid() && fresh(Repr - old(Repr))
        invariant existed ==> ViewOf(room).Some? && from == 0 && start == old(ViewOf(room)).value.members
        invariant !existed && ViewOf(room).Some? ==>
                    && 0 < from <= i && calls[from - 1].Creating? && start == map[calls[from - 1].creator := Joined]
                    && roomIdOf(calls[from - 1].creator, calls[from - 1].name, calls[from - 1].tsMs) == room
                    && ViewOf(room).value.name == calls[from - 1].name
        invariant ViewOf(room).Some? ==>
                    && |states| > 0 && states[|states| - 1] == ViewOf(room).value.members
                    && LocalRun(start, states, CallsOn(calls[from..i], room))
      {
        ghost var v := ViewOf(room);
        match calls[i] {
          case Creating(signer, creator, name, tsMs) =>
            var created := CreateRoom(signer, creator, name, tsMs, roomIdOf);
            if v.None? && ViewOf(room).Some? {
              start := map[creator := Joined];
              from, states := i + 1, [start];
              RunBegins(calls, i + 1, room, start);
            } else if v.Some? {
              RunIdles(start, states, calls, from, i, room);
            }
          case Member(at, c, tsMs) =>
            var answer, id := MembershipEvent(c.signer, at, c.actor, c.target, c.action, tsMs);
            if v.Some? {
              if at == room {
                RunGoesOn(start, states, calls, from, i, room, ViewOf(room).value.members);
                states := states + [ViewOf(room).value.members];
              } else {
                RunIdles(start, states, calls, from, i, room);
              }
            }
        }
      }
      assert from <= |calls| ==> calls[from..|calls|] == calls[from..];
      assert calls[0..] == calls;
    }

    /**
     A device leaves, and then any local calls are made on any rooms. Unless one of them is an invite of it by a
     device joined at that moment, it may not send to the room.
     */
    method LeaveForGood(
      room: RoomId, d: DeviceId, tsMs: nat, calls: seq<LocalCall>, roomIdOf: (DeviceId, string, nat) -> RoomId)
      returns (left: Result<SignedEvent, RoomError>, answer: Result<(), RoomError>, ghost states: seq<Members>)
      requires Valid()
      modifies Repr
      ensures Valid()
      ensures left.Ok? <==>
                && old(ViewOf(room)).Some?
                && (|| StateOf(old(ViewOf(room)).value.members, d) == Some(Joined)
                    || StateOf(old(ViewOf(room)).value.members, d) == Some(Invited))
      ensures left.Ok? ==>
                && states != [] && StateOf(states[0], d) == Some(Left)
                && LocalRun(states[0], states, CallsOn(calls, room))
                && (|| answer == Err(NotMember(d))
                    || exists k: nat | k < |CallsOn(calls, room)| :: InvitedBy(states, CallsOn(calls, room), k, d))
    {
      hide RoomDag.Valid, RoomState.Valid, RoomRegistry.ViewOf, Folded, Authored, LocalRun, LocalStep, Allowed, CallsOn,
           InvitedBy;
      ghost var id, from;
      ghost var before := if ViewOf(room).Some? then ViewOf(room).value.members else map[];
      MayLeave(before, d);
      left, id := MembershipEvent(d, room, d, d, Leave, tsMs);
      ghost var after := if ViewOf(room).Some? then ViewOf(room).value.members else map[];
      from, states := AuthorAll(calls, roomIdOf, room);
      answer := AssertCanMessage(room, d);
      if left.Ok? {
        RunMeans(after, states, CallsOn(calls, room));
        LeftIsOut(before, Call(d, d, d, Leave), states[0]);
        if IsJoined(ViewOf(room).value.members, d) {
          var k := LetInByInvite(states[0], states, CallsOn(calls, room), 0, |states| - 1, d);
        }
      }
    }

    method AssertCanMessage(room: RoomId, author: DeviceId) returns (r: Result<(), RoomError>)
      requires Valid()
      ensures r == if ViewOf(room).None? then Err(UnknownRoom)
                   else if IsJoined(ViewOf(room).value.members, author) then Ok(()) else Err(NotMember(author))
    {
      if room !in rooms {
        return Err(UnknownRoom);
      }
      return if IsJoined(rooms[room].members, author) then Ok(()) else Err(NotMember(author));
    }
  }

  /** A verified membership event of the actor whose parents are the room's cached tips, all of them known. */
  ghost predicate Authored(
    v: RoomView, id: EventId, room: RoomId, actor: DeviceId, target: DeviceId, action: MembershipAction, tsMs: nat)
  {
    && id.Digest? && Verified(EventOf(id)) && ParentsKnown(v.ids, id) && Elements(ParentsOf(id)) == v.tips
    && id.body.roomId == room && id.body.kind == Membership && id.body.authorDevice == actor && id.body.tsMs == tsMs
    && id.body.payload == MembershipPayload(target, action, actor)
  }

  lemma FirstTip(id: EventId)
    requires ParentsKnown({}, id)
    ensures TipsOf({id}) == {id} && Elements(ParentsOf(id)) == {}
  {
  }

  /** What the cached tips miss: exactly a refused invite or join. */
  lemma CachedTipsAreFresh(v: RoomView, id: EventId, target: DeviceId, action: MembershipAction)
    requires v.tips == TipsOf(v.ids) && ParentClosed(v.ids) && CanIngest(v.ids, id)
    ensures Folded(v, id, target, action).tips == TipsOf(Folded(v, id, target, action).ids)
       <==> !Refused(v.members, target, action)
  {
    TipsAfterAccept(v.ids, id);
    TipsAreMembers(v.ids);
  }

  datatype LocalCall =
    | Creating(signer: DeviceId, creator: DeviceId, name: string, tsMs: nat)
    | Member(room: RoomId, call: Call, tsMs: nat)

  /** The membership calls on one room. */
  ghost function CallsOn(calls: seq<LocalCall>, room: RoomId): seq<Call> {
    if calls == [] then [] else
    var last := calls[|calls| - 1];
    CallsOn(calls[..|calls| - 1], room) + if last.Member? && last.room == room then [last.call] else []
  }

  lemma RunBegins(calls: seq<LocalCall>, i: nat, room: RoomId, start: Members)
    requires i <= |calls|
    ensures LocalRun(start, [start], CallsOn(calls[i..i], room))
  {
  }

  lemma CallsOnSnoc(calls: seq<LocalCall>, from: nat, i: nat, room: RoomId)
    requires from <= i < |calls|
    ensures CallsOn(calls[from..i + 1], room)
         == CallsOn(calls[from..i], room) + if calls[i].Member? && calls[i].room == room then [calls[i].call] else []
  {
    assert calls[from..i + 1][..i - from] == calls[from..i];
  }

  lemma RunIdles(start: Members, states: seq<Members>, calls: seq<LocalCall>, from: nat, i: nat, room: RoomId)
    requires from <= i < |calls| && !(calls[i].Member? && calls[i].room == room)
    requires LocalRun(start, states, CallsOn(calls[from..i], room))
    ensures LocalRun(start, states, CallsOn(calls[from..i + 1], room))
  {
    CallsOnSnoc(calls, from, i, room);
    assert CallsOn(calls[from..i], room) + [] == CallsOn(calls[from..i], room);
  }

  lemma RunGoesOn(start: Members, states: seq<Members>, calls: seq<LocalCall>, from: nat, i: nat, room: RoomId,
                  after: Members)
    requires from <= i < |calls| && calls[i].Member? && calls[i].room == room
    requires LocalRun(start, states, CallsOn(calls[from..i], room))
    requires LocalStep(states[|states| - 1], calls[i].call, after)
    ensures LocalRun(start, states + [after], CallsOn(calls[from..i + 1], room))
  {
    hide LocalStep;
    CallsOnSnoc(calls, from, i, room);
  }

  /**
   What a verified event, whoever has authored it, and the answer to it mean for the members of a known room: only
   a membership event that is taken in changes anything, and only its target's state, and only a joined device can
   write anything else to the room.
   */
  lemma EventsAndMembers(v: RoomView, ev: SignedEvent, now: Option<RoomView>, r: Result<bool, RoomError>)
    requires Verified(ev) && now == AfterEvent(Some(v), ev) && Reply(Some(v), ev, r)
    ensures now.Some? && now.value.name == v.name && now.value.creator == v.creator
    ensures ev.body.kind != Membership || r != Ok(true) ==> now.value.members == v.members
    ensures ev.body.kind == Membership && r == Ok(true) ==>
              && ev.body.payload.MembershipPayload?
              && var target, action := ev.body.payload.target, ev.body.payload.action;
                 && (action == Invite ==> now.value.members == v.members[target := Invited])
                 && (action == Join ==> now.value.members == v.members[target := Joined])
                 && (action == Leave ==> now.value.members == v.members[target := Left])
                 && (action == Ban ==> now.value.members == v.members[target := Banned])
                 && (action == Invite || action == Join ==> StateOf(v.members, target) != Some(Banned))
    ensures ev.body.kind != Membership && ev.body.kind != EventKind.CreateRoom
            && StateOf(v.members, ev.body.authorDevice) != Some(Joined) ==>
              r == Err(NotMember(ev.body.authorDevice)) && now == Some(v)
    ensures r == Ok(true) ==>
              ev.id !in v.ids && now.value.ids == v.ids + {ev.id} && now.value.tips == TipsOf(now.value.ids)
    ensures r == Ok(false) ==> ev.id in v.ids && now == Some(v)
  {
  }

  /** Of arbitrary events, in contrast to authored ones, only a leave takes a device out of its ban. */
  lemma OnlyLeaveLiftsBan(v: RoomView, id: EventId, target: DeviceId, action: MembershipAction)
    requires CanIngest(v.ids, id) && IsIn(v.members, target, Banned)
    ensures IsIn(Folded(v, id, target, action).members, target, Banned) <==> action != Leave
  {
  }

  // ----- Runs of locally authored membership events -----

  datatype Call = Call(signer: DeviceId, actor: DeviceId, target: DeviceId, action: MembershipAction)

  /** Who may do what: members invite and ban, and one joins on an invite and leaves for oneself. */
  predicate Allowed(members: Members, c: Call) {
    && c.signer == c.actor
    && match c.action
       case Invite => IsJoined(members, c.actor) && !IsIn(members, c.target, Banned)
       case Ban => IsJoined(members, c.actor)
       case Join => c.actor == c.target && (IsJoined(members, c.target) || IsIn(members, c.target, Invited))
       case Leave => c.actor == c.target && (IsJoined(members, c.target) || IsIn(members, c.target, Invited))
  }

  /** A call that is not allowed leaves the members as they are. */
  ghost predicate LocalStep(before: Members, c: Call, after: Members) {
    if !Allowed(before, c) then after == before else
    match c.action
    case Invite => after == before[c.target := Invited]
    case Ban => after == before[c.target := Banned]
    case Join => after == before[c.target := Joined]
    case Leave => after == before[c.target := Left]
  }

  lemma MayLeave(members: Members, d: DeviceId)
    ensures Allowed(members, Call(d, d, d, Leave)) <==>
              StateOf(members, d) == Some(Joined) || StateOf(members, d) == Some(Invited)
  {
  }

  lemma LeftIsOut(before: Members, c: Call, after: Members)
    requires LocalStep(before, c, after) && Allowed(before, c) && c.action == Leave
    ensures StateOf(after, c.target) == Some(Left)
    ensures !IsJoined(after, c.target) && !IsIn(after, c.target, Invited)
  {
  }

  /** Every authored call that passes the checks is such a step, whatever becomes of it. */
  lemma AuthoredStep(v: RoomView, id: EventId, room: RoomId, c: Call, tsMs: nat)
    requires OnlyRefusedOnTips(v) && Authored(v, id, room, c.actor, c.target, c.action, tsMs)
    requires c.signer == c.actor && RefusalOf(v.members, c.actor, c.target, c.action) == None
    ensures LocalStep(v.members, c, Folded(v, id, c.target, c.action).members)
    ensures Folded(v, id, c.target, c.action).name == v.name
    ensures Allowed(v.members, c) <==> !Refused(v.members, c.target, c.action)
    ensures id in v.ids ==> Refused(v.members, c.target, c.action)
    ensures Refused(v.members, c.target, c.action) ==> c.action == Invite && IsIn(v.members, c.target, Banned)
  {
    if id in v.ids {
      assert Elements(ParentsOf(id)) == v.tips;
    }
  }

  ghost predicate LocalRun(start: Members, states: seq<Members>, calls: seq<Call>) {
    && |states| == |calls| + 1 && states[0] == start
    && forall i | 0 <= i < |calls| :: LocalStep(states[i], calls[i], states[i + 1])
  }

  lemma RunMeans(start: Members, states: seq<Members>, calls: seq<Call>)
    requires LocalRun(start, states, calls)
    ensures |states| == |calls| + 1 && states[0] == start
  {
  }

  /** The i-th call, by a device joined at that moment, makes `d` an invited member. */
  ghost predicate InvitedBy(states: seq<Members>, calls: seq<Call>, i: nat, d: DeviceId)
    requires |states| == |calls| + 1 && i < |calls|
  {
    && calls[i].action == Invite && calls[i].target == d
    && IsJoined(states[i], calls[i].actor) && IsIn(states[i + 1], d, Invited)
  }

  /** Calls before the n-th that lead from the creator to `d`, each an invite by the device invited before. */
  ghost predicate InviteChain(
    states: seq<Members>, calls: seq<Call>, creator: DeviceId, n: nat, d: DeviceId, chain: seq<nat>)
    requires |states| == |calls| + 1 && n <= |calls|
    decreases chain
  {
    if chain == [] then d == creator else
    var i := chain[|chain| - 1];
    && i < n && InvitedBy(states, calls, i, d)
    && InviteChain(states, calls, creator, i, calls[i].actor, chain[..|chain| - 1])
  }

  /** Every device that is ever joined, or invited, is linked to the creator by a chain of such invites. */
  lemma {:induction false} EveryoneIsVouchedFor(
    creator: DeviceId, states: seq<Members>, calls: seq<Call>, n: nat, d: DeviceId)
    returns (chain: seq<nat>)
    requires LocalRun(map[creator := Joined], states, calls) && n <= |calls|
    requires IsJoined(states[n], d) || IsIn(states[n], d, Invited)
    ensures InviteChain(states, calls, creator, n, d, chain)
  {
    if n == 0 {
      chain := [];
    } else {
      var c := calls[n - 1];
      assert LocalStep(states[n - 1], c, states[n]);
      if states[n] != states[n - 1] && c.target == d && c.action == Invite {
        var front := EveryoneIsVouchedFor(creator, states, calls, n - 1, c.actor);
        chain := front + [n - 1];
        assert chain[..|chain| - 1] == front;
      } else {
        chain := EveryoneIsVouchedFor(creator, states, calls, n - 1, d);
      }
    }
  }

  /** A banned device stays banned. */
  lemma {:induction false} BanIsPermanent(
    start: Members, states: seq<Members>, calls: seq<Call>, i: nat, j: nat, d: DeviceId)
    requires LocalRun(start, states, calls) && i <= j <= |calls| && IsIn(states[i], d, Banned)
    ensures IsIn(states[j], d, Banned)
  {
    if i < j {
      BanIsPermanent(start, states, calls, i, j - 1, d);
      assert LocalStep(states[j - 1], calls[j - 1], states[j]);
    }
  }

  /**
   Whose doing a device's state is: if it is another one than before, then the last call that changed it was an
   invite or a ban by a device joined at that moment, or the device's own join on an invite, or its own leave.
   */
  lemma {:induction false} ChangesHaveAuthors(
    start: Members, states: seq<Members>, calls: seq<Call>, i: nat, j: nat, d: DeviceId)
    returns (k: nat)
    requires LocalRun(start, states, calls) && i <= j <= |calls| && StateOf(states[i], d) != StateOf(states[j], d)
    ensures i <= k < j && StateOf(states[k], d) != StateOf(states[k + 1], d) == StateOf(states[j], d)
    ensures calls[k].signer == calls[k].actor && calls[k].target == d
    ensures match StateOf(states[j], d)
            case None => false
            case Some(Invited) => calls[k].action == Invite && IsJoined(states[k], calls[k].actor)
            case Some(Banned) => calls[k].action == Ban && IsJoined(states[k], calls[k].actor)
            case Some(Joined) => calls[k].action == Join && calls[k].actor == d && IsIn(states[k], d, Invited)
            case Some(Left) => calls[k].action == Leave && calls[k].actor == d
  {
    assert LocalStep(states[j - 1], calls[j - 1], states[j]);
    if StateOf(states[j - 1], d) == StateOf(states[j], d) {
      k := ChangesHaveAuthors(start, states, calls, i, j - 1, d);
    } else {
      k := j - 1;
    }
  }

  /** One that is neither joined nor invited, as after leaving, is let in again by an invite only. */
  lemma {:induction false} LetInByInvite(
    start: Members, states: seq<Members>, calls: seq<Call>, i: nat, j: nat, d: DeviceId)
    returns (k: nat)
    requires LocalRun(start, states, calls) && i <= j <= |calls|
    requires !IsJoined(states[i], d) && !IsIn(states[i], d, Invited)
    requires IsJoined(states[j], d) || IsIn(states[j], d, Invited)
    ensures i <= k < j && InvitedBy(states, calls, k, d)
    ensures IsJoined(states[j], d) ==> exists m | k < m < j :: calls[m] == Call(d, d, d, Join)
  {
    k := ChangesHaveAuthors(start, states, calls, i, j, d);
    if IsJoined(states[j], d) {
      var m := k;
      k := ChangesHaveAuthors(start, states, calls, i, m, d);
      assert calls[m] == Call(d, d, d, Join);
    }
  }
}
