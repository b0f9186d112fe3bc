/**
 Whole runs of several devices that share room sessions: the pre-encrypt export of a send reaches every
 device that takes part in the room so far (crates/td-node/src/rpc.rs, crates/td-crypto/src/e2ee.rs).
 */
module GroupProtocol {
  import opened Wrappers
  import opened Events
  import opened Megolm

  datatype Sent = Sent(room: RoomId, ct: Ciphertext, readers: set<DeviceId>)

  /**
   `saved` is what each device's file holds, `owner` maps every session in use to its room, and `members` are
   the devices that have sent or received in a room.
   */
  datatype World = World(
    devices: map<DeviceId, Keys>, saved: map<DeviceId, Keys>,
    members: map<RoomId, set<DeviceId>>, owner: map<SessionId, RoomId>, sent: set<Sent>)

  const GENESIS: World := World(map[], map[], map[], map[], {})

  /**
   A send writes the sender's file after creating a session and after encrypting; `created` and `advanced` say
   whether those writes succeed. Importing a package writes nothing.
   */
  datatype Step =
    | Send(sender: DeviceId, room: RoomId, drawn: SessionId, receivers: set<DeviceId>, created: bool, advanced: bool)
    | Restart(device: DeviceId)

  function KeysOf(w: World, d: DeviceId): Keys {
    if d in w.devices then w.devices[d] else NO_KEYS
  }

  function SavedOf(w: World, d: DeviceId): Keys {
    if d in w.saved then w.saved[d] else NO_KEYS
  }

  function MembersOf(w: World, room: RoomId): set<DeviceId> {
    if room in w.members then w.members[room] else {}
  }

  /** The drawn id is unused, and the package goes to everybody who takes part so far; others may join. */
  predicate Allowed(w: World, s: Step) {
    match s
    case Send(sender, room, drawn, receivers, _, _) =>
      drawn !in w.owner && MembersOf(w, room) <= receivers + {sender}
    case Restart(_) => true
  }

  /** The sender's keys when it exports: an outbound session for the room exists by then. */
  function Prepared(w: World, s: Step): (k: Keys)
    requires s.Send?
    ensures s.room in k.outbound
  {
    Created(KeysOf(w, s.sender), s.room, s.drawn)
  }

  function CiphertextOf(w: World, s: Step): Ciphertext
    requires s.Send?
  {
    var out := Prepared(w, s).outbound[s.room];
    Ciphertext(out.sessionId, out.index)
  }

  /** What the sender's file holds after a send. */
  function SavedAfter(w: World, s: Step): Keys
    requires s.Send?
  {
    if s.advanced then Encrypted(Prepared(w, s), s.room)
    else if s.created && s.room !in KeysOf(w, s.sender).outbound then Prepared(w, s)
    else SavedOf(w, s.sender)
  }

  /** A send: create if missing, export, encrypt, then every receiver imports. A restart reads the file. */
  function Next(w: World, s: Step): World {
    match s
    case Restart(device) => w.(devices := w.devices[device := SavedOf(w, device)])
    case Send(sender, room, drawn, receivers, _, _) =>
      var ready := Prepared(w, s);
      var pkg := Exported(ready, room);
      World(
        map d | d in w.devices.Keys + receivers + {sender} ::
          if d == sender then Encrypted(ready, room)
          else if d in receivers then Imported(KeysOf(w, d), pkg)
          else KeysOf(w, d),
        w.saved[sender := SavedAfter(w, s)],
        w.members[room := receivers + {sender}],
        w.owner[ready.outbound[room].sessionId := room],
        w.sent + {Sent(room, CiphertextOf(w, s), receivers + {sender})})
  }

  function Run(w: World, steps: seq<Step>): World {
    if steps == [] then w else Next(Run(w, steps[..|steps| - 1]), steps[|steps| - 1])
  }

  predicate AllowedRun(w: World, steps: seq<Step>) {
    steps == []
    || (&& AllowedRun(w, steps[..|steps| - 1])
        && Allowed(Run(w, steps[..|steps| - 1]), steps[|steps| - 1]))
  }

  /** The sender's part of a send, on its device: the package is made before the message is encrypted. */
  method EncryptForRoom(
    device: E2eeDevice, file: KeyFile, ghost w: World, room: RoomId, drawn: SessionId,
    ghost receivers: set<DeviceId>, created: bool, advanced: bool)
    returns (pkg: RoomPackage, ct: Ciphertext)
    requires device.State() == KeysOf(w, device.deviceId)
    requires file.Stored() == SavedOf(w, device.deviceId) && file.BelongsTo(device.deviceId)
    modifies device, file
    ensures file.BelongsTo(device.deviceId)
    ensures var s := Send(device.deviceId, room, drawn, receivers, created, advanced);
            && device.State() == KeysOf(Next(w, s), device.deviceId)
            && file.Stored() == SavedOf(Next(w, s), device.deviceId)
            && ct == CiphertextOf(w, s)
            && pkg == Exported(Prepared(w, s), room)
  {
    if room !in device.outbound {
      var _ := device.CreateGroupSession(room, drawn);
      file.Save(device, created);
    }
    var exported := device.ExportRoomOutbound(room);
    var encrypted := device.MegolmEncrypt(room);
    file.Save(device, advanced);
    return exported.value, encrypted.value;
  }

  /** A receiver's part of a send. Nothing is written to the receiver's file. */
  method ReceivePackage(device: E2eeDevice, ghost w: World, ghost s: Step, pkg: RoomPackage)
    returns (r: Result<SessionId, E2eeError>)
    requires s.Send? && device.deviceId in s.receivers && device.deviceId != s.sender
    requires device.State() == KeysOf(w, device.deviceId) && pkg == Exported(Prepared(w, s), s.room)
    modifies device
    ensures r.Ok? && device.State() == KeysOf(Next(w, s), device.deviceId)
    ensures SavedOf(Next(w, s), device.deviceId) == SavedOf(w, device.deviceId)
  {
    r := device.ImportRoomOutbound(pkg);
  }

  /** A restart: the device is what its file holds. */
  method Reopen(deviceId: DeviceId, file: KeyFile, ghost w: World) returns (device: E2eeDevice)
    requires file.Stored() == SavedOf(w, deviceId) && file.BelongsTo(deviceId)
    ensures fresh(device) && device.deviceId == deviceId
    ensures device.State() == KeysOf(Next(w, Restart(deviceId)), deviceId)
  {
    var loaded := file.Load(deviceId);
    return loaded.value;
  }

  // ----- The invariant -----

  /** Whoever has an outbound session knows it inbound too, and the session is the room's. */
  ghost predicate OutboundOk(w: World) {
    forall d, room {:trigger KeysOf(w, d).outbound[room]} | room in KeysOf(w, d).outbound ::
      var sid := KeysOf(w, d).outbound[room].sessionId;
      && sid in w.owner && w.owner[sid] == room
      && sid in KeysOf(w, d).inbound
  }

  ghost predicate InboundOk(w: World) {
    forall d, sid {:trigger sid in KeysOf(w, d).inbound} | sid in KeysOf(w, d).inbound ::
      sid in w.owner && d in MembersOf(w, w.owner[sid])
  }

  /** Nobody's first decryptable index of a session lies beyond where anybody will next encrypt with it. */
  ghost predicate NobodyLate(w: World) {
    forall d, e, room {:trigger KeysOf(w, d).inbound, KeysOf(w, e).outbound[room]} | room in KeysOf(w, e).outbound ::
      var out := KeysOf(w, e).outbound[room];
      out.sessionId in KeysOf(w, d).inbound ==> KeysOf(w, d).inbound[out.sessionId] <= out.index
  }

  ghost predicate AllReadable(w: World) {
    forall sent, d | sent in w.sent && d in sent.readers :: CanDecrypt(KeysOf(w, d), sent.ct)
  }

  /** What a file holds is an earlier state of its device, and reads itself. */
  ghost predicate FilesOk(w: World) {
    forall d :: Precedes(SavedOf(w, d), KeysOf(w, d)) && ReadsItself(SavedOf(w, d))
  }

  /** A message under this session was sent to, or by, this device. */
  ghost predicate Used(w: World, d: DeviceId, sid: SessionId) {
    exists sent | sent in w.sent :: sent.ct.sessionId == sid && d in sent.readers
  }

  ghost predicate AllUsed(w: World) {
    forall d, sid {:trigger Used(w, d, sid)} | sid in KeysOf(w, d).inbound :: Used(w, d, sid)
  }

  ghost predicate Inv(w: World) {
    OutboundOk(w) && InboundOk(w) && NobodyLate(w) && AllReadable(w)
  }

  /** With what is needed to judge a restart. */
  ghost predicate Coherent(w: World) {
    Inv(w) && FilesOk(w) && AllUsed(w)
  }

  /** The session a send encrypts with. */
  function SessionOf(w: World, s: Step): SessionId
    requires s.Send?
  {
    CiphertextOf(w, s).sessionId
  }

  /**
   What a send does to one device, before (`k`) and after (`k'`). Only the send's own session is touched. Those
   it reaches can decrypt from its index or earlier and will encrypt with it at its index or later; the
   others do not know it.
   */
  ghost predicate Effect(w: World, s: Step, d: DeviceId, k: Keys, k': Keys)
    requires s.Send?
  {
    var sid, i, reached := SessionOf(w, s), CiphertextOf(w, s).index, d == s.sender || d in s.receivers;
    && (forall x | x != sid :: x in k.inbound <==> x in k'.inbound)
    && (forall x | x in k.inbound :: x in k'.inbound && k'.inbound[x] == k.inbound[x])
    && (sid in k'.inbound <==> reached)
    && (sid in k'.inbound ==> k'.inbound[sid] <= i)
    && (forall r | r != s.room && r in k'.outbound :: r in k.outbound && k'.outbound[r] == k.outbound[r])
    && (s.room in k'.outbound ==>
          || (k'.outbound[s.room].sessionId == sid && i <= k'.outbound[s.room].index && reached)
          || (s.room in k.outbound && k'.outbound[s.room] == k.outbound[s.room] && k.outbound[s.room].sessionId != sid))
  }

  /** The session is new, or it is the room's. */
  lemma SessionIsTheRooms(w: World, s: Step)
    requires Inv(w) && s.Send? && Allowed(w, s)
    ensures var sid := SessionOf(w, s);
            || (sid == s.drawn && sid !in w.owner && CiphertextOf(w, s).index == 0)
            || (s.room in KeysOf(w, s.sender).outbound && sid == KeysOf(w, s.sender).outbound[s.room].sessionId
                && sid in w.owner && w.owner[sid] == s.room)
    ensures forall d | SessionOf(w, s) in KeysOf(w, d).inbound :: d == s.sender || d in s.receivers
    ensures forall d | SessionOf(w, s) in KeysOf(w, d).inbound ::
              KeysOf(w, d).inbound[SessionOf(w, s)] <= CiphertextOf(w, s).index
  {
    var k := KeysOf(w, s.sender);
    if s.room in k.outbound {
      var out := k.outbound[s.room];
      assert out.sessionId in w.owner && w.owner[out.sessionId] == s.room;
    }
  }

  lemma SendEffect(w: World, s: Step, d: DeviceId)
    requires Inv(w) && s.Send? && Allowed(w, s)
    ensures Effect(w, s, d, KeysOf(w, d), KeysOf(Next(w, s), d))
  {
    hide *;
    SessionIsTheRooms(w, s);
    NextKeys(w, s, d);
    if d == s.sender {
      SenderEffect(w, s);
    } else if d in s.receivers {
      ReceiverEffect(w, s, d);
    } else {
      BystanderEffect(w, s, d);
    }
  }

  lemma SenderEffect(w: World, s: Step)
    requires Inv(w) && s.Send? && Allowed(w, s)
    ensures Effect(w, s, s.sender, KeysOf(w, s.sender), Encrypted(Prepared(w, s), s.room))
  {
    hide Inv, InboundOk, NobodyLate, AllReadable, Next;
    SessionIsTheRooms(w, s);
    HeldSessions(w, s.sender, s.room);
  }

  lemma ReceiverEffect(w: World, s: Step, d: DeviceId)
    requires Inv(w) && s.Send? && Allowed(w, s) && d in s.receivers
    ensures Effect(w, s, d, KeysOf(w, d), Imported(KeysOf(w, d), Exported(Prepared(w, s), s.room)))
  {
    hide Inv, InboundOk, OutboundOk, NobodyLate, AllReadable, Next;
    SessionIsTheRooms(w, s);
    HeldSessions(w, d, s.room);
  }

  lemma BystanderEffect(w: World, s: Step, d: DeviceId)
    requires Inv(w) && s.Send? && Allowed(w, s) && d != s.sender && d !in s.receivers
    ensures Effect(w, s, d, KeysOf(w, d), KeysOf(w, d))
  {
    hide Inv, InboundOk, OutboundOk, NobodyLate, AllReadable, Next;
    SessionIsTheRooms(w, s);
    HeldSessions(w, d, s.room);
  }

  lemma HeldSessions(w: World, d: DeviceId, room: RoomId)
    requires Inv(w)
    ensures room in KeysOf(w, d).outbound ==>
              var sid := KeysOf(w, d).outbound[room].sessionId;
              sid in KeysOf(w, d).inbound && sid in w.owner && w.owner[sid] == room && d in MembersOf(w, room)
    ensures forall sid | sid in KeysOf(w, d).inbound :: sid in w.owner
  {
  }

  lemma NextKeys(w: World, s: Step, d: DeviceId)
    requires s.Send?
    ensures KeysOf(Next(w, s), d) ==
              if d == s.sender then Encrypted(Prepared(w, s), s.room)
              else if d in s.receivers then Imported(KeysOf(w, d), Exported(Prepared(w, s), s.room))
              else KeysOf(w, d)
  {
  }

  lemma SendKeepsInv(w: World, s: Step)
    requires Inv(w) && s.Send? && Allowed(w, s)
    ensures Inv(Next(w, s))
  {
    var w' := Next(w, s);
    SessionIsTheRooms(w, s);
    forall d ensures Effect(w, s, d, KeysOf(w, d), KeysOf(w', d)) {
      SendEffect(w, s, d);
    }
    StillOutboundOk(w, s, w');
    StillInboundOk(w, s, w');
    StillNobodyLate(w, s, w');
    StillReadable(w, s, w');
  }

  ghost predicate After(w: World, s: Step, w': World)
    requires s.Send?
  {
    && w'.owner == w.owner[SessionOf(w, s) := s.room]
    && w'.members == w.members[s.room := s.receivers + {s.sender}]
    && w'.sent == w.sent + {Sent(s.room, CiphertextOf(w, s), s.receivers + {s.sender})}
    && forall d :: Effect(w, s, d, KeysOf(w, d), KeysOf(w', d))
  }

  lemma StillOutboundOk(w: World, s: Step, w': World)
    requires Inv(w) && s.Send? && Allowed(w, s) && After(w, s, w')
    ensures OutboundOk(w')
  {
    hide InboundOk, NobodyLate, AllReadable, Allowed, Next;
    SessionIsTheRooms(w, s);
    forall d, room | room in KeysOf(w', d).outbound
      ensures var sid := KeysOf(w', d).outbound[room].sessionId;
              sid in w'.owner && w'.owner[sid] == room && sid in KeysOf(w', d).inbound
    {
      assert Effect(w, s, d, KeysOf(w, d), KeysOf(w', d));
    }
  }

  lemma StillInboundOk(w: World, s: Step, w': World)
    requires Inv(w) && s.Send? && Allowed(w, s) && After(w, s, w')
    ensures InboundOk(w')
  {
    SessionIsTheRooms(w, s);
    forall d, sid | sid in KeysOf(w', d).inbound
      ensures sid in w'.owner && d in MembersOf(w', w'.owner[sid])
    {
      assert Effect(w, s, d, KeysOf(w, d), KeysOf(w', d));
    }
  }

  lemma NotLateFor(w: World, s: Step, d: DeviceId, e: DeviceId, kd: Keys, ke: Keys, room: RoomId)
    requires Inv(w) && s.Send? && Allowed(w, s)
    requires Effect(w, s, d, KeysOf(w, d), kd) && Effect(w, s, e, KeysOf(w, e), ke)
    requires room in ke.outbound && ke.outbound[room].sessionId in kd.inbound
    ensures kd.inbound[ke.outbound[room].sessionId] <= ke.outbound[room].index
  {
    SessionIsTheRooms(w, s);
    hide Next, Allowed, AllReadable, InboundOk, SessionOf, CiphertextOf;
    var sid, out := SessionOf(w, s), ke.outbound[room];
    if room != s.room {
      assert KeysOf(w, e).outbound[room] == out;
      assert w.owner[out.sessionId] == room;
    }
    if out.sessionId != sid {
      assert KeysOf(w, e).outbound[room] == out;
      assert kd.inbound[out.sessionId] == KeysOf(w, d).inbound[out.sessionId];
    }
  }

  lemma StillNobodyLate(w: World, s: Step, w': World)
    requires Inv(w) && s.Send? && Allowed(w, s) && After(w, s, w')
    ensures NobodyLate(w')
  {
    hide Effect, Inv, Allowed, Next;
    forall d, e, room | room in KeysOf(w', e).outbound
                        && KeysOf(w', e).outbound[room].sessionId in KeysOf(w', d).inbound
      ensures var out := KeysOf(w', e).outbound[room];
              KeysOf(w', d).inbound[out.sessionId] <= out.index
    {
      assert Effect(w, s, d, KeysOf(w, d), KeysOf(w', d));
      assert Effect(w, s, e, KeysOf(w, e), KeysOf(w', e));
      NotLateFor(w, s, d, e, KeysOf(w', d), KeysOf(w', e), room);
    }
  }

  lemma StillReadable(w: World, s: Step, w': World)
    requires Inv(w) && s.Send? && Allowed(w, s) && After(w, s, w')
    ensures AllReadable(w')
  {
    forall sent, d | sent in w'.sent && d in sent.readers ensures CanDecrypt(KeysOf(w', d), sent.ct) {
      assert Effect(w, s, d, KeysOf(w, d), KeysOf(w', d));
    }
  }

  // ----- Files and restarts -----

  /** Whoever can read all his own sessions: everybody in an invariant world. */
  lemma EveryoneReadsItself(w: World, d: DeviceId)
    requires Inv(w)
    ensures ReadsItself(KeysOf(w, d))
  {
    hide InboundOk, AllReadable;
    forall room | room in KeysOf(w, d).outbound
      ensures var out := KeysOf(w, d).outbound[room];
              out.sessionId in KeysOf(w, d).inbound && KeysOf(w, d).inbound[out.sessionId] <= out.index
    {
      var out := KeysOf(w, d).outbound[room];
      assert out.sessionId in KeysOf(w, d).inbound;
    }
  }

  lemma DrawnIsNew(w: World, s: Step, d: DeviceId)
    requires Inv(w) && s.Send? && Allowed(w, s)
    ensures s.drawn !in KeysOf(w, d).inbound
  {
    hide OutboundOk, NobodyLate, AllReadable;
    if s.drawn in KeysOf(w, d).inbound {
      assert false;
    }
  }

  lemma FileAfterSend(w: World, s: Step)
    requires Coherent(w) && s.Send? && Allowed(w, s)
    ensures Precedes(SavedAfter(w, s), Encrypted(Prepared(w, s), s.room)) && ReadsItself(SavedAfter(w, s))
  {
    hide *;
    CoherentMeans(w, s.sender);
    EveryoneReadsItself(w, s.sender);
    DrawnIsNew(w, s, s.sender);
    StepsFollow(KeysOf(w, s.sender), s.room, s.drawn);
    SavedAfterMeans(w, s);
    PrecedesTwice(SavedOf(w, s.sender), KeysOf(w, s.sender), Prepared(w, s));
    PrecedesTwice(SavedOf(w, s.sender), Prepared(w, s), Encrypted(Prepared(w, s), s.room));
    PrecedesItself(Encrypted(Prepared(w, s), s.room));
  }

  lemma CoherentMeans(w: World, d: DeviceId)
    requires Coherent(w)
    ensures Inv(w) && FilesOk(w) && AllUsed(w)
    ensures Precedes(SavedOf(w, d), KeysOf(w, d)) && ReadsItself(SavedOf(w, d))
  {
  }

  lemma SavedAfterMeans(w: World, s: Step)
    requires s.Send?
    ensures Prepared(w, s) == Created(KeysOf(w, s.sender), s.room, s.drawn)
    ensures SavedAfter(w, s) == Encrypted(Prepared(w, s), s.room) || SavedAfter(w, s) == Prepared(w, s)
         || SavedAfter(w, s) == SavedOf(w, s.sender)
  {
  }

  lemma PrecedesItself(k: Keys)
    ensures Precedes(k, k)
  {
  }

  lemma NextSaved(w: World, s: Step, d: DeviceId)
    ensures SavedOf(Next(w, s), d) == if s.Send? && d == s.sender then SavedAfter(w, s) else SavedOf(w, d)
  {
  }

  lemma StillFilesOk(w: World, s: Step, d: DeviceId)
    requires Coherent(w) && s.Send? && Allowed(w, s)
    ensures Precedes(SavedOf(Next(w, s), d), KeysOf(Next(w, s), d)) && ReadsItself(SavedOf(Next(w, s), d))
  {
    hide *;
    CoherentMeans(w, d);
    NextKeys(w, s, d);
    NextSaved(w, s, d);
    if d == s.sender {
      FileAfterSend(w, s);
    } else if d in s.receivers {
      ExportIsConsistent(w, s);
      ImportFollows(KeysOf(w, d), Exported(Prepared(w, s), s.room));
      PrecedesTwice(SavedOf(w, d), KeysOf(w, d), KeysOf(Next(w, s), d));
    }
  }

  lemma ExportIsConsistent(w: World, s: Step)
    requires s.Send?
    ensures Consistent(Exported(Prepared(w, s), s.room))
  {
  }

  lemma StillUsed(w: World, s: Step, d: DeviceId, sid: SessionId)
    requires Coherent(w) && s.Send? && Allowed(w, s) && sid in KeysOf(Next(w, s), d).inbound
    ensures Used(Next(w, s), d, sid)
  {
    var w' := Next(w, s);
    SendEffect(w, s, d);
    var now := Sent(s.room, CiphertextOf(w, s), s.receivers + {s.sender});
    assert now in w'.sent && w.sent <= w'.sent;
    hide Inv, FilesOk, Next, Allowed;
    if sid == SessionOf(w, s) {
      assert d in now.readers;
    } else {
      assert sid in KeysOf(w, d).inbound && Used(w, d, sid);
      var sent :| sent in w.sent && sent.ct.sessionId == sid && d in sent.readers;
      assert sent in w'.sent;
    }
  }

  lemma SendKeepsCoherent(w: World, s: Step)
    requires Coherent(w) && s.Send? && Allowed(w, s)
    ensures Coherent(Next(w, s))
  {
    hide Inv, Allowed, Next, Used, Precedes, ReadsItself;
    SendKeepsInv(w, s);
    forall d ensures Precedes(SavedOf(Next(w, s), d), KeysOf(Next(w, s), d)) && ReadsItself(SavedOf(Next(w, s), d)) {
      StillFilesOk(w, s, d);
    }
    forall d, sid | sid in KeysOf(Next(w, s), d).inbound ensures Used(Next(w, s), d, sid) {
      StillUsed(w, s, d, sid);
    }
  }

  /** The device's file holds exactly its sessions: it has learned and advanced nothing since it last wrote. */
  ghost predicate Clean(w: World, d: DeviceId) {
    SavedOf(w, d) == KeysOf(w, d)
  }

  /** The file lists every session the device knows. */
  ghost predicate ForgetsNothing(w: World, d: DeviceId) {
    KeysOf(w, d).inbound.Keys <= SavedOf(w, d).inbound.Keys
  }

  /** Nobody has joined a session beyond the index at which the file would resume it. */
  ghost predicate ResumesInTime(w: World, d: DeviceId) {
    forall e, room {:trigger KeysOf(w, e).inbound, SavedOf(w, d).outbound[room]} |
      e != d && room in SavedOf(w, d).outbound ::
      var out := SavedOf(w, d).outbound[room];
      out.sessionId in KeysOf(w, e).inbound ==> KeysOf(w, e).inbound[out.sessionId] <= out.index
  }

  ghost predicate Harmless(w: World, d: DeviceId) {
    ForgetsNothing(w, d) && ResumesInTime(w, d)
  }

  /** The world after a restart of `d`. */
  ghost predicate Resumed(w: World, w': World, d: DeviceId) {
    && w'.sent == w.sent && w'.owner == w.owner && w'.members == w.members
    && (forall e :: KeysOf(w', e) == if e == d then SavedOf(w, d) else KeysOf(w, e))
    && (forall e :: SavedOf(w', e) == SavedOf(w, e))
  }

  lemma AfterRestart(w: World, d: DeviceId)
    ensures Resumed(w, Next(w, Restart(d)), d)
  {
  }

  lemma SameInbound(w: World, d: DeviceId)
    requires FilesOk(w) && ForgetsNothing(w, d)
    ensures SavedOf(w, d).inbound == KeysOf(w, d).inbound
  {
    assert Precedes(SavedOf(w, d), KeysOf(w, d));
  }

  lemma CleanIsHarmless(w: World, d: DeviceId)
    requires Inv(w) && Clean(w, d)
    ensures Harmless(w, d)
  {
    hide OutboundOk, InboundOk, AllReadable;
  }

  /** Only importing a package, or a write that fails, makes a clean device unclean. */
  lemma CleanUntilImport(w: World, s: Step, d: DeviceId)
    requires s.Send? ==> if d == s.sender then s.advanced else d !in s.receivers
    requires Clean(w, d) || (s.Send? && d == s.sender)
    ensures Clean(Next(w, s), d)
  {
  }

  /**
   What a restart loses at once: nothing that was ever sent to the device exactly if its file lists every
   session it knows.
   */
  lemma RestartLosesExactly(w: World, d: DeviceId)
    requires Coherent(w)
    ensures AllReadable(Next(w, Restart(d))) <==> ForgetsNothing(w, d)
  {
    hide *;
    CoherentMeans(w, d);
    AfterRestart(w, d);
    if ForgetsNothing(w, d) {
      SameInbound(w, d);
      ResumedReadable(w, Next(w, Restart(d)), d);
    } else {
      ForgottenIsUnreadable(w, Next(w, Restart(d)), d);
    }
  }

  lemma ResumedReadable(w: World, w': World, d: DeviceId)
    requires Resumed(w, w', d) && Inv(w) && SavedOf(w, d).inbound == KeysOf(w, d).inbound
    ensures AllReadable(w')
  {
    hide OutboundOk, InboundOk, NobodyLate, KeysOf, SavedOf;
    forall sent, e | sent in w'.sent && e in sent.readers ensures CanDecrypt(KeysOf(w', e), sent.ct) {
      assert CanDecrypt(KeysOf(w, e), sent.ct);
      assert KeysOf(w', e).inbound == KeysOf(w, e).inbound;
    }
  }

  lemma ForgottenIsUnreadable(w: World, w': World, d: DeviceId)
    requires Resumed(w, w', d) && AllUsed(w) && !ForgetsNothing(w, d)
    ensures !AllReadable(w')
  {
    hide KeysOf, SavedOf;
    var sid :| sid in KeysOf(w, d).inbound && sid !in SavedOf(w, d).inbound;
    assert Used(w, d, sid);
    var sent :| sent in w.sent && sent.ct.sessionId == sid && d in sent.readers;
    assert sent in w'.sent && !CanDecrypt(KeysOf(w', d), sent.ct);
  }

  lemma ResumedOwned(w: World, w': World, d: DeviceId)
    requires Resumed(w, w', d) && OutboundOk(w) && InboundOk(w)
    requires Precedes(SavedOf(w, d), KeysOf(w, d)) && ReadsItself(SavedOf(w, d))
    ensures OutboundOk(w') && InboundOk(w')
  {
    hide KeysOf, SavedOf;
    forall e, room | room in KeysOf(w', e).outbound
      ensures var sid := KeysOf(w', e).outbound[room].sessionId;
              sid in w'.owner && w'.owner[sid] == room && sid in KeysOf(w', e).inbound
    {
      assert room in KeysOf(w, e).outbound;
      assert KeysOf(w, e).outbound[room].sessionId == KeysOf(w', e).outbound[room].sessionId;
    }
    forall e, sid | sid in KeysOf(w', e).inbound
      ensures sid in w'.owner && e in MembersOf(w', w'.owner[sid])
    {
      assert sid in KeysOf(w, e).inbound;
      assert MembersOf(w', w.owner[sid]) == MembersOf(w, w.owner[sid]);
    }
  }

  lemma ResumedInTime(w: World, w': World, d: DeviceId)
    requires Resumed(w, w', d) && NobodyLate(w) && ResumesInTime(w, d) && ReadsItself(SavedOf(w, d))
    requires SavedOf(w, d).inbound == KeysOf(w, d).inbound
    ensures NobodyLate(w')
  {
    hide KeysOf, SavedOf;
    forall f, e, room | room in KeysOf(w', e).outbound
                        && KeysOf(w', e).outbound[room].sessionId in KeysOf(w', f).inbound
      ensures var out := KeysOf(w', e).outbound[room];
              KeysOf(w', f).inbound[out.sessionId] <= out.index
    {
      assert KeysOf(w', f).inbound == KeysOf(w, f).inbound;
      if e == d {
        assert SavedOf(w, d).outbound[room] == KeysOf(w', e).outbound[room];
      } else {
        assert KeysOf(w, e).outbound[room] == KeysOf(w', e).outbound[room];
      }
    }
  }

  lemma ResumedFiles(w: World, w': World, d: DeviceId)
    requires Resumed(w, w', d) && FilesOk(w) && AllUsed(w) && SavedOf(w, d).inbound == KeysOf(w, d).inbound
    ensures FilesOk(w') && AllUsed(w')
  {
    hide KeysOf, SavedOf, Precedes, ReadsItself;
    forall e ensures Precedes(SavedOf(w', e), KeysOf(w', e)) && ReadsItself(SavedOf(w', e)) {
      PrecedesItself(SavedOf(w, d));
      assert Precedes(SavedOf(w, e), KeysOf(w, e)) && ReadsItself(SavedOf(w, e));
    }
    forall e, sid | sid in KeysOf(w', e).inbound ensures Used(w', e, sid) {
      assert KeysOf(w', e).inbound == KeysOf(w, e).inbound;
      assert Used(w, e, sid);
    }
  }

  lemma HarmlessKeepsCoherent(w: World, d: DeviceId)
    requires Coherent(w) && Harmless(w, d)
    ensures Coherent(Next(w, Restart(d)))
  {
    hide KeysOf, SavedOf, Next, OutboundOk, InboundOk, NobodyLate, AllReadable, FilesOk, AllUsed;
    hide ForgetsNothing, ResumesInTime, Precedes, ReadsItself, Resumed;
    var w' := Next(w, Restart(d));
    CoherentMeans(w, d);
    AfterRestart(w, d);
    SameInbound(w, d);
    ResumedOwned(w, w', d);
    ResumedInTime(w, w', d);
    ResumedReadable(w, w', d);
    ResumedFiles(w, w', d);
  }

  lemma {:induction false} Unused(s: set<SessionId>) returns (n: SessionId)
    ensures forall x | x in s :: x < n
    decreases |s|
  {
    if s == {} {
      n := 0;
    } else {
      var x :| x in s;
      n := Unused(s - {x});
      assert forall y | y in s :: y == x || y in s - {x};
      if n <= x {
        n := x + 1;
      }
    }
  }

  /** A device that resumes behind a latecomer sends something that the latecomer cannot decrypt. */
  lemma ResumedTooEarly(w: World, d: DeviceId) returns (s: Step)
    requires Coherent(w) && ForgetsNothing(w, d) && !ResumesInTime(w, d)
    ensures var w' := Next(w, Restart(d));
            s.Send? && s.sender == d && Allowed(w', s) && !AllReadable(Next(w', s))
  {
    var w' := Next(w, Restart(d));
    var e, room :| e != d && room in SavedOf(w, d).outbound
                   && SavedOf(w, d).outbound[room].sessionId in KeysOf(w, e).inbound
                   && KeysOf(w, e).inbound[SavedOf(w, d).outbound[room].sessionId] > SavedOf(w, d).outbound[room].index;
    var drawn := Unused(w'.owner.Keys);
    s := Send(d, room, drawn, MembersOf(w', room) + {e}, true, true);
    AfterRestart(w, d);
    DecryptsExactly(w', s, e);
    var now := Sent(room, CiphertextOf(w', s), s.receivers + {d});
    assert now in Next(w', s).sent && e in now.readers;
  }

  /**
   Exactly which restarts are safe from then on. Restarting a device loses nothing, whatever it sends next,
   if and only if its file lists every session it knows and nobody has joined a session beyond the index at
   which the file resumes it.
   */
  lemma HarmlessExactly(w: World, d: DeviceId)
    requires Coherent(w)
    ensures var w' := Next(w, Restart(d));
            Harmless(w, d) <==>
              && AllReadable(w')
              && forall s: Step | s.Send? && s.sender == d && Allowed(w', s) :: AllReadable(Next(w', s))
  {
    var w' := Next(w, Restart(d));
    RestartLosesExactly(w, d);
    if Harmless(w, d) {
      HarmlessKeepsCoherent(w, d);
      forall s: Step | s.Send? && s.sender == d && Allowed(w', s) ensures AllReadable(Next(w', s)) {
        SendKeepsInv(w', s);
      }
    } else if ForgetsNothing(w, d) {
      var s := ResumedTooEarly(w, d);
    }
  }

  /**
   Who can decrypt a message, in any world: a receiver can exactly unless it already knew the session from
   beyond the message's index.
   */
  lemma DecryptsExactly(w: World, s: Step, d: DeviceId)
    requires s.Send? && d in s.receivers && d != s.sender
    ensures CanDecrypt(KeysOf(Next(w, s), d), CiphertextOf(w, s)) <==>
              !(SessionOf(w, s) in KeysOf(w, d).inbound
                && KeysOf(w, d).inbound[SessionOf(w, s)] > CiphertextOf(w, s).index)
  {
    NextKeys(w, s, d);
  }

  // ----- Whole runs -----

  /** A run in which devices restart only while that is harmless. */
  ghost predicate CarefulRun(steps: seq<Step>) {
    steps == [] ||
    var n := |steps| - 1;
    && CarefulRun(steps[..n])
    && Allowed(Run(GENESIS, steps[..n]), steps[n])
    && (steps[n].Restart? ==> Harmless(Run(GENESIS, steps[..n]), steps[n].device))
  }

  lemma GenesisIsCoherent()
    ensures Coherent(GENESIS)
  {
  }

  lemma {:induction false} RunKeepsInv(steps: seq<Step>)
    requires CarefulRun(steps)
    ensures Coherent(Run(GENESIS, steps))
  {
    hide Coherent, Harmless, Next, Allowed;
    if steps == [] {
      GenesisIsCoherent();
    } else {
      var n := |steps| - 1;
      RunKeepsInv(steps[..n]);
      if steps[n].Send? {
        SendKeepsCoherent(Run(GENESIS, steps[..n]), steps[n]);
      } else {
        HarmlessKeepsCoherent(Run(GENESIS, steps[..n]), steps[n].device);
      }
    }
  }

  /**
   Group readability. In every run in which devices restart only while that is harmless, whatever rival sessions
   they have started, every ciphertext can be decrypted by its sender and by every device it was sent to, at
   every later moment of the run.
   */
  lemma GroupReadability(steps: seq<Step>, n: nat, m: nat)
    requires CarefulRun(steps) && n <= m <= |steps|
    ensures forall sent, d | sent in Run(GENESIS, steps[..n]).sent && d in sent.readers ::
              CanDecrypt(KeysOf(Run(GENESIS, steps[..m]), d), sent.ct)
  {
    PrefixCareful(steps, m);
    RunKeepsInv(steps[..m]);
    SentGrows(steps, n, m);
  }

  lemma {:induction false} PrefixCareful(steps: seq<Step>, m: nat)
    requires CarefulRun(steps) && m <= |steps|
    ensures CarefulRun(steps[..m])
  {
    if m < |steps| {
      PrefixCareful(steps[..|steps| - 1], m);
      assert steps[..|steps| - 1][..m] == steps[..m];
    } else {
      assert steps[..m] == steps;
    }
  }

  lemma {:induction false} CarefulIsAllowed(steps: seq<Step>)
    requires CarefulRun(steps)
    ensures AllowedRun(GENESIS, steps)
  {
    if steps != [] {
      CarefulIsAllowed(steps[..|steps| - 1]);
    }
  }

  lemma RunSnoc(steps: seq<Step>, s: Step)
    ensures Run(GENESIS, steps + [s]) == Next(Run(GENESIS, steps), s)
    ensures AllowedRun(GENESIS, steps + [s]) <==> AllowedRun(GENESIS, steps) && Allowed(Run(GENESIS, steps), s)
  {
    assert (steps + [s])[..|steps|] == steps;
  }

  /**
   The converse: after a careful run, a restart that is not harmless can be continued by at most one send so that
   somebody cannot decrypt a message that was sent to him.
   */
  lemma CarelessRestartBreaks(steps: seq<Step>, d: DeviceId) returns (longer: seq<Step>)
    requires CarefulRun(steps) && !Harmless(Run(GENESIS, steps), d)
    ensures AllowedRun(GENESIS, longer) && |longer| <= |steps| + 2 && steps + [Restart(d)] <= longer
    ensures !AllReadable(Run(GENESIS, longer))
  {
    var w := Run(GENESIS, steps);
    RunKeepsInv(steps);
    CarefulIsAllowed(steps);
    RunSnoc(steps, Restart(d));
    longer := steps + [Restart(d)];
    RestartLosesExactly(w, d);
    if ForgetsNothing(w, d) {
      var s := ResumedTooEarly(w, d);
      RunSnoc(longer, s);
      longer := longer + [s];
    }
  }

  lemma {:induction false} SentGrows(steps: seq<Step>, n: nat, m: nat)
    requires n <= m <= |steps|
    ensures Run(GENESIS, steps[..n]).sent <= Run(GENESIS, steps[..m]).sent
  {
    if n < m {
      SentGrows(steps, n, m - 1);
      assert steps[..m][..m - 1] == steps[..m - 1];
    }
  }

  /** Each send of a run adds its ciphertext for the sender and all receivers. */
  lemma SendRecordsCiphertext(steps: seq<Step>, n: nat)
    requires n < |steps| && steps[n].Send?
    ensures var w := Run(GENESIS, steps[..n]);
            Sent(steps[n].room, CiphertextOf(w, steps[n]), steps[n].receivers + {steps[n].sender})
              in Run(GENESIS, steps[..n + 1]).sent
  {
    assert steps[..n + 1][..n] == steps[..n];
  }

  // ----- Runs that lose a message -----

  /** A send in room 0, with all writes succeeding, that should find a session in place. */
  function Message(sender: DeviceId, drawn: SessionId, receivers: set<DeviceId>): Step {
    Send(sender, 0, drawn, receivers, true, true)
  }

  function OneSession(index: nat, first: nat): Keys {
    Keys(map[0 := Outbound(7, index)], map[7 := first])
  }

  /**
   Leaving out one participant once is enough to lose readability. Device 2 joins with the first message, the
   second goes to device 3 alone, and what device 2 then sends lies before the first index device 3 knows.
   */
  lemma PartialSharingFails()
    ensures var one := Next(GENESIS, Message(1, 7, {2}));
            var two := Next(one, Message(1, 8, {3}));
            var three := Next(two, Message(2, 9, {1, 3}));
            && Allowed(GENESIS, Message(1, 7, {2})) && !Allowed(one, Message(1, 8, {3}))
            && Sent(0, Ciphertext(7, 0), {1, 3} + {2}) in three.sent
            && !CanDecrypt(KeysOf(three, 3), Ciphertext(7, 0))
  {
    hide *;
    FirstIsAllowed();
    FirstMessage();
    AfterLeavingOut(Next(GENESIS, Message(1, 7, {2})));
  }

  lemma AfterLeavingOut(one: World)
    requires KeysOf(one, 1) == OneSession(1, 0) && KeysOf(one, 2) == OneSession(0, 0) && KeysOf(one, 3) == NO_KEYS
    requires MembersOf(one, 0) == {1, 2}
    ensures var two := Next(one, Message(1, 8, {3}));
            var three := Next(two, Message(2, 9, {1, 3}));
            && !Allowed(one, Message(1, 8, {3}))
            && Sent(0, Ciphertext(7, 0), {1, 3} + {2}) in three.sent
            && !CanDecrypt(KeysOf(three, 3), Ciphertext(7, 0))
  {
    hide Next, Prepared, Exported, CiphertextOf, KeysOf, SavedOf;
    assert 2 in MembersOf(one, 0);
    var two := Next(one, Message(1, 8, {3}));
    MessageUnder(one, 1, 8, {3}, 1);
    MessageReaches(one, 1, 8, {3}, 2);
    MessageReaches(one, 1, 8, {3}, 3);
    MessageUnder(two, 2, 9, {1, 3}, 0);
    MessageReaches(two, 2, 9, {1, 3}, 3);
  }

  lemma FirstMessage()
    ensures var w := Next(GENESIS, Message(1, 7, {2}));
            && KeysOf(w, 1) == OneSession(1, 0) && KeysOf(w, 2) == OneSession(0, 0) && KeysOf(w, 3) == NO_KEYS
            && SavedOf(w, 1) == OneSession(1, 0) && SavedOf(w, 2) == NO_KEYS
            && w.sent == {Sent(0, Ciphertext(7, 0), {2} + {1})} && MembersOf(w, 0) == {1, 2} && w.owner == map[7 := 0]
  {
    NextKeys(GENESIS, Message(1, 7, {2}), 1);
    NextKeys(GENESIS, Message(1, 7, {2}), 2);
    NextKeys(GENESIS, Message(1, 7, {2}), 3);
  }

  /** A message under session 7, whose sender is at index `i`. */
  lemma MessageUnder(w: World, sender: DeviceId, drawn: SessionId, receivers: set<DeviceId>, i: nat)
    requires 0 in KeysOf(w, sender).outbound && KeysOf(w, sender).outbound[0] == Outbound(7, i)
    ensures var s := Message(sender, drawn, receivers);
            && CiphertextOf(w, s) == Ciphertext(7, i)
            && KeysOf(Next(w, s), sender) == Encrypted(KeysOf(w, sender), 0)
            && SavedOf(Next(w, s), sender) == Encrypted(KeysOf(w, sender), 0)
            && Next(w, s).sent == w.sent + {Sent(0, Ciphertext(7, i), receivers + {sender})}
            && Next(w, s).owner == w.owner[7 := 0] && MembersOf(Next(w, s), 0) == receivers + {sender}
            && Exported(Prepared(w, s), 0) == RoomPackage(1, 0, 7, i, Some(Outbound(7, i)), Some(SessionKey(7, i)))
  {
    NextKeys(w, Message(sender, drawn, receivers), sender);
  }

  lemma MessageReaches(w: World, sender: DeviceId, drawn: SessionId, receivers: set<DeviceId>, d: DeviceId)
    requires d != sender
    ensures var s := Message(sender, drawn, receivers);
            && KeysOf(Next(w, s), d) == (if d in receivers then Imported(KeysOf(w, d), Exported(Prepared(w, s), 0))
                                         else KeysOf(w, d))
            && SavedOf(Next(w, s), d) == SavedOf(w, d)
  {
    NextKeys(w, Message(sender, drawn, receivers), d);
  }

  /**
   Imports are not written to the file. A device that has received a message and then restarts cannot decrypt it
   any more.
   */
  lemma LostImport()
    ensures var run := [Message(1, 7, {2}), Restart(2)];
            && AllowedRun(GENESIS, run)
            && Sent(0, Ciphertext(7, 0), {2} + {1}) in Run(GENESIS, run).sent
            && !CanDecrypt(KeysOf(Run(GENESIS, run), 2), Ciphertext(7, 0))
            && !Harmless(Run(GENESIS, [Message(1, 7, {2})]), 2)
  {
    var first := Message(1, 7, {2});
    FirstMessage();
    RunSnoc([], first);
    RunSnoc([first], Restart(2));
    assert [] + [first] == [first] && [first] + [Restart(2)] == [first, Restart(2)];
    AfterRestart(Next(GENESIS, first), 2);
    assert 7 in KeysOf(Next(GENESIS, first), 2).inbound && 7 !in SavedOf(Next(GENESIS, first), 2).inbound;
  }

  /**
   A device that has sent before goes back to where it was when it last sent. Device 3 joins at index 2, device 2
   restarts to index 1, and device 3 cannot decrypt what device 2 sends then.
   */
  lemma ResumedBehindLatecomer()
    ensures var run := [Message(1, 7, {2})] + [Message(2, 8, {1})] + [Message(1, 8, {2})] + [Message(1, 8, {2, 3})]
                       + [Restart(2)] + [Message(2, 8, {1, 3})];
            && AllowedRun(GENESIS, run)
            && Sent(0, Ciphertext(7, 1), {1, 3} + {2}) in Run(GENESIS, run).sent
            && !CanDecrypt(KeysOf(Run(GENESIS, run), 3), Ciphertext(7, 1))
  {
    var a, b, c, d := Message(1, 7, {2}), Message(2, 8, {1}), Message(1, 8, {2}), Message(1, 8, {2, 3});
    var e, f := Restart(2), Message(2, 8, {1, 3});
    hide *;
    NothingRun();
    var r1 := [a];
    RunSnoc([], a);
    assert [] + [a] == r1;
    FirstMessage();
    FirstIsAllowed();
    var r2 := r1 + [b];
    RunSnoc(r1, b);
    SecondMessage(Run(GENESIS, r1));
    var r3 := r2 + [c];
    RunSnoc(r2, c);
    ThirdMessage(Run(GENESIS, r2));
    var r4 := r3 + [d];
    RunSnoc(r3, d);
    FourthMessage(Run(GENESIS, r3));
    var r5 := r4 + [e];
    RunSnoc(r4, e);
    RestartIsAllowed(Run(GENESIS, r4), 2);
    RunSnoc(r5, f);
    AfterLastMessage(Run(GENESIS, r4));
  }

  lemma NothingRun()
    ensures Run(GENESIS, []) == GENESIS && AllowedRun(GENESIS, [])
  {
  }

  lemma FirstIsAllowed()
    ensures Allowed(GENESIS, Message(1, 7, {2}))
  {
  }

  lemma RestartIsAllowed(w: World, d: DeviceId)
    ensures Allowed(w, Restart(d))
  {
  }

  lemma SecondMessage(w: World)
    requires KeysOf(w, 1) == OneSession(1, 0) && KeysOf(w, 2) == OneSession(0, 0) && KeysOf(w, 3) == NO_KEYS
    requires w.owner == map[7 := 0] && MembersOf(w, 0) == {1, 2}
    ensures var s := Message(2, 8, {1});
            var w' := Next(w, s);
            && Allowed(w, s)
            && KeysOf(w', 1) == OneSession(1, 0) && KeysOf(w', 2) == OneSession(1, 0) && KeysOf(w', 3) == NO_KEYS
            && SavedOf(w', 2) == OneSession(1, 0) && w'.owner == map[7 := 0] && MembersOf(w', 0) == {1, 2}
  {
    hide Next, Prepared, Exported, CiphertextOf, KeysOf, SavedOf;
    MessageUnder(w, 2, 8, {1}, 0);
    MessageReaches(w, 2, 8, {1}, 1);
    MessageReaches(w, 2, 8, {1}, 3);
  }

  lemma ThirdMessage(w: World)
    requires KeysOf(w, 1) == OneSession(1, 0) && KeysOf(w, 2) == OneSession(1, 0) && KeysOf(w, 3) == NO_KEYS
    requires SavedOf(w, 2) == OneSession(1, 0) && w.owner == map[7 := 0] && MembersOf(w, 0) == {1, 2}
    ensures var s := Message(1, 8, {2});
            var w' := Next(w, s);
            && Allowed(w, s)
            && KeysOf(w', 1) == OneSession(2, 0) && KeysOf(w', 3) == NO_KEYS
            && SavedOf(w', 2) == OneSession(1, 0) && w'.owner == map[7 := 0] && MembersOf(w', 0) == {1, 2}
  {
    hide Next, Prepared, Exported, CiphertextOf, KeysOf, SavedOf;
    MessageUnder(w, 1, 8, {2}, 1);
    MessageReaches(w, 1, 8, {2}, 2);
    MessageReaches(w, 1, 8, {2}, 3);
  }

  lemma FourthMessage(w: World)
    requires KeysOf(w, 1) == OneSession(2, 0) && KeysOf(w, 3) == NO_KEYS
    requires SavedOf(w, 2) == OneSession(1, 0) && w.owner == map[7 := 0] && MembersOf(w, 0) == {1, 2}
    ensures var s := Message(1, 8, {2, 3});
            var w' := Next(w, s);
            && Allowed(w, s)
            && KeysOf(w', 3) == OneSession(2, 2) && SavedOf(w', 2) == OneSession(1, 0)
            && w'.owner == map[7 := 0] && MembersOf(w', 0) == {1, 2, 3}
  {
    hide Next, Prepared, Exported, CiphertextOf, KeysOf, SavedOf;
    MessageUnder(w, 1, 8, {2, 3}, 2);
    MessageReaches(w, 1, 8, {2, 3}, 2);
    MessageReaches(w, 1, 8, {2, 3}, 3);
  }

  lemma AfterLastMessage(w: World)
    requires SavedOf(w, 2) == OneSession(1, 0) && KeysOf(w, 3) == OneSession(2, 2)
    requires w.owner == map[7 := 0] && MembersOf(w, 0) == {1, 2, 3}
    ensures var w' := Next(w, Restart(2));
            var w'' := Next(w', Message(2, 8, {1, 3}));
            && Allowed(w', Message(2, 8, {1, 3}))
            && Sent(0, Ciphertext(7, 1), {1, 3} + {2}) in w''.sent
            && !CanDecrypt(KeysOf(w'', 3), Ciphertext(7, 1))
  {
    var w' := Next(w, Restart(2));
    AfterRestart(w, 2);
    hide Next, Prepared, Exported, CiphertextOf;
    MessageUnder(w', 2, 8, {1, 3}, 1);
    MessageReaches(w', 2, 8, {1, 3}, 3);
  }
}
