/**
 Shared-room Megolm sessions (crates/td-crypto/src/e2ee.rs).

 A ratchet is its session id and its next index; a session key exported from it decrypts every index from
 there on. Indices are unbounded here.
 */
module Megolm {
  import opened Wrappers
  import opened Events

  type SessionId = nat

  datatype Outbound = Outbound(sessionId: SessionId, index: nat)

  datatype SessionKey = SessionKey(sessionId: SessionId, index: nat)

  /** `None` stands for a field that does not decode. */
  datatype RoomPackage = RoomPackage(
    v: nat, room: RoomId, sessionId: SessionId, messageIndex: nat, pickle: Option<Outbound>, key: Option<SessionKey>)

  datatype Ciphertext = Ciphertext(sessionId: SessionId, index: nat)

  datatype E2eeError = Codec | Pickle | MissingMegolm | Undecryptable

  /** A device's group sessions: outbound by room, and the first index each inbound session decrypts. */
  datatype Keys = Keys(outbound: map<RoomId, Outbound>, inbound: map<SessionId, nat>)

  const NO_KEYS: Keys := Keys(map[], map[])

  predicate CanDecrypt(k: Keys, ct: Ciphertext) {
    ct.sessionId in k.inbound && k.inbound[ct.sessionId] <= ct.index
  }

  function Created(k: Keys, room: RoomId, sid: SessionId): (r: Keys)
    ensures room in r.outbound
  {
    if room in k.outbound then k
    else Keys(k.outbound[room := Outbound(sid, 0)], k.inbound[sid := 0])
  }

  function Exported(k: Keys, room: RoomId): RoomPackage
    requires room in k.outbound
  {
    var out := k.outbound[room];
    RoomPackage(1, room, out.sessionId, out.index, Some(out), Some(SessionKey(out.sessionId, out.index)))
  }

  function WithKey(k: Keys, key: SessionKey): Keys {
    if key.sessionId in k.inbound then k else k.(inbound := k.inbound[key.sessionId := key.index])
  }

  function Encrypted(k: Keys, room: RoomId): Keys
    requires room in k.outbound
  {
    var out := k.outbound[room];
    k.(outbound := k.outbound[room := Outbound(out.sessionId, out.index + 1)])
  }

  /** The local outbound session stays: it has another id, or it is further along than the package says. */
  predicate KeepsLocal(k: Keys, pkg: RoomPackage) {
    pkg.room in k.outbound
    && (k.outbound[pkg.room].sessionId != pkg.sessionId || k.outbound[pkg.room].index > pkg.messageIndex)
  }

  predicate UsablePickle(pkg: RoomPackage) {
    pkg.pickle.Some? && pkg.pickle.value.sessionId == pkg.sessionId
  }

  function Imported(k: Keys, pkg: RoomPackage): Keys {
    if pkg.v != 1 || pkg.key.None? then k else
    var k' := WithKey(k, pkg.key.value);
    if !UsablePickle(pkg) || KeepsLocal(k, pkg) then k'
    else k'.(outbound := k'.outbound[pkg.room := pkg.pickle.value])
  }

  /** The fields agree with each other, as an export makes them. */
  predicate Consistent(pkg: RoomPackage) {
    && pkg.v == 1
    && pkg.pickle == Some(Outbound(pkg.sessionId, pkg.messageIndex))
    && pkg.key == Some(SessionKey(pkg.sessionId, pkg.messageIndex))
  }

  datatype DurablePackage = DurablePackage(
    v: nat, deviceId: DeviceId, outbound: seq<(RoomId, Outbound)>, inbound: seq<(SessionId, nat)>)

  class E2eeDevice {
    const deviceId: DeviceId
    var outbound: map<RoomId, Outbound>
    var inbound: map<SessionId, nat>

    function State(): Keys
      reads this
    {
      Keys(outbound, inbound)
    }

    constructor (deviceId: DeviceId)
      ensures this.deviceId == deviceId && State() == NO_KEYS
    {
      this.deviceId := deviceId;
      outbound, inbound := map[], map[];
    }

    /** No-op when the room already has an outbound session; otherwise start one under the drawn id. */
    method CreateGroupSession(room: RoomId, drawn: SessionId) returns (sid: SessionId)
      modifies this
      ensures State() == Created(old(State()), room, drawn)
      ensures room in outbound && sid == outbound[room].sessionId
    {
      if room in outbound {
        return outbound[room].sessionId;
      }
      outbound := outbound[room := Outbound(drawn, 0)];
      inbound := inbound[drawn := outbound[room].index];
      sid := drawn;
    }

    method ExportRoomOutbound(room: RoomId) returns (r: Result<RoomPackage, E2eeError>)
      ensures r.Ok? <==> room in outbound
      ensures r.Ok? ==> r.value == Exported(State(), room) && Consistent(r.value)
    {
      if room !in outbound {
        return Err(MissingMegolm);
      }
      var out := outbound[room];
      return Ok(RoomPackage(
        1, room, out.sessionId, out.index, Some(out), Some(SessionKey(out.sessionId, out.index))));
    }

    /** An inbound session is never overwritten. */
    method ImportGroupSessionKey(key: Option<SessionKey>) returns (r: Result<SessionId, E2eeError>)
      modifies this`inbound
      ensures r == if key.Some? then Ok(key.value.sessionId) else Err(Codec)
      ensures State() == if key.Some? then WithKey(old(State()), key.value) else old(State())
    {
      if key.None? {
        return Err(Codec);
      }
      if key.value.sessionId !in inbound {
        inbound := inbound[key.value.sessionId := key.value.index];
      }
      return Ok(key.value.sessionId);
    }

    /**
     Import a shared room session. The inbound key is installed before the rest is looked at; an outbound
     session that exists under another id, or is further along, stays.
     */
    method ImportRoomOutbound(pkg: RoomPackage) returns (r: Result<SessionId, E2eeError>)
      modifies this
      ensures State() == Imported(old(State()), pkg)
      ensures r.Ok? <==> pkg.v == 1 && pkg.key.Some? && UsablePickle(pkg)
      ensures r.Ok? ==> pkg.room in outbound && r.value == outbound[pkg.room].sessionId
    {
      if pkg.v != 1 {
        return Err(Codec);
      }
      var imported := ImportGroupSessionKey(pkg.key);
      if imported.Err? {
        return Err(imported.error);
      }
      if pkg.pickle.None? {
        return Err(Pickle);
      }
      var session := pkg.pickle.value;
      if session.sessionId != pkg.sessionId {
        return Err(Codec);
      }
      if pkg.room in outbound {
        var local := outbound[pkg.room];
        if local.sessionId != pkg.sessionId {
          return Ok(local.sessionId);
        }
        if local.index > pkg.messageIndex {
          return Ok(local.sessionId);
        }
      }
      outbound := outbound[pkg.room := session];
      return Ok(pkg.sessionId);
    }

    method MegolmEncrypt(room: RoomId) returns (r: Result<Ciphertext, E2eeError>)
      modifies this`outbound
      ensures r.Ok? <==> room in old(outbound)
      ensures r.Ok? ==> State() == Encrypted(old(State()), room)
                        && r.value == Ciphertext(old(outbound)[room].sessionId, old(outbound)[room].index)
                        && outbound == old(outbound)[room := Outbound(r.value.sessionId, r.value.index + 1)]
      ensures r.Err? ==> State() == old(State())
    {
      if room !in outbound {
        return Err(MissingMegolm);
      }
      var out := outbound[room];
      outbound := outbound[room := Outbound(out.sessionId, out.index + 1)];
      return Ok(Ciphertext(out.sessionId, out.index));
    }

    method MegolmDecrypt(ct: Ciphertext) returns (r: Result<(), E2eeError>)
      ensures r.Ok? <==> CanDecrypt(State(), ct)
    {
      if ct.sessionId !in inbound {
        return Err(MissingMegolm);
      }
      if ct.index < inbound[ct.sessionId] {
        return Err(Undecryptable);
      }
      return Ok(());
    }

    method ExportDurable() returns (pkg: DurablePackage)
      ensures pkg.v == 1 && pkg.deviceId == deviceId
      ensures FromPairs(pkg.outbound) == outbound && FromPairs(pkg.inbound) == inbound
    {
      var outs := ToPairs(outbound);
      var ins := ToPairs(inbound);
      pkg := DurablePackage(1, deviceId, outs, ins);
    }

    /** Saving and restoring gives back the same sessions, to the device that saved them and to no other. */
    static method ImportDurable(deviceId: DeviceId, pkg: DurablePackage) returns (r: Result<E2eeDevice, E2eeError>)
      ensures r.Ok? <==> pkg.v == 1 && pkg.deviceId == deviceId
      ensures r.Ok? ==> fresh(r.value) && r.value.deviceId == deviceId
                        && r.value.State() == Keys(FromPairs(pkg.outbound), FromPairs(pkg.inbound))
    {
      if pkg.v != 1 || pkg.deviceId != deviceId {
        return Err(Codec);
      }
      var device := new E2eeDevice(deviceId);
      for i := 0 to |pkg.outbound|
        invariant device.outbound == FromPairs(pkg.outbound[..i]) && device.inbound == map[]
      {
        assert pkg.outbound[..i + 1][..i] == pkg.outbound[..i];
        device.outbound := device.outbound[pkg.outbound[i].0 := pkg.outbound[i].1];
      }
      assert pkg.outbound[..|pkg.outbound|] == pkg.outbound;
      for i := 0 to |pkg.inbound|
        invariant device.outbound == FromPairs(pkg.outbound) && device.inbound == FromPairs(pkg.inbound[..i])
      {
        assert pkg.inbound[..i + 1][..i] == pkg.inbound[..i];
        device.inbound := device.inbound[pkg.inbound[i].0 := pkg.inbound[i].1];
      }
      assert pkg.inbound[..|pkg.inbound|] == pkg.inbound;
      return Ok(device);
    }
  }

  /** The file that keeps a device's sessions over a restart (crates/td-node/src/persist.rs). */
  class KeyFile {
    var content: Option<DurablePackage>

    constructor ()
      ensures Stored() == NO_KEYS && content == None
    {
      content := None;
    }

    function Stored(): Keys
      reads this
    {
      if content.None? then NO_KEYS else Keys(FromPairs(content.value.outbound), FromPairs(content.value.inbound))
    }

    predicate BelongsTo(deviceId: DeviceId)
      reads this
    {
      content.Some? ==> content.value.v == 1 && content.value.deviceId == deviceId
    }

    /** A write that fails leaves the previous content. */
    method Save(device: E2eeDevice, written: bool)
      modifies this
      ensures Stored() == if written then device.State() else old(Stored())
      ensures old(BelongsTo(device.deviceId)) ==> BelongsTo(device.deviceId)
    {
      if written {
        var pkg := device.ExportDurable();
        content := Some(pkg);
      }
    }

    /** Without a file the device starts with no sessions. */
    method Load(deviceId: DeviceId) returns (r: Result<E2eeDevice, E2eeError>)
      ensures r.Ok? <==> BelongsTo(deviceId)
      ensures r.Ok? ==> fresh(r.value) && r.value.deviceId == deviceId && r.value.State() == Stored()
    {
      if content.None? {
        var device := new E2eeDevice(deviceId);
        return Ok(device);
      }
      r := E2eeDevice.ImportDurable(deviceId, content.value);
    }
  }

  /** Later pairs win, as inserting them one by one does. */
  function FromPairs<K, V>(pairs: seq<(K, V)>): map<K, V> {
    if pairs == [] then map[]
    else FromPairs(pairs[..|pairs| - 1])[pairs[|pairs| - 1].0 := pairs[|pairs| - 1].1]
  }

  method ToPairs<K, V>(m: map<K, V>) returns (pairs: seq<(K, V)>)
    ensures FromPairs(pairs) == m
  {
    pairs := [];
    var rest := m.Keys;
    while rest != {}
      invariant rest <= m.Keys
      invariant FromPairs(pairs) == m - rest
      decreases |rest|
    {
      var key :| key in rest;
      assert (pairs + [(key, m[key])])[..|pairs|] == pairs;
      pairs := pairs + [(key, m[key])];
      rest := rest - {key};
    }
  }

  // ----- Monotonicity on one device -----

  /** Sessions keep their id and never step back, and everything decryptable stays decryptable. */
  ghost predicate Advances(k: Keys, k': Keys) {
    && (forall room | room in k.outbound ::
          room in k'.outbound && k'.outbound[room].sessionId == k.outbound[room].sessionId
          && k.outbound[room].index <= k'.outbound[room].index)
    && (forall ct | CanDecrypt(k, ct) :: CanDecrypt(k', ct))
  }

  /** `SaveAndRestore` is saving and restoring in one instant, with nothing in between. */
  datatype Action =
    | Create(room: RoomId, drawn: SessionId)
    | Encrypt(room: RoomId)
    | Import(pkg: RoomPackage)
    | ImportKey(key: SessionKey)
    | SaveAndRestore

  ghost predicate Enabled(k: Keys, a: Action) {
    match a
    case Encrypt(room) => room in k.outbound
    case Import(pkg) => Consistent(pkg)
    case _ => true
  }

  ghost function After(k: Keys, a: Action): Keys
    requires Enabled(k, a)
  {
    match a
    case Create(room, drawn) => Created(k, room, drawn)
    case Encrypt(room) => Encrypted(k, room)
    case Import(pkg) => Imported(k, pkg)
    case ImportKey(key) => WithKey(k, key)
    case SaveAndRestore => k
  }

  ghost predicate Runs(k: Keys, actions: seq<Action>, k': Keys)
    decreases |actions|
  {
    if actions == [] then k' == k
    else Enabled(k, actions[0]) && Runs(After(k, actions[0]), actions[1..], k')
  }

  lemma ActionAdvances(k: Keys, a: Action)
    requires Enabled(k, a)
    ensures Advances(k, After(k, a))
  {
  }

  /** Over any run, and so between any two moments of it. */
  lemma {:induction false} SessionsAreMonotone(k: Keys, actions: seq<Action>, k': Keys)
    requires Runs(k, actions, k')
    ensures Advances(k, k')
    decreases |actions|
  {
    if actions != [] {
      ActionAdvances(k, actions[0]);
      SessionsAreMonotone(After(k, actions[0]), actions[1..], k');
    }
  }

  // ----- Restoring what was saved earlier -----

  /** `s` is an earlier state of `k` on the same device. */
  ghost predicate Precedes(s: Keys, k: Keys) {
    && (forall sid | sid in s.inbound :: sid in k.inbound && k.inbound[sid] == s.inbound[sid])
    && (forall room | room in s.outbound ::
          room in k.outbound && k.outbound[room].sessionId == s.outbound[room].sessionId
          && s.outbound[room].index <= k.outbound[room].index)
  }

  /** What the device will encrypt next it can also decrypt. */
  ghost predicate ReadsItself(k: Keys) {
    forall room | room in k.outbound ::
      var out := k.outbound[room];
      out.sessionId in k.inbound && k.inbound[out.sessionId] <= out.index
  }

  lemma PrecedesTwice(a: Keys, b: Keys, c: Keys)
    requires Precedes(a, b) && Precedes(b, c)
    ensures Precedes(a, c)
  {
  }

  lemma StepsFollow(k: Keys, room: RoomId, drawn: SessionId)
    requires drawn !in k.inbound && ReadsItself(k)
    ensures Precedes(k, Created(k, room, drawn)) && ReadsItself(Created(k, room, drawn))
    ensures var ready := Created(k, room, drawn);
            Precedes(ready, Encrypted(ready, room)) && ReadsItself(Encrypted(ready, room))
  {
  }

  lemma ImportFollows(k: Keys, pkg: RoomPackage)
    requires Consistent(pkg)
    ensures Precedes(k, Imported(k, pkg))
  {
  }

  /** Restoring an earlier save is safe for the device itself exactly if nothing has changed since. */
  lemma RestoreAdvancesExactly(saved: Keys, k: Keys)
    requires Precedes(saved, k)
    ensures Advances(k, saved) <==> saved == k
  {
    if Advances(k, saved) {
      forall sid | sid in k.inbound ensures sid in saved.inbound {
        assert CanDecrypt(k, Ciphertext(sid, k.inbound[sid]));
      }
      assert saved.inbound == k.inbound;
      assert saved.outbound == k.outbound;
    }
  }

  /**
   An import can take a session back only in one way: the package passes every check, claims an index at
   least the local one, and carries a ratchet behind the local one. An exported package never does.
   */
  lemma ImportRegressesExactly(k: Keys, pkg: RoomPackage)
    ensures Advances(k, Imported(k, pkg)) <==>
              !(&& pkg.v == 1 && pkg.key.Some? && UsablePickle(pkg)
                && pkg.room in k.outbound && !KeepsLocal(k, pkg)
                && pkg.pickle.value.index < k.outbound[pkg.room].index)
    ensures Consistent(pkg) ==> Advances(k, Imported(k, pkg))
  {
    var k' := Imported(k, pkg);
    if pkg.v == 1 && pkg.key.Some? && UsablePickle(pkg) && pkg.room in k.outbound && !KeepsLocal(k, pkg) {
      assert k'.outbound[pkg.room] == pkg.pickle.value;
    }
  }

  /** Such a package: it claims the index of the local session and carries a ratchet three steps behind. */
  lemma LaggingPackage()
    ensures var k := Keys(map[0 := Outbound(7, 5)], map[7 := 0]);
            var pkg := RoomPackage(1, 0, 7, 5, Some(Outbound(7, 2)), Some(SessionKey(7, 2)));
            && Imported(k, pkg).outbound[0] == Outbound(7, 2)
            && !Advances(k, Imported(k, pkg)) && !Consistent(pkg)
  {
    var k := Keys(map[0 := Outbound(7, 5)], map[7 := 0]);
    var pkg := RoomPackage(1, 0, 7, 5, Some(Outbound(7, 2)), Some(SessionKey(7, 2)));
    ImportRegressesExactly(k, pkg);
  }

  /**
   What an exported package brings about: a receiver without an outbound session of the room goes on with the
   sender's, one with another session keeps it, and two that share one end at the later index. An inbound session
   is added unless it is there, and no other session changes.
   */
  lemma SharingBrings(sender: Keys, receiver: Keys, room: RoomId)
    requires room in sender.outbound
    ensures var out, k := sender.outbound[room], Imported(receiver, Exported(sender, room));
            && room in k.outbound && k.outbound.Keys == receiver.outbound.Keys + {room}
            && (forall q | q in receiver.outbound && q != room :: k.outbound[q] == receiver.outbound[q])
            && (room !in receiver.outbound ==> k.outbound[room] == out)
            && (room in receiver.outbound && receiver.outbound[room].sessionId != out.sessionId ==>
                  k.outbound[room] == receiver.outbound[room])
            && (room in receiver.outbound && receiver.outbound[room].sessionId == out.sessionId ==>
                  k.outbound[room]
                  == if receiver.outbound[room].index < out.index then out else receiver.outbound[room])
            && (out.sessionId in receiver.inbound ==> k.inbound == receiver.inbound)
            && (out.sessionId !in receiver.inbound ==> k.inbound == receiver.inbound[out.sessionId := out.index])
  {
  }

  /** No index of a session is used twice by one device: every encryption of a run has a later one than before. */
  lemma {:induction false} IndicesAreUsedOnce(k: Keys, actions: seq<Action>, k': Keys, room: RoomId)
    requires room in k.outbound && Runs(Encrypted(k, room), actions, k')
    ensures room in k'.outbound && k'.outbound[room].sessionId == k.outbound[room].sessionId
    ensures k'.outbound[room].index > k.outbound[room].index
  {
    SessionsAreMonotone(Encrypted(k, room), actions, k');
  }

  /**
   Why the package is exported before encrypting: a receiver that meets the session for the first time
   decrypts the message with a package from before, and cannot with one from after.
   */
  lemma ExportBeforeEncrypt(sender: Keys, receiver: Keys, room: RoomId)
    requires room in sender.outbound && sender.outbound[room].sessionId !in receiver.inbound
    ensures var out := sender.outbound[room];
            var ct := Ciphertext(out.sessionId, out.index);
            && CanDecrypt(Imported(receiver, Exported(sender, room)), ct)
            && !CanDecrypt(Imported(receiver, Exported(Encrypted(sender, room), room)), ct)
  {
  }
}
