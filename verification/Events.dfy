/**
 Signed events (crates/td-event/src/event.rs).

 The primitives are symbolic. A blake3 digest is the value it digests, so distinct contents have distinct
 digests; `NoPreimage` stands for the 32-byte strings that are no event's digest. What the ed25519 checks
 say about an event's key, author and signature is carried by the event as `Authentication`.
 */
module Events {
  import opened Wrappers

  type RoomId = nat

  type DeviceId = nat

  datatype EventKind = CreateRoom | Membership | Message | DeviceLink | Custom

  datatype MembershipAction = Join | Invite | Leave | Ban

  /** The decoded payload bytes; JSON itself is not part of this model. */
  datatype Payload =
    | CreateRoomPayload(creator: DeviceId, name: string)
    | MembershipPayload(target: DeviceId, action: MembershipAction, actor: DeviceId)
    | RawPayload(bytes: seq<nat>)

  datatype UnsignedEvent = UnsignedEvent(
    roomId: RoomId, parents: seq<EventId>, kind: EventKind, payload: Payload, authorDevice: DeviceId, tsMs: nat)

  datatype Authentication = Authentic | KeyOffCurve | NotAuthorsKey | ForgedSignature

  datatype EventId = Digest(body: UnsignedEvent, auth: Authentication) | NoPreimage(n: nat)

  datatype SignedEvent = SignedEvent(id: EventId, body: UnsignedEvent, auth: Authentication)

  datatype EventError = InvalidVerifyingKey | AuthorMismatch | InvalidSignature | IdMismatch

  predicate Verified(ev: SignedEvent) {
    ev.auth == Authentic && ev.id == Digest(ev.body, Authentic)
  }

  /** The checks run in this order, and the first one that fails names the error. */
  function VerifyEvent(ev: SignedEvent): (r: Result<(), EventError>)
    ensures r.Ok? <==> Verified(ev)
    ensures r == Err(IdMismatch) <==> ev.auth == Authentic && ev.id != Digest(ev.body, Authentic)
    ensures r == Err(InvalidVerifyingKey) <==> ev.auth == KeyOffCurve
    ensures r == Err(AuthorMismatch) <==> ev.auth == NotAuthorsKey
    ensures r == Err(InvalidSignature) <==> ev.auth == ForgedSignature
  {
    match ev.auth
    case KeyOffCurve => Err(InvalidVerifyingKey)
    case NotAuthorsKey => Err(AuthorMismatch)
    case ForgedSignature => Err(InvalidSignature)
    case Authentic => if Digest(ev.body, ev.auth) != ev.id then Err(IdMismatch) else Ok(())
  }

  /** Signing with the key of device `signer`, which must be the author. */
  function SignEvent(signer: DeviceId, body: UnsignedEvent): (r: Result<SignedEvent, EventError>)
    ensures r.Ok? <==> body.authorDevice == signer
    ensures r.Ok? ==> Verified(r.value) && r.value.body == body
    ensures r.Err? ==> r.error == AuthorMismatch
  {
    if body.authorDevice != signer then Err(AuthorMismatch)
    else Ok(EventOf(Digest(body, Authentic)))
  }

  /** The one verified event that carries this id, if any does. */
  function EventOf(id: EventId): SignedEvent
    requires id.Digest?
  {
    SignedEvent(id, id.body, id.auth)
  }

  function ParentsOf(id: EventId): seq<EventId> {
    if id.Digest? then id.body.parents else []
  }

  function RoomOf(id: EventId): RoomId {
    if id.Digest? then id.body.roomId else 0
  }

  function TsOf(id: EventId): nat {
    if id.Digest? then id.body.tsMs else 0
  }
}
