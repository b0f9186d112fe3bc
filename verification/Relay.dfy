/** The store-and-forward relay (relays/td-relay/src/main.rs, crates/td-net/src/relay_proto.rs). */
module Relays {
  import opened Wrappers
  import opened Sequences
  import opened Bytes
  import opened FixedWindow
  import opened RateLimits

  const MAX_CIPHERTEXT: nat := 256 * 1024
  const FETCH_LIMIT: nat := 64

  type DeviceId = SenderId

  /**
   A blake3 digest of ciphertext, recipient, sender and timestamp, symbolically. The last three have a fixed
   length, so the digested bytes determine all four. The room hint is not digested.
   */
  datatype EnvelopeId =
    | Digest(ciphertext: seq<Byte>, recipient: DeviceId, sender: DeviceId, ts: U64)
    | NoPreimage(n: nat)

  datatype Envelope = Envelope(
    id: EnvelopeId, recipient: DeviceId, sender: DeviceId, room: Option<nat>, ciphertext: seq<Byte>, ts: U64)

  type Rows = map<EnvelopeId, Envelope>

  datatype RelayError = RateLimited | TooLarge | IdMismatch

  datatype Request =
    | PutReq(envelope: Envelope)
    | FetchReq(recipient: DeviceId, since: U64, limit: nat)
    | AckReq(recipient: DeviceId, ids: seq<EnvelopeId>)

  datatype Response = Done | Envelopes(items: seq<Envelope>)

  function IdFor(e: Envelope): EnvelopeId {
    Digest(e.ciphertext, e.recipient, e.sender, e.ts)
  }

  predicate Acceptable(e: Envelope) {
    |e.ciphertext| <= MAX_CIPHERTEXT && e.id == IdFor(e)
  }

  /** Timestamps are stored, compared and ordered as signed 64-bit numbers. */
  function Key(e: Envelope): int {
    AsI64(e.ts)
  }

  predicate Matches(e: Envelope, recipient: DeviceId, since: U64) {
    e.recipient == recipient && Key(e) >= AsI64(since)
  }

  function Matching(rows: Rows, recipient: DeviceId, since: U64): set<Envelope> {
    set id | id in rows && Matches(rows[id], recipient, since) :: rows[id]
  }

  ghost predicate OldestFirst(items: seq<Envelope>) {
    forall i, j | 0 <= i < j < |items| :: Key(items[i]) <= Key(items[j])
  }

  /** The oldest `limit` of a set of envelopes, oldest first; equal timestamps come in any order. */
  ghost predicate IsBatch(waiting: set<Envelope>, items: seq<Envelope>, limit: nat) {
    && NoDuplicates(items) && Elements(items) <= waiting
    && |items| == (if |waiting| < limit then |waiting| else limit)
    && OldestFirst(items)
    && (forall e, x | e in waiting && e !in items && x in items :: Key(x) <= Key(e))
  }

  function Stored(rows: Rows, e: Envelope): Rows {
    if Acceptable(e) && e.id !in rows then rows[e.id := e] else rows
  }

  function Acked(rows: Rows, recipient: DeviceId, ids: seq<EnvelopeId>): Rows {
    map id | id in rows && !(rows[id].recipient == recipient && id in ids) :: rows[id]
  }

  ghost predicate Sound(rows: Rows) {
    forall id | id in rows :: rows[id].id == id && Acceptable(rows[id])
  }

  function Clamped(limit: nat): nat {
    if limit < 1 then 1 else if limit > FETCH_LIMIT then FETCH_LIMIT else limit
  }

  lemma {:induction false} OldestExists(s: set<Envelope>) returns (e: Envelope)
    requires s != {}
    ensures e in s && forall f | f in s :: Key(e) <= Key(f)
    decreases |s|
  {
    e :| e in s;
    var rest := s - {e};
    if rest != {} {
      var o := OldestExists(rest);
      assert forall f | f in s :: f == e || f in rest;
      if Key(o) < Key(e) {
        e := o;
      }
    }
  }

  lemma ElementsOfList<T>(s: seq<T>)
    requires NoDuplicates(s)
    ensures |Elements(s)| == |s|
  {
    if s != [] {
      var front := s[..|s| - 1];
      ElementsOfList(front);
      assert s == front + [s[|s| - 1]];
      assert Elements(s) == Elements(front) + {s[|s| - 1]};
    }
  }

  lemma OneRowLess(rows: Rows, id: EnvelopeId)
    requires id in rows
    ensures |rows - {id}| == |rows| - 1
  {
    assert (rows - {id}).Keys == rows.Keys - {id};
    assert |rows.Keys - {id}| == |rows.Keys| - 1;
  }

  class EnvelopeStore {
    var rows: Rows

    constructor ()
      ensures rows == map[]
    {
      rows := map[];
    }

    /** Insert or ignore: Ok(true) for a new row. */
    method Put(e: Envelope) returns (r: Result<bool, RelayError>)
      modifies this
      ensures r == if |e.ciphertext| > MAX_CIPHERTEXT then Err(TooLarge) else if e.id != IdFor(e) then Err(IdMismatch)
                   else Ok(e.id !in old(rows))
      ensures r.Ok? <==> |e.ciphertext| <= 262_144 && e.id == Digest(e.ciphertext, e.recipient, e.sender, e.ts)
      ensures r == Err(TooLarge) <==> |e.ciphertext| > 262_144
      ensures rows == if r == Ok(true) then old(rows)[e.id := e] else old(rows)
      ensures rows == Stored(old(rows), e)
    {
      if |e.ciphertext| > MAX_CIPHERTEXT {
        return Err(TooLarge);
      }
      if IdFor(e) != e.id {
        return Err(IdMismatch);
      }
      if e.id in rows {
        return Ok(false);
      }
      rows := rows[e.id := e];
      return Ok(true);
    }

    /** Selects by recipient and time, ordered by time and cut off at the limit. */
    method Fetch(recipient: DeviceId, since: U64, limit: nat) returns (items: seq<Envelope>)
      ensures IsBatch(Matching(rows, recipient, since), items, Clamped(limit))
      ensures |items| <= 64 && (|items| <= limit || |items| == 1)
      ensures forall e | e in items :: e in rows.Values && e.recipient == recipient && AsI64(e.ts) >= AsI64(since)
      ensures forall i, j | 0 <= i < j < |items| :: items[i] != items[j] && AsI64(items[i].ts) <= AsI64(items[j].ts)
      ensures forall e | e in rows.Values && e.recipient == recipient && AsI64(e.ts) >= AsI64(since) && e !in items ::
                && (|items| == 64 || |items| == limit || (|items| == 1 && limit == 0))
                && forall x | x in items :: AsI64(x.ts) <= AsI64(e.ts)
    {
      var n := Clamped(limit);
      var rest := Matching(rows, recipient, since);
      ghost var all := rest;
      items := [];
      while |items| < n && rest != {}
        invariant rest <= all && NoDuplicates(items) && |items| <= n && |items| + |rest| == |all|
        invariant forall e :: e in items <==> e in all && e !in rest
        invariant OldestFirst(items)
        invariant forall e, x | e in rest && x in items :: Key(x) <= Key(e)
        decreases |rest|
      {
        ghost var oldest := OldestExists(rest);
        var e :| e in rest && forall f | f in rest :: Key(e) <= Key(f);
        items := items + [e];
        rest := rest - {e};
      }
      MatchingIs(recipient, since);
      ElementsOfList(items);
    }

    lemma MatchingIs(recipient: DeviceId, since: U64)
      ensures forall e :: e in Matching(rows, recipient, since) <==>
                            e in rows.Values && e.recipient == recipient && AsI64(e.ts) >= AsI64(since)
    {
      forall e | e in rows.Values && Matches(e, recipient, since) ensures e in Matching(rows, recipient, since) {
        var id :| id in rows && rows[id] == e;
      }
    }

    method Ack(recipient: DeviceId, ids: seq<EnvelopeId>) returns (n: nat)
      modifies this
      ensures rows == Acked(old(rows), recipient, ids)
      ensures forall id :: id in rows <==> id in old(rows) && !(id in ids && old(rows)[id].recipient == recipient)
      ensures forall id | id in rows :: rows[id] == old(rows)[id]
      ensures n == |old(rows)| - |rows|
    {
      n := 0;
      for i := 0 to |ids|
        invariant rows == Acked(old(rows), recipient, ids[..i])
        invariant n == |old(rows)| - |rows|
      {
        assert ids[..i + 1] == ids[..i] + [ids[i]];
        if ids[i] in rows && rows[ids[i]].recipient == recipient {
          OneRowLess(rows, ids[i]);
          rows := rows - {ids[i]};
          n := n + 1;
        }
      }
      assert ids[..|ids|] == ids;
    }
  }

  // ----- The relay as a whole -----

  datatype Relay = Relay(rows: Rows, limiter: Shared)

  predicate PutAllowed(s: Relay, e: Envelope, now: Instant, most: nat) {
    SharedAdmits(s.limiter, e.sender, now, most)
  }

  function Handled(s: Relay, req: Request, now: Instant, most: nat): Relay {
    match req
    case FetchReq(_, _, _) => s
    case AckReq(recipient, ids) => s.(rows := Acked(s.rows, recipient, ids))
    case PutReq(e) =>
      Relay(if PutAllowed(s, e, now, most) then Stored(s.rows, e) else s.rows,
            SharedAfter(s.limiter, e.sender, now, most))
  }

  class RelayState {
    const store: EnvelopeStore
    const limiter: RateLimiter

    constructor (most: nat, now: Instant)
      ensures fresh(store) && fresh(limiter) && limiter.maxPerWindow == most
      ensures State() == Relay(map[], Shared(now, map[]))
    {
      store := new EnvelopeStore();
      limiter := new RateLimiter(most, now);
    }

    function State(): Relay
      reads store, limiter
    {
      Relay(store.rows, limiter.State())
    }

    /** Only puts are counted against the sender; a refused put stores nothing. */
    method Handle(req: Request, now: Instant) returns (r: Result<Response, RelayError>)
      requires limiter.windowStart <= now
      modifies store, limiter
      ensures limiter.windowStart <= now
      ensures State() == Handled(old(State()), req, now, limiter.maxPerWindow)
      ensures r == Err(RateLimited) <==>
                req.PutReq? && !PutAllowed(old(State()), req.envelope, now, limiter.maxPerWindow)
      ensures req.PutReq? && r != Err(RateLimited) ==>
                && (r == Err(TooLarge) <==> |req.envelope.ciphertext| > 262_144)
                && (r.Ok? <==> Acceptable(req.envelope))
      ensures req.FetchReq? ==> r.Ok? && r.value.Envelopes?
      ensures req.FetchReq? ==>
                IsBatch(Matching(store.rows, req.recipient, req.since), r.value.items, Clamped(req.limit))
      ensures !req.FetchReq? && r.Ok? ==> r.value == Done
      ensures req.AckReq? ==> r.Ok?
    {
      match req {
        case PutReq(envelope) =>
          var allowed := limiter.Allow(envelope.sender, now);
          if !allowed {
            return Err(RateLimited);
          }
          var put := store.Put(envelope);
          if put.Err? {
            return Err(put.error);
          }
          return Ok(Done);
        case FetchReq(recipient, since, limit) =>
          var items := store.Fetch(recipient, since, limit);
          return Ok(Envelopes(items));
        case AckReq(recipient, ids) =>
          var _ := store.Ack(recipient, ids);
          return Ok(Done);
      }
    }
  }

  // ----- Conservation over runs -----

  datatype Call = Call(req: Request, now: Instant)

  function RunFrom(s: Relay, calls: seq<Call>, most: nat): Relay {
    if calls == [] then s else
    var last := calls[|calls| - 1];
    Handled(RunFrom(s, calls[..|calls| - 1], most), last.req, last.now, most)
  }

  /** The i-th call deposits an envelope with this id: within the rate, small enough, with the right id. */
  ghost predicate Deposits(s: Relay, calls: seq<Call>, most: nat, i: nat, id: EnvelopeId)
    requires i < |calls|
  {
    var c := calls[i];
    && c.req.PutReq? && c.req.envelope.id == id && Acceptable(c.req.envelope)
    && PutAllowed(RunFrom(s, calls[..i], most), c.req.envelope, c.now, most)
  }

  /** The envelope's own recipient acks it. */
  ghost predicate AcksOwn(call: Call, id: EnvelopeId) {
    call.req.AckReq? && id in call.req.ids && id.Digest? && call.req.recipient == id.recipient
  }

  ghost predicate NotAckedSince(calls: seq<Call>, i: nat, id: EnvelopeId) {
    forall j | i <= j < |calls| :: !AcksOwn(calls[j], id)
  }

  ghost predicate StillWaiting(s: Relay, calls: seq<Call>, most: nat, id: EnvelopeId) {
    exists i: nat :: i < |calls| && Deposits(s, calls, most, i, id) && NotAckedSince(calls, i + 1, id)
  }

  lemma StaysSound(s: Relay, req: Request, now: Instant, most: nat)
    requires Sound(s.rows)
    ensures Sound(Handled(s, req, now, most).rows)
  {
  }

  lemma {:induction false} RunIsSound(s: Relay, calls: seq<Call>, most: nat)
    requires Sound(s.rows)
    ensures Sound(RunFrom(s, calls, most).rows)
  {
    if calls != [] {
      var front, last := calls[..|calls| - 1], calls[|calls| - 1];
      RunIsSound(s, front, most);
      StaysSound(RunFrom(s, front, most), last.req, last.now, most);
    }
  }

  /** A row keeps all its fields, room hint included, until its own recipient acks its id. */
  lemma {:induction false} RowIsKept(s: Relay, calls: seq<Call>, most: nat, id: EnvelopeId)
    requires Sound(s.rows) && id in s.rows && NotAckedSince(calls, 0, id)
    ensures var rows := RunFrom(s, calls, most).rows; id in rows && rows[id] == s.rows[id]
  {
    if calls != [] {
      var front := calls[..|calls| - 1];
      RowIsKept(s, front, most, id);
      assert !AcksOwn(calls[|calls| - 1], id);
    }
  }

  lemma WaitingStep(s: Relay, calls: seq<Call>, most: nat, id: EnvelopeId)
    requires calls != []
    ensures var n := |calls| - 1;
            StillWaiting(s, calls, most, id) <==>
            !AcksOwn(calls[n], id) && (StillWaiting(s, calls[..n], most, id) || Deposits(s, calls, most, n, id))
  {
    hide RunFrom, Acceptable, PutAllowed, IdFor;
    var n := |calls| - 1;
    var front := calls[..n];
    assert forall i | 0 <= i < n :: calls[i] == front[i];
    forall i: nat | i < n ensures Deposits(s, calls, most, i, id) <==> Deposits(s, front, most, i, id) {
      assert calls[..i] == front[..i];
    }
    if StillWaiting(s, calls, most, id) {
      var i: nat :| i < |calls| && Deposits(s, calls, most, i, id) && NotAckedSince(calls, i + 1, id);
      if i < n {
        assert Deposits(s, front, most, i, id) && NotAckedSince(front, i + 1, id);
        assert !AcksOwn(calls[n], id);
      }
    }
    if !AcksOwn(calls[n], id) && StillWaiting(s, front, most, id) {
      var i: nat :| i < |front| && Deposits(s, front, most, i, id) && NotAckedSince(front, i + 1, id);
      assert Deposits(s, calls, most, i, id) && NotAckedSince(calls, i + 1, id);
    }
    if Deposits(s, calls, most, n, id) {
      assert NotAckedSince(calls, n + 1, id);
    }
  }

  lemma StoredStep(s: Relay, call: Call, most: nat, id: EnvelopeId)
    requires Sound(s.rows)
    ensures id in Handled(s, call.req, call.now, most).rows <==>
            !AcksOwn(call, id) &&
            (id in s.rows ||
             (call.req.PutReq? && call.req.envelope.id == id && Acceptable(call.req.envelope)
              && PutAllowed(s, call.req.envelope, call.now, most)))
  {
  }

  /** Envelopes that the relay keeps under one id agree in everything that a recipient relies on. */
  lemma SameIdSameEnvelope(a: Envelope, b: Envelope)
    requires Acceptable(a) && Acceptable(b) && a.id == b.id
    ensures a.ciphertext == b.ciphertext && a.recipient == b.recipient && a.sender == b.sender && a.ts == b.ts
  {
  }

  /**
   Conservation: after any run of requests, of everybody and refused ones included, the relay holds exactly
   the envelopes deposited and not since acked by their own recipient, and each under the id of its contents.
   */
  lemma {:induction false} Conservation(start: Instant, calls: seq<Call>, most: nat, id: EnvelopeId)
    ensures var s := Relay(map[], Shared(start, map[]));
            var rows := RunFrom(s, calls, most).rows;
            && Sound(rows)
            && (id in rows <==> StillWaiting(s, calls, most, id))
  {
    var s := Relay(map[], Shared(start, map[]));
    RunIsSound(s, calls, most);
    if calls != [] {
      var n := |calls| - 1;
      Conservation(start, calls[..n], most, id);
      WaitingStep(s, calls, most, id);
      StoredStep(RunFrom(s, calls[..n], most), calls[n], most, id);
    }
  }
}
