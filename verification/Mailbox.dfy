/** The node's side of the relay: polling its mailbox until it is empty (crates/td-node/src/rpc.rs). */
module Mailboxes {
  import opened Wrappers
  import opened Sequences
  import opened Bytes
  import opened FixedWindow
  import opened Relays

  datatype PollError = FetchFailed

  /** What the node can open. Opening is taken to be fixed while a mailbox is drained. */
  type Opener = Envelope -> bool

  function Mail(rows: Rows, me: DeviceId): set<Envelope> {
    Matching(rows, me, 0)
  }

  function Openable(mail: set<Envelope>, open: Opener): set<Envelope> {
    set e | e in mail && open(e)
  }

  /** The unopenable mail that can come before openable mail in a batch. */
  ghost function InTheWay(mail: set<Envelope>, open: Opener): set<Envelope> {
    set f | f in mail && !open(f) && exists e :: e in mail && open(e) && Key(f) <= Key(e)
  }

  ghost function OlderUnopenable(mail: set<Envelope>, open: Opener, e: Envelope): set<Envelope> {
    set f | f in mail && !open(f) && Key(f) < Key(e)
  }

  function Opened(batch: seq<Envelope>, open: Opener): seq<Envelope> {
    if batch == [] then [] else
    var last := batch[|batch| - 1];
    Opened(batch[..|batch| - 1], open) + if open(last) then [last] else []
  }

  function Without(rows: Rows, gone: set<Envelope>): Rows {
    map id | id in rows && rows[id] !in gone :: rows[id]
  }

  // ----- The size of a response (crates/td-net/src/relay_proto.rs) -----

  const MAX_FRAME: nat := 16 * 1024 * 1024

  /** The object and the array around the envelopes: op, items, quotes, colons, commas and brackets. */
  const WRAPPING: nat := 29

  /** The JSON length of an envelope without its ciphertext: ids, timestamp and field names. */
  type Overhead = Envelope -> nat

  function Digits(b: Byte): nat {
    if b < 10 then 1 else if b < 100 then 2 else 3
  }

  function DigitsAndCommas(bytes: seq<Byte>): nat {
    if bytes == [] then 0 else DigitsAndCommas(bytes[..|bytes| - 1]) + Digits(bytes[|bytes| - 1]) + 1
  }

  /** Bytes are written as an array of decimal numbers. */
  function JsonLength(bytes: seq<Byte>): nat {
    if bytes == [] then 2 else DigitsAndCommas(bytes) + 1
  }

  function EnvelopeLength(e: Envelope, over: Overhead): nat {
    over(e) + JsonLength(e.ciphertext)
  }

  function ItemsLength(items: seq<Envelope>, over: Overhead): nat {
    if items == [] then 0 else
    ItemsLength(items[..|items| - 1], over) + EnvelopeLength(items[|items| - 1], over) + if |items| > 1 then 1 else 0
  }

  /** The relay does not write a longer response; it drops the connection instead. */
  predicate Fits(items: seq<Envelope>, over: Overhead) {
    WRAPPING + ItemsLength(items, over) <= MAX_FRAME
  }

  lemma WrappingIs()
    ensures WRAPPING == |"{\"op\":\"envelopes\",\"items\":[]}"| && MAX_FRAME == 16_777_216
  {
  }

  function Decimal(b: Byte): string {
    if b < 10 then ['0' + b as char]
    else if b < 100 then ['0' + (b / 10) as char, '0' + (b % 10) as char]
    else ['0' + (b / 100) as char, '0' + (b / 10 % 10) as char, '0' + (b % 10) as char]
  }

  function CommaSeparated(bytes: seq<Byte>): string {
    if bytes == [] then ""
    else if |bytes| == 1 then Decimal(bytes[0])
    else CommaSeparated(bytes[..|bytes| - 1]) + "," + Decimal(bytes[|bytes| - 1])
  }

  /** The length is that of the text. */
  lemma {:induction false} JsonLengthIs(bytes: seq<Byte>)
    ensures JsonLength(bytes) == |"[" + CommaSeparated(bytes) + "]"|
  {
    if |bytes| == 1 {
      assert bytes[..0] == [];
    } else if |bytes| > 1 {
      JsonLengthIs(bytes[..|bytes| - 1]);
    }
  }

  lemma {:induction false} AtLeastThat(items: seq<Envelope>, over: Overhead, least: nat)
    requires forall e | e in items :: JsonLength(e.ciphertext) >= least
    ensures ItemsLength(items, over) >= |items| * least
  {
    if items != [] {
      var front, last := items[..|items| - 1], items[|items| - 1];
      assert last in items;
      AtLeastThat(front, over, least);
      assert |items| * least == |front| * least + least;
    }
  }

  lemma {:induction false} LengthOfRepeated(b: Byte, n: nat)
    ensures DigitsAndCommas(seq(n, _ => b)) == n * (Digits(b) + 1)
  {
    if n > 0 {
      LengthOfRepeated(b, n - 1);
      assert seq(n, _ => b)[..n - 1] == seq(n - 1, _ => b);
    }
  }

  // ----- What a poll hands over -----

  lemma {:induction false} OpenedMembers(batch: seq<Envelope>, open: Opener)
    ensures forall e :: e in Opened(batch, open) <==> e in batch && open(e)
  {
    if batch != [] {
      var front := batch[..|batch| - 1];
      OpenedMembers(front, open);
      assert batch == front + [batch[|batch| - 1]];
    }
  }

  lemma {:induction false} OpenedProperties(batch: seq<Envelope>, open: Opener)
    requires NoDuplicates(batch) && OldestFirst(batch)
    ensures NoDuplicates(Opened(batch, open)) && OldestFirst(Opened(batch, open))
    ensures Elements(Opened(batch, open)) == Openable(Elements(batch), open)
  {
    OpenedMembers(batch, open);
    if batch != [] {
      var front, last := batch[..|batch| - 1], batch[|batch| - 1];
      OpenedProperties(front, open);
      OpenedMembers(front, open);
      var o := Opened(front, open);
      forall i | 0 <= i < |o| ensures o[i] != last && Key(o[i]) <= Key(last) {
        assert o[i] in front;
      }
    }
  }

  lemma WithoutTwice(rows: Rows, me: DeviceId, a: set<Envelope>, b: set<Envelope>)
    requires Sound(rows)
    ensures Without(Without(rows, a), b) == Without(rows, a + b)
    ensures Mail(Without(rows, a), me) == Mail(rows, me) - a
    ensures Sound(Without(rows, a))
  {
    forall e ensures e in Mail(Without(rows, a), me) <==> e in Mail(rows, me) - a {
      if e in Mail(rows, me) - a {
        assert e.id in Without(rows, a);
      }
    }
  }

  lemma AckRemovesOpened(rows: Rows, me: DeviceId, handed: seq<Envelope>, ids: seq<EnvelopeId>)
    requires Sound(rows) && Elements(handed) <= Mail(rows, me)
    requires |ids| == |handed| && forall i | 0 <= i < |ids| :: ids[i] == handed[i].id
    ensures Acked(rows, me, ids) == Without(rows, Elements(handed)) && Sound(Acked(rows, me, ids))
    ensures Mail(Without(rows, Elements(handed)), me) == Mail(rows, me) - Elements(handed)
  {
    forall id | id in rows ensures (rows[id].recipient == me && id in ids) <==> rows[id] in handed {
      if id in ids {
        var i :| 0 <= i < |ids| && ids[i] == id;
        assert handed[i] in Elements(handed);
      }
      if rows[id] in handed {
        var i :| 0 <= i < |handed| && handed[i] == rows[id];
        assert rows[id] in Elements(handed);
        assert ids[i] == id;
      }
    }
    WithoutTwice(rows, me, Elements(handed), {});
  }

  /**
   One poll: fetch, open what can be opened, hand it to the node, and ack exactly what was opened. It counts what
   the node accepted, and acks the rest of what was opened all the same. The ack may be lost.
   */
  method PollOnce(
    relay: RelayState, me: DeviceId, open: Opener, accepts: Opener, over: Overhead, acks: bool, now: Instant)
    returns (r: Result<nat, PollError>, handed: seq<Envelope>, ghost batch: seq<Envelope>)
    requires relay.limiter.windowStart <= now && Sound(relay.store.rows)
    modifies relay.store, relay.limiter
    ensures relay.limiter.windowStart <= now && Sound(relay.store.rows)
    ensures IsBatch(Mail(old(relay.store.rows), me), batch, FETCH_LIMIT)
    ensures r.Ok? <==> Fits(batch, over)
    ensures handed == if r.Ok? then Opened(batch, open) else []
    ensures r.Ok? ==> r.value == |Opened(handed, accepts)|
    ensures relay.store.rows == if acks then Without(old(relay.store.rows), Elements(handed)) else old(relay.store.rows)
  {
    hide Opened, Fits;
    handed := [];
    var fetched := relay.Handle(FetchReq(me, 0, 64), now);
    var items := fetched.value.items;
    batch := items;
    if !Fits(items, over) {
      NothingLeaves(relay.store.rows);
      return Err(FetchFailed), handed, batch;
    }
    var acked, inserted;
    handed, acked, inserted := OpenAndIngest(items, open, accepts);
    OpenedIsMail(relay.store.rows, me, items, open);
    AckRemovesOpened(relay.store.rows, me, handed, acked);
    NothingLeaves(relay.store.rows);
    if acked != [] && acks {
      var _ := relay.Handle(AckReq(me, acked), now);
    }
    return Ok(inserted), handed, batch;
  }

  /** The loop of a poll over the fetched envelopes. */
  method OpenAndIngest(items: seq<Envelope>, open: Opener, accepts: Opener)
    returns (handed: seq<Envelope>, acked: seq<EnvelopeId>, inserted: nat)
    ensures handed == Opened(items, open) && inserted == |Opened(handed, accepts)|
    ensures |acked| == |handed| && forall k | 0 <= k < |acked| :: acked[k] == handed[k].id
  {
    hide Opened;
    NothingOpened(open);
    NothingOpened(accepts);
    handed, acked, inserted := [], [], 0;
    for i := 0 to |items|
      invariant handed == Opened(items[..i], open) && inserted == |Opened(handed, accepts)|
      invariant |acked| == |handed| && forall k | 0 <= k < |acked| :: acked[k] == handed[k].id
    {
      assert items[..i + 1] == items[..i] + [items[i]];
      OpenedSnoc(items[..i], items[i], open);
      if open(items[i]) {
        OpenedSnoc(handed, items[i], accepts);
        if accepts(items[i]) {
          inserted := inserted + 1;
        }
        handed, acked := handed + [items[i]], acked + [items[i].id];
      }
    }
    assert items[..|items|] == items;
  }

  lemma NothingOpened(open: Opener)
    ensures Opened([], open) == []
  {
  }

  lemma OpenedSnoc(s: seq<Envelope>, e: Envelope, open: Opener)
    ensures Opened(s + [e], open) == Opened(s, open) + if open(e) then [e] else []
  {
    assert (s + [e])[..|s|] == s;
  }

  lemma OpenedIsMail(rows: Rows, me: DeviceId, items: seq<Envelope>, open: Opener)
    requires Elements(items) <= Mail(rows, me)
    ensures Elements(Opened(items, open)) <= Mail(rows, me)
  {
    OpenedMembers(items, open);
  }

  lemma NothingLeaves(rows: Rows)
    ensures Without(rows, Elements([])) == rows
  {
  }

  // ----- Draining -----

  /** What is left of `n` after taking up to `taken`. */
  function Rest(n: nat, taken: nat): nat {
    if n > taken then n - taken else 0
  }

  /** What that many polls can hand over past the obstacles. */
  function Capacity(polls: nat, obstacles: nat): nat {
    if polls == 0 then 0 else Capacity(polls - 1, obstacles) + Rest(FETCH_LIMIT, obstacles)
  }

  lemma {:induction false} CapacityIsProduct(polls: nat, obstacles: nat)
    ensures Capacity(polls, obstacles) == polls * Rest(FETCH_LIMIT, obstacles)
  {
    if polls > 0 {
      CapacityIsProduct(polls - 1, obstacles);
    }
  }

  lemma CardinalityOfParts<T>(all: set<T>, part: set<T>)
    requires part <= all
    ensures |all| == |part| + |all - part|
  {
    assert all == part + (all - part);
  }

  lemma Larger<T>(s: set<T>, t: set<T>)
    requires s <= t
    ensures |s| <= |t|
  {
    CardinalityOfParts(t, s);
  }

  lemma SameSize<T>(s: set<T>, t: set<T>)
    requires s <= t && |s| == |t|
    ensures s == t
  {
    CardinalityOfParts(t, s);
  }

  /** What is handed over leaves the unopenable mail, and nothing new gets in the way. */
  lemma RestOfMail(mail: set<Envelope>, open: Opener, handed: set<Envelope>)
    requires handed <= Openable(mail, open)
    ensures Openable(mail - handed, open) == Openable(mail, open) - handed
    ensures |InTheWay(mail - handed, open)| <= |InTheWay(mail, open)|
    ensures forall e :: OlderUnopenable(mail - handed, open, e) == OlderUnopenable(mail, open, e)
  {
    assert InTheWay(mail - handed, open) <= InTheWay(mail, open);
    Larger(InTheWay(mail - handed, open), InTheWay(mail, open));
  }

  /** Unopenable mail in a batch that leaves openable mail behind is in the way of that mail. */
  lemma ClosedIsInTheWay(mail: set<Envelope>, batch: seq<Envelope>, open: Opener, closed: set<Envelope>, e: Envelope)
    requires IsBatch(mail, batch, FETCH_LIMIT) && e in mail && open(e) && e !in batch
    requires forall f | f in closed :: f in batch && !open(f)
    ensures |closed| <= |InTheWay(mail, open)| && |batch| == FETCH_LIMIT
  {
    assert closed <= InTheWay(mail, open) by {
      forall f | f in closed ensures f in InTheWay(mail, open) {
        assert f in Elements(batch) && Key(f) <= Key(e);
      }
    }
    Larger(closed, InTheWay(mail, open));
    ElementsOfList(batch);
    if |mail| < FETCH_LIMIT {
      SameSize(Elements(batch), mail);
      assert false;
    }
  }

  /** A batch holds all openable mail, or is full of openable mail but for what is in the way. */
  lemma BatchProgress(mail: set<Envelope>, batch: seq<Envelope>, open: Opener, obstacles: nat)
    requires IsBatch(mail, batch, FETCH_LIMIT) && |InTheWay(mail, open)| <= obstacles
    ensures var left := Openable(mail, open) - Elements(Opened(batch, open));
            |left| <= Rest(|Openable(mail, open)|, Rest(FETCH_LIMIT, obstacles))
  {
    OpenedMembers(batch, open);
    hide IsBatch, InTheWay, Opened, Key, NoDuplicates;
    BatchLength(mail, batch);
    var all, got := Openable(mail, open), Elements(Opened(batch, open));
    assert got <= all;
    CardinalityOfParts(all, got);
    if all - got != {} {
      var e :| e in all - got;
      var closed := Elements(batch) - got;
      ClosedIsInTheWay(mail, batch, open, closed, e);
      BatchElements(mail, batch);
      CardinalityOfParts(Elements(batch), got);
    }
  }

  lemma BatchLength(mail: set<Envelope>, batch: seq<Envelope>)
    requires IsBatch(mail, batch, FETCH_LIMIT)
    ensures |batch| <= FETCH_LIMIT && Elements(batch) <= mail
  {
  }

  lemma BatchElements(mail: set<Envelope>, batch: seq<Envelope>)
    requires IsBatch(mail, batch, FETCH_LIMIT)
    ensures |Elements(batch)| == |batch|
  {
    ElementsOfList(batch);
  }

  /** Mail behind a full batch of older unopenable mail is not fetched. */
  lemma BehindTheWall(mail: set<Envelope>, batch: seq<Envelope>, open: Opener, e: Envelope)
    requires IsBatch(mail, batch, FETCH_LIMIT) && |OlderUnopenable(mail, open, e)| >= FETCH_LIMIT
    requires e in mail && open(e)
    ensures e !in batch
  {
    var older := OlderUnopenable(mail, open, e);
    assert |older + {e}| == |older| + 1;
    ElementsOfList(batch);
    if older + {e} <= Elements(batch) {
      Larger(older + {e}, Elements(batch));
      assert false;
    }
  }
}
