/**
 Polls one after the other, with no put in between: what a course of polls hands over, when it empties a mailbox
 of all that can be opened, and when it gets stuck (crates/td-node/src/rpc.rs).
 */
module Courses {
  import opened Wrappers
  import opened Sequences
  import opened Bytes
  import opened FixedWindow
  import opened Relays
  import opened Mailboxes

  type Batches = seq<seq<Envelope>>

  /** What the polls that fetched these batches have handed over; a batch that does not fit hands over nothing. */
  ghost function HandedBy(open: Opener, over: Overhead, batches: Batches): seq<Envelope> {
    if batches == [] then [] else
    var last := batches[|batches| - 1];
    HandedBy(open, over, batches[..|batches| - 1]) + if Fits(last, over) then Opened(last, open) else []
  }

  /** Batches that polls of this mail can fetch, one after the other. */
  ghost predicate Course(mail: set<Envelope>, open: Opener, over: Overhead, batches: Batches) {
    batches == [] ||
    var front := batches[..|batches| - 1];
    && Course(mail, open, over, front)
    && IsBatch(mail - Elements(HandedBy(open, over, front)), batches[|batches| - 1], FETCH_LIMIT)
  }

  ghost function Undelivered(mail: set<Envelope>, open: Opener, over: Overhead, batches: Batches): set<Envelope> {
    Openable(mail, open) - Elements(HandedBy(open, over, batches))
  }

  lemma CourseSnoc(mail: set<Envelope>, open: Opener, over: Overhead, batches: Batches, batch: seq<Envelope>)
    ensures HandedBy(open, over, batches + [batch])
         == HandedBy(open, over, batches) + if Fits(batch, over) then Opened(batch, open) else []
    ensures Course(mail, open, over, batches + [batch]) <==>
              Course(mail, open, over, batches)
              && IsBatch(mail - Elements(HandedBy(open, over, batches)), batch, FETCH_LIMIT)
  {
    assert (batches + [batch])[..|batches|] == batches;
  }

  /** The state of a drain: what was handed over, what is left, and the order between the two. */
  ghost predicate Draining(mail: set<Envelope>, handed: seq<Envelope>, open: Opener) {
    && NoDuplicates(handed) && Elements(handed) <= Openable(mail, open)
    && OldestFirst(handed)
    && (forall x, e | x in handed && e in Openable(mail, open) && e !in handed :: Key(x) <= Key(e))
  }

  lemma DrainStep(mail: set<Envelope>, handed: seq<Envelope>, batch: seq<Envelope>, open: Opener)
    requires Draining(mail, handed, open) && IsBatch(mail - Elements(handed), batch, FETCH_LIMIT)
    ensures Draining(mail, handed + Opened(batch, open), open)
    ensures Elements(handed + Opened(batch, open)) == Elements(handed) + Elements(Opened(batch, open))
    ensures Elements(Opened(batch, open)) <= mail - Elements(handed)
  {
    OpenedMembers(batch, open);
    OpenedProperties(batch, open);
    var more := Opened(batch, open);
    var all := handed + more;
    forall e ensures e in all <==> e in handed || e in more {
    }
    forall x | x in more ensures x in Openable(mail, open) && x !in handed {
      assert x in Elements(batch);
    }
    forall i, j | 0 <= i < j < |all| ensures all[i] != all[j] && Key(all[i]) <= Key(all[j]) {
      if i < |handed| <= j {
        assert all[j] in more && all[i] in handed;
      }
    }
    forall x, e | x in all && e in Openable(mail, open) && e !in all ensures Key(x) <= Key(e) {
      if x in more {
        assert e in mail - Elements(handed) && e !in batch;
      }
    }
  }

  /** Mail that a wall of older unopenable mail keeps back. */
  ghost predicate Walled(mail: set<Envelope>, open: Opener, e: Envelope) {
    e in Openable(mail, open) && |OlderUnopenable(mail, open, e)| >= FETCH_LIMIT
  }

  lemma StillWalled(mail: set<Envelope>, handed: seq<Envelope>, batch: seq<Envelope>, open: Opener)
    requires Draining(mail, handed, open) && IsBatch(mail - Elements(handed), batch, FETCH_LIMIT)
    requires forall e | Walled(mail, open, e) :: e !in handed
    ensures forall e | Walled(mail, open, e) :: e !in handed + Opened(batch, open)
  {
    OpenedMembers(batch, open);
    RestOfMail(mail, open, Elements(handed));
    forall e | Walled(mail, open, e) ensures e !in batch {
      BehindTheWall(mail - Elements(handed), batch, open, e);
    }
  }

  lemma {:induction false} OpenedIsNoLonger(batch: seq<Envelope>, open: Opener)
    ensures |Opened(batch, open)| <= |batch|
  {
    if batch != [] {
      OpenedIsNoLonger(batch[..|batch| - 1], open);
    }
  }

  /**
   Every course hands over each openable envelope at most once, in nondecreasing order of time, and never one
   behind a wall.
   */
  lemma {:induction false} CourseHandsOver(mail: set<Envelope>, open: Opener, over: Overhead, batches: Batches)
    requires Course(mail, open, over, batches)
    ensures Draining(mail, HandedBy(open, over, batches), open)
    ensures |HandedBy(open, over, batches)| <= |batches| * FETCH_LIMIT
    ensures forall e | Walled(mail, open, e) :: e !in HandedBy(open, over, batches)
  {
    if batches != [] {
      hide IsBatch, Draining, Walled, Opened, Fits;
      var front, last := batches[..|batches| - 1], batches[|batches| - 1];
      CourseHandsOver(mail, open, over, front);
      var handed := HandedBy(open, over, front);
      DrainStep(mail, handed, last, open);
      StillWalled(mail, handed, last, open);
      OpenedIsNoLonger(last, open);
      BatchLength(mail - Elements(handed), last);
      assert handed + [] == handed;
    } else {
      NothingHandedYet(mail, open);
    }
  }

  lemma NothingHandedYet(mail: set<Envelope>, open: Opener)
    ensures Draining(mail, [], open)
  {
  }

  /** The polls of the background task; exactly what is handed over leaves the relay. */
  method Drain(relay: RelayState, me: DeviceId, open: Opener, over: Overhead, polls: nat, now: Instant)
    returns (handed: seq<Envelope>, ghost batches: Batches)
    requires relay.limiter.windowStart <= now && Sound(relay.store.rows)
    modifies relay.store, relay.limiter
    ensures Course(Mail(old(relay.store.rows), me), open, over, batches) && |batches| == polls
    ensures handed == HandedBy(open, over, batches)
    ensures relay.store.rows == Without(old(relay.store.rows), Elements(handed))
  {
    hide *;
    handed, batches := [], [];
    ghost var rows := relay.store.rows;
    ghost var mail := Mail(rows, me);
    CourseBegins(mail, open, over, rows);
    for k := 0 to polls
      invariant relay.limiter.windowStart <= now && Sound(relay.store.rows)
      invariant relay.store.rows == Without(rows, Elements(handed))
      invariant Course(mail, open, over, batches) && |batches| == k && handed == HandedBy(open, over, batches)
    {
      var inserted, more, batch := PollOnce(relay, me, open, _ => true, over, true, now);
      RowsAfterPoll(rows, me, handed, more);
      CourseSnoc(mail, open, over, batches, batch);
      handed, batches := handed + more, batches + [batch];
    }
  }

  lemma CourseBegins(mail: set<Envelope>, open: Opener, over: Overhead, rows: Rows)
    ensures Course(mail, open, over, []) && HandedBy(open, over, []) == []
    ensures rows == Without(rows, Elements([]))
  {
  }

  lemma RowsAfterPoll(rows: Rows, me: DeviceId, handed: seq<Envelope>, more: seq<Envelope>)
    requires Sound(rows)
    ensures Mail(Without(rows, Elements(handed)), me) == Mail(rows, me) - Elements(handed)
    ensures Without(Without(rows, Elements(handed)), Elements(more)) == Without(rows, Elements(handed + more))
  {
    WithoutTwice(rows, me, Elements(handed), Elements(more));
    assert Elements(handed + more) == Elements(handed) + Elements(more);
  }

  // ----- Stuck for good -----

  /** A mailbox whose oldest mail never fits into a response: no number of polls hands over anything. */
  lemma {:induction false} NothingFitsNothingComes(
    mail: set<Envelope>, open: Opener, over: Overhead, batches: Batches)
    requires forall batch | IsBatch(mail, batch, FETCH_LIMIT) :: !Fits(batch, over)
    requires Course(mail, open, over, batches)
    ensures HandedBy(open, over, batches) == []
  {
    if batches != [] {
      NothingFitsNothingComes(mail, open, over, batches[..|batches| - 1]);
      assert mail - Elements([]) == mail;
    }
  }

  /** Many large envelopes are such a mailbox, whatever their other fields. */
  lemma LargeMailNeverFits(mail: set<Envelope>, over: Overhead, least: nat, batch: seq<Envelope>)
    requires forall e | e in mail :: JsonLength(e.ciphertext) >= least
    requires (if |mail| < FETCH_LIMIT then |mail| else FETCH_LIMIT) * least > MAX_FRAME - WRAPPING
    requires IsBatch(mail, batch, FETCH_LIMIT)
    ensures !Fits(batch, over)
  {
    forall e | e in batch ensures JsonLength(e.ciphertext) >= least {
      assert e in Elements(batch);
    }
    AtLeastThat(batch, over, least);
  }

  function LargeEnvelope(ts: U64): Envelope {
    var ciphertext := seq(MAX_CIPHERTEXT, _ => 255);
    Envelope(EnvelopeId.Digest(ciphertext, 1, 2, ts), 1, 2, None, ciphertext, ts)
  }

  /**
   Sixteen envelopes of the greatest size that the relay accepts, all of them openable and of different times:
   no poll ever gets any of them.
   */
  lemma SixteenLargeEnvelopes(open: Opener, over: Overhead, batches: Batches)
    requires forall e :: open(e)
    requires Course(Elements(seq(16, i requires 0 <= i < 16 => LargeEnvelope(i))), open, over, batches)
    ensures forall i | 0 <= i < 16 :: Acceptable(LargeEnvelope(i))
    ensures HandedBy(open, over, batches) == []
  {
    var queue := seq(16, i requires 0 <= i < 16 => LargeEnvelope(i));
    var mail := Elements(queue);
    var least := MAX_CIPHERTEXT * 4 + 1;
    hide LargeEnvelope, JsonLength, DigitsAndCommas, Fits, IsBatch;
    forall i | 0 <= i < 16 ensures Acceptable(LargeEnvelope(i)) && JsonLength(LargeEnvelope(i).ciphertext) == least {
      LargeIsAcceptable(i);
    }
    forall i, j | 0 <= i < j < 16 ensures queue[i] != queue[j] {
      LargeIsAcceptable(i);
      LargeIsAcceptable(j);
    }
    ElementsOfList(queue);
    forall batch | IsBatch(mail, batch, FETCH_LIMIT) ensures !Fits(batch, over) {
      LargeMailNeverFits(mail, over, least, batch);
    }
    NothingFitsNothingComes(mail, open, over, batches);
  }

  lemma LargeIsAcceptable(ts: U64)
    ensures var e := LargeEnvelope(ts);
            Acceptable(e) && JsonLength(e.ciphertext) == MAX_CIPHERTEXT * 4 + 1 && e.ts == ts
  {
    LengthOfRepeated(255, MAX_CIPHERTEXT);
  }

  // ----- Exactly when a course empties the mailbox -----

  /** Each batch fits, for as long as openable mail was left when it was fetched. */
  ghost predicate FitsAlong(mail: set<Envelope>, open: Opener, over: Overhead, batches: Batches) {
    batches == [] ||
    var front, last := batches[..|batches| - 1], batches[|batches| - 1];
    && FitsAlong(mail, open, over, front)
    && (Undelivered(mail, open, over, front) != {} ==> Fits(last, over))
  }

  /** No course meets a batch that is too large while openable mail is left. */
  ghost predicate NothingTooLarge(mail: set<Envelope>, open: Opener, over: Overhead) {
    forall batches | Course(mail, open, over, batches) :: FitsAlong(mail, open, over, batches)
  }

  /** An envelope that leaves room for 63 like it. */
  predicate Small(e: Envelope, over: Overhead) {
    EnvelopeLength(e, over) + 1 <= (MAX_FRAME - WRAPPING) / FETCH_LIMIT
  }

  lemma {:induction false} AtMostThat(items: seq<Envelope>, over: Overhead, most: nat)
    requires forall e | e in items :: EnvelopeLength(e, over) + 1 <= most
    ensures ItemsLength(items, over) <= |items| * most
  {
    hide EnvelopeLength;
    if items != [] {
      var front, last := items[..|items| - 1], items[|items| - 1];
      assert last in items;
      forall e | e in front ensures EnvelopeLength(e, over) + 1 <= most {
        assert e in items;
      }
      AtMostThat(front, over, most);
      assert |items| * most == |front| * most + most;
    }
  }

  lemma TimesAtMost(n: nat, most: nat)
    requires n <= FETCH_LIMIT && most <= (MAX_FRAME - WRAPPING) / FETCH_LIMIT
    ensures n * most <= MAX_FRAME - WRAPPING
  {
    assert n * most <= FETCH_LIMIT * most;
  }

  lemma SmallBatchFits(mail: set<Envelope>, gone: set<Envelope>, over: Overhead, batch: seq<Envelope>)
    requires forall e | e in mail :: Small(e, over)
    requires IsBatch(mail - gone, batch, FETCH_LIMIT)
    ensures Fits(batch, over)
  {
    hide ItemsLength, EnvelopeLength, OldestFirst;
    forall e | e in batch ensures Small(e, over) {
      assert e in Elements(batch);
    }
    AtMostThat(batch, over, (MAX_FRAME - WRAPPING) / FETCH_LIMIT);
    TimesAtMost(|batch|, (MAX_FRAME - WRAPPING) / FETCH_LIMIT);
  }

  lemma {:induction false} SmallFitsAlong(mail: set<Envelope>, open: Opener, over: Overhead, batches: Batches)
    requires (forall e | e in mail :: Small(e, over)) && Course(mail, open, over, batches)
    ensures FitsAlong(mail, open, over, batches)
  {
    if batches != [] {
      hide Fits, IsBatch, Small, HandedBy;
      var front, last := batches[..|batches| - 1], batches[|batches| - 1];
      SmallFitsAlong(mail, open, over, front);
      SmallBatchFits(mail, Elements(HandedBy(open, over, front)), over, last);
    }
  }

  /** Enough to look at each envelope by itself: if all leave room for 63 like them, nothing is ever too large. */
  lemma SmallMailIsNeverTooLarge(mail: set<Envelope>, open: Opener, over: Overhead)
    requires forall e | e in mail :: Small(e, over)
    ensures NothingTooLarge(mail, open, over)
  {
    forall batches | Course(mail, open, over, batches) ensures FitsAlong(mail, open, over, batches) {
      SmallFitsAlong(mail, open, over, batches);
    }
  }

  lemma BatchTakes(mail: set<Envelope>, open: Opener, over: Overhead, batches: Batches, batch: seq<Envelope>)
    requires Course(mail, open, over, batches + [batch]) && Fits(batch, over)
    ensures |Undelivered(mail, open, over, batches + [batch])|
         <= Rest(|Undelivered(mail, open, over, batches)|, Rest(FETCH_LIMIT, |InTheWay(mail, open)|))
  {
    hide *;
    CourseSnoc(mail, open, over, batches, batch);
    CourseHandsOver(mail, open, over, batches);
    var handed := HandedBy(open, over, batches);
    DrainingIsOpenable(mail, handed, open);
    DrainStep(mail, handed, batch, open);
    RestOfMail(mail, open, Elements(handed));
    BatchProgress(mail - Elements(handed), batch, open, |InTheWay(mail, open)|);
    UndeliveredMeans(mail, open, over, batches);
    UndeliveredMeans(mail, open, over, batches + [batch]);
    assert Openable(mail, open) - Elements(handed + Opened(batch, open))
        == Openable(mail, open) - Elements(handed) - Elements(Opened(batch, open));
  }

  lemma UndeliveredMeans(mail: set<Envelope>, open: Opener, over: Overhead, batches: Batches)
    ensures Undelivered(mail, open, over, batches) == Openable(mail, open) - Elements(HandedBy(open, over, batches))
  {
  }

  lemma DrainingIsOpenable(mail: set<Envelope>, handed: seq<Envelope>, open: Opener)
    requires Draining(mail, handed, open)
    ensures Elements(handed) <= Openable(mail, open)
  {
  }

  /** What is left never grows. */
  lemma LessAndLess(mail: set<Envelope>, open: Opener, over: Overhead, batches: Batches, batch: seq<Envelope>)
    ensures Undelivered(mail, open, over, batches + [batch]) <= Undelivered(mail, open, over, batches)
  {
    CourseSnoc(mail, open, over, batches, batch);
  }

  /** If all batches fit and `u` unopenable envelopes are in the way, each poll takes 64 - u of what is left. */
  lemma {:induction false} CourseProgress(mail: set<Envelope>, open: Opener, over: Overhead, batches: Batches)
    requires Course(mail, open, over, batches) && FitsAlong(mail, open, over, batches)
    ensures |Undelivered(mail, open, over, batches)|
         <= Rest(|Openable(mail, open)|, Capacity(|batches|, |InTheWay(mail, open)|))
  {
    hide *;
    var n, obstacles := |Openable(mail, open)|, |InTheWay(mail, open)|;
    if batches == [] {
      NothingTaken(mail, open, over);
    } else {
      var front, last := batches[..|batches| - 1], batches[|batches| - 1];
      assert batches == front + [last];
      FitsAlongMeans(mail, open, over, front, last);
      CourseSnoc(mail, open, over, front, last);
      CourseProgress(mail, open, over, front);
      LessAndLess(mail, open, over, front, last);
      var before, after := Undelivered(mail, open, over, front), Undelivered(mail, open, over, batches);
      TakenInTwo(n, |front|, obstacles, |before|, |after|);
      if Undelivered(mail, open, over, front) != {} {
        BatchTakes(mail, open, over, front, last);
      }
    }
  }

  lemma NothingTaken(mail: set<Envelope>, open: Opener, over: Overhead)
    ensures |Undelivered(mail, open, over, [])| <= Rest(|Openable(mail, open)|, Capacity(0, |InTheWay(mail, open)|))
  {
    assert Undelivered(mail, open, over, []) == Openable(mail, open);
  }

  lemma FitsAlongMeans(
    mail: set<Envelope>, open: Opener, over: Overhead, front: Batches, last: seq<Envelope>)
    ensures FitsAlong(mail, open, over, front + [last]) <==>
              FitsAlong(mail, open, over, front) && (Undelivered(mail, open, over, front) != {} ==> Fits(last, over))
  {
    assert (front + [last])[..|front|] == front;
  }

  lemma TakenInTwo(n: nat, polls: nat, obstacles: nat, before: nat, after: nat)
    requires before <= Rest(n, Capacity(polls, obstacles))
    ensures after <= Rest(before, Rest(FETCH_LIMIT, obstacles)) || (before == 0 && after == 0)
        ==> after <= Rest(n, Capacity(polls + 1, obstacles))
  {
  }

  /** Fewer than 64 obstacles and nothing too large: that many polls hand over all openable mail. */
  lemma AllIsHandedOver(mail: set<Envelope>, open: Opener, over: Overhead, batches: Batches)
    requires Course(mail, open, over, batches) && NothingTooLarge(mail, open, over)
    requires |batches| * Rest(FETCH_LIMIT, |InTheWay(mail, open)|) >= |Openable(mail, open)|
    ensures Undelivered(mail, open, over, batches) == {}
    ensures Elements(HandedBy(open, over, batches)) == Openable(mail, open)
  {
    assert FitsAlong(mail, open, over, batches);
    hide Course, FitsAlong, NothingTooLarge, Openable, InTheWay, HandedBy, Draining;
    CourseProgress(mail, open, over, batches);
    CapacityIsProduct(|batches|, |InTheWay(mail, open)|);
    CourseHandsOver(mail, open, over, batches);
    DrainingIsOpenable(mail, HandedBy(open, over, batches), open);
    assert |Undelivered(mail, open, over, batches)| == 0;
  }

  // ----- Courses that do not end well -----

  lemma {:induction false} BatchExists(mail: set<Envelope>, limit: nat) returns (batch: seq<Envelope>)
    ensures IsBatch(mail, batch, limit)
    decreases limit
  {
    if limit == 0 || mail == {} {
      batch := [];
    } else {
      var e := OldestExists(mail);
      var rest := BatchExists(mail - {e}, limit - 1);
      batch := [e] + rest;
      OldestThenBatch(mail, e, rest, limit);
    }
  }

  lemma OldestThenBatch(mail: set<Envelope>, e: Envelope, rest: seq<Envelope>, limit: nat)
    requires e in mail && (forall f | f in mail :: Key(e) <= Key(f))
    requires limit > 0 && IsBatch(mail - {e}, rest, limit - 1)
    ensures IsBatch(mail, [e] + rest, limit)
  {
    hide Key;
    assert |mail - {e}| == |mail| - 1;
    assert Elements([e] + rest) == Elements(rest) + {e};
    forall x | x in rest ensures x in mail && x != e {
      assert x in Elements(rest);
    }
    OldestThenSorted(e, rest);
    OldestThenYounger(mail, e, rest);
  }

  lemma OldestThenYounger(mail: set<Envelope>, e: Envelope, rest: seq<Envelope>)
    requires forall f | f in mail :: Key(e) <= Key(f)
    requires forall f, x | f in mail - {e} && f !in rest && x in rest :: Key(x) <= Key(f)
    ensures forall f, x | f in mail && f !in [e] + rest && x in [e] + rest :: Key(x) <= Key(f)
  {
  }

  lemma OldestThenSorted(e: Envelope, rest: seq<Envelope>)
    requires NoDuplicates(rest) && OldestFirst(rest) && forall x | x in rest :: x != e && Key(e) <= Key(x)
    ensures NoDuplicates([e] + rest) && OldestFirst([e] + rest)
  {
  }

  /** Behind 64 unopenable envelopes that are no younger, an envelope can be left out of a batch. */
  lemma BatchWithout(mail: set<Envelope>, y: Envelope, wall: set<Envelope>) returns (batch: seq<Envelope>)
    requires y in mail && wall <= mail - {y} && |wall| >= FETCH_LIMIT
    requires forall w | w in wall :: Key(w) <= Key(y)
    ensures IsBatch(mail, batch, FETCH_LIMIT) && y !in batch
  {
    var others := mail - {y};
    batch := BatchExists(others, FETCH_LIMIT);
    Larger(wall, others);
    Larger(others, mail);
    ElementsOfList(batch);
    forall x | x in batch ensures x != y && Key(x) <= Key(y) {
      assert x in Elements(batch);
      if Key(x) > Key(y) {
        forall w | w in wall ensures w in Elements(batch) {
          assert w !in batch ==> Key(x) <= Key(w);
        }
        assert |wall + {x}| == |wall| + 1;
        Larger(wall + {x}, Elements(batch));
        assert false;
      }
    }
  }

  /** A course of any length that never hands over `y`. */
  lemma {:induction false} CourseWithout(
    mail: set<Envelope>, open: Opener, over: Overhead, y: Envelope, wall: set<Envelope>, n: nat)
    returns (batches: Batches)
    requires y in Openable(mail, open) && wall <= mail && wall !! Openable(mail, open) && |wall| >= FETCH_LIMIT
    requires forall w | w in wall :: Key(w) <= Key(y)
    ensures Course(mail, open, over, batches) && |batches| == n && y in Undelivered(mail, open, over, batches)
  {
    if n == 0 {
      batches := [];
    } else {
      var front := CourseWithout(mail, open, over, y, wall, n - 1);
      var handed := HandedBy(open, over, front);
      CourseHandsOver(mail, open, over, front);
      var last := BatchWithout(mail - Elements(handed), y, wall);
      OpenedMembers(last, open);
      batches := front + [last];
      CourseSnoc(mail, open, over, front, last);
    }
  }

  /** After a batch that does not fit, the same batch can come again, any number of times. */
  lemma {:induction false} CourseRepeats(
    mail: set<Envelope>, open: Opener, over: Overhead, front: Batches, large: seq<Envelope>, n: nat)
    returns (batches: Batches)
    requires Course(mail, open, over, front + [large]) && !Fits(large, over)
    ensures Course(mail, open, over, batches) && |batches| == |front| + n
    ensures HandedBy(open, over, batches) == HandedBy(open, over, front)
  {
    CourseSnoc(mail, open, over, front, large);
    if n == 0 {
      batches := front;
    } else {
      var before := CourseRepeats(mail, open, over, front, large, n - 1);
      batches := before + [large];
      CourseSnoc(mail, open, over, before, large);
      assert HandedBy(open, over, before) + [] == HandedBy(open, over, before);
    }
  }

  lemma NoBatchFits(mail: set<Envelope>, open: Opener, over: Overhead)
    ensures FitsAlong(mail, open, over, [])
  {
  }

  /** The first batch of a course that is too large. */
  lemma {:induction false} FirstTooLarge(mail: set<Envelope>, open: Opener, over: Overhead, batches: Batches)
    returns (front: Batches, large: seq<Envelope>)
    requires Course(mail, open, over, batches) && !FitsAlong(mail, open, over, batches)
    ensures Course(mail, open, over, front + [large]) && !Fits(large, over)
    ensures Undelivered(mail, open, over, front) != {}
  {
    hide *;
    NoBatchFits(mail, open, over);
    var before, last := batches[..|batches| - 1], batches[|batches| - 1];
    assert batches == before + [last];
    FitsAlongMeans(mail, open, over, before, last);
    CourseSnoc(mail, open, over, before, last);
    if FitsAlong(mail, open, over, before) {
      front, large := before, last;
    } else {
      front, large := FirstTooLarge(mail, open, over, before);
    }
  }

  lemma {:induction false} CoursePrefix(
    mail: set<Envelope>, open: Opener, over: Overhead, batches: Batches, n: nat)
    requires Course(mail, open, over, batches) && n <= |batches|
    ensures Course(mail, open, over, batches[..n])
    ensures Undelivered(mail, open, over, batches) <= Undelivered(mail, open, over, batches[..n])
  {
    hide *;
    if n == |batches| {
      assert batches[..n] == batches;
    } else {
      var front, last := batches[..|batches| - 1], batches[|batches| - 1];
      assert batches == front + [last];
      CourseSnoc(mail, open, over, front, last);
      CoursePrefix(mail, open, over, front, n);
      LessAndLess(mail, open, over, front, last);
      assert front[..n] == batches[..n];
    }
  }

  lemma {:induction false} YoungestExists(s: set<Envelope>) returns (e: Envelope)
    requires s != {}
    ensures e in s && forall f | f in s :: Key(f) <= Key(e)
    decreases |s|
  {
    e :| e in s;
    var rest := s - {e};
    if rest != {} {
      var o := YoungestExists(rest);
      assert forall f | f in s :: f == e || f in rest;
      if Key(o) > Key(e) {
        e := o;
      }
    }
  }

  /** With 64 obstacles or more, some course of any given length leaves openable mail behind. */
  lemma ObstaclesCanBlock(mail: set<Envelope>, open: Opener, over: Overhead, polls: nat)
    returns (batches: Batches)
    requires |InTheWay(mail, open)| >= FETCH_LIMIT
    ensures Course(mail, open, over, batches) && |batches| == polls && Undelivered(mail, open, over, batches) != {}
  {
    var wall := InTheWay(mail, open);
    assert Openable(mail, open) != {} by {
      var w :| w in wall;
      var e :| e in mail && open(e) && Key(w) <= Key(e);
      assert e in Openable(mail, open);
    }
    var y := YoungestExists(Openable(mail, open));
    forall w | w in wall ensures Key(w) <= Key(y) {
      var e :| e in mail && open(e) && Key(w) <= Key(e);
      assert e in Openable(mail, open);
    }
    batches := CourseWithout(mail, open, over, y, wall, polls);
  }

  /** So does a batch that is too large. */
  lemma LargeBatchCanBlock(mail: set<Envelope>, open: Opener, over: Overhead, polls: nat)
    returns (batches: Batches)
    requires !NothingTooLarge(mail, open, over)
    ensures Course(mail, open, over, batches) && |batches| == polls && Undelivered(mail, open, over, batches) != {}
  {
    var bad :| Course(mail, open, over, bad) && !FitsAlong(mail, open, over, bad);
    var front, large := FirstTooLarge(mail, open, over, bad);
    CourseSnoc(mail, open, over, front, large);
    if polls <= |front| {
      batches := front[..polls];
      CoursePrefix(mail, open, over, front, polls);
    } else {
      batches := CourseRepeats(mail, open, over, front, large, polls - |front|);
      UndeliveredMeans(mail, open, over, front);
      UndeliveredMeans(mail, open, over, batches);
    }
  }

  /**
   Exactly when polling empties a mailbox of all that can be opened, in whatever order envelopes of equal time
   come: fewer than 64 unopenable envelopes are in the way, and no batch met on the way is too large. Otherwise no
   number of polls is sure to do.
   */
  lemma DrainsExactly(mail: set<Envelope>, open: Opener, over: Overhead, polls: nat)
    requires polls >= |Openable(mail, open)|
    ensures (forall batches | Course(mail, open, over, batches) && |batches| == polls ::
               Undelivered(mail, open, over, batches) == {})
       <==> |InTheWay(mail, open)| < FETCH_LIMIT && NothingTooLarge(mail, open, over)
  {
    hide *;
    if |InTheWay(mail, open)| >= FETCH_LIMIT {
      var batches := ObstaclesCanBlock(mail, open, over, polls);
    } else if !NothingTooLarge(mail, open, over) {
      var batches := LargeBatchCanBlock(mail, open, over, polls);
    } else {
      RestIsPositive(polls, |InTheWay(mail, open)|);
      forall batches | Course(mail, open, over, batches) && |batches| == polls
        ensures Undelivered(mail, open, over, batches) == {}
      {
        AllIsHandedOver(mail, open, over, batches);
      }
    }
  }

  lemma RestIsPositive(polls: nat, obstacles: nat)
    requires obstacles < FETCH_LIMIT
    ensures polls * Rest(FETCH_LIMIT, obstacles) >= polls
  {
    assert Rest(FETCH_LIMIT, obstacles) >= 1;
    assert polls * Rest(FETCH_LIMIT, obstacles) >= polls * 1;
  }

  // ----- Distinct times and nothing unopenable: the batches are the mail in chunks of 64 -----

  ghost predicate StrictlyRising(queue: seq<Envelope>) {
    forall i, j | 0 <= i < j < |queue| :: Key(queue[i]) < Key(queue[j])
  }

  function Upto(queue: seq<Envelope>, j: nat): (n: nat)
    ensures n <= |queue|
  {
    if j * FETCH_LIMIT < |queue| then j * FETCH_LIMIT else |queue|
  }

  /** The j-th chunk of 64. */
  function Chunk(queue: seq<Envelope>, j: nat): seq<Envelope> {
    queue[Upto(queue, j)..Upto(queue, j + 1)]
  }

  /** How many chunks that many polls get: they stop at the first one that does not fit. */
  function ChunksDone(queue: seq<Envelope>, over: Overhead, polls: nat): nat {
    if polls == 0 then 0 else
    var d := ChunksDone(queue, over, polls - 1);
    if Fits(Chunk(queue, d), over) then d + 1 else d
  }

  /** A part of the queue, oldest first, that leaves out nothing older. */
  ghost predicate Lowest(queue: seq<Envelope>, batch: seq<Envelope>) {
    && NoDuplicates(batch) && OldestFirst(batch) && Elements(batch) <= Elements(queue)
    && forall e, x | e in Elements(queue) - Elements(batch) && x in Elements(batch) :: Key(x) <= Key(e)
  }

  lemma TailElements<T>(s: seq<T>)
    requires s != [] && NoDuplicates(s)
    ensures Elements(s[1..]) == Elements(s) - {s[0]} && NoDuplicates(s[1..])
  {
    assert s == [s[0]] + s[1..];
  }

  lemma RisingIsDistinct(queue: seq<Envelope>)
    requires StrictlyRising(queue)
    ensures NoDuplicates(queue)
    ensures queue != [] ==> StrictlyRising(queue[1..])
    ensures forall e | e in Elements(queue) :: e == queue[0] || Key(queue[0]) < Key(e)
  {
    if queue != [] {
      forall i, j | 0 <= i < j < |queue[1..]| ensures Key(queue[1..][i]) < Key(queue[1..][j]) {
        assert queue[1..][i] == queue[i + 1] && queue[1..][j] == queue[j + 1];
      }
    }
  }

  lemma LowestHead(queue: seq<Envelope>, batch: seq<Envelope>)
    requires StrictlyRising(queue) && Lowest(queue, batch) && batch != []
    ensures queue != [] && batch[0] == queue[0]
  {
    assert batch[0] in Elements(batch);
    assert batch[0] in Elements(queue);
    RisingIsDistinct(queue);
    if queue[0] in Elements(batch) {
      var i :| 0 <= i < |batch| && batch[i] == queue[0];
      assert i == 0 || Key(batch[0]) <= Key(batch[i]);
    } else {
      assert queue[0] in Elements(queue) - Elements(batch);
    }
  }

  lemma {:induction false} LowestIsHead(queue: seq<Envelope>, batch: seq<Envelope>)
    requires StrictlyRising(queue) && Lowest(queue, batch)
    ensures |batch| <= |queue| && batch == queue[..|batch|]
  {
    if batch != [] {
      LowestHead(queue, batch);
      RisingIsDistinct(queue);
      TailElements(queue);
      TailElements(batch);
      assert Elements(queue) - Elements(batch) == Elements(queue[1..]) - Elements(batch[1..]);
      hide Elements;
      LowestIsHead(queue[1..], batch[1..]);
      assert batch == [queue[0]] + batch[1..] && queue[..|batch|] == [queue[0]] + queue[1..][..|batch| - 1];
    }
  }

  lemma BatchIsLowest(queue: seq<Envelope>, batch: seq<Envelope>)
    requires IsBatch(Elements(queue), batch, FETCH_LIMIT)
    ensures Lowest(queue, batch)
  {
  }

  lemma {:induction false} AllOpened(batch: seq<Envelope>, open: Opener)
    requires forall e | e in batch :: open(e)
    ensures Opened(batch, open) == batch
  {
    if batch != [] {
      var front := batch[..|batch| - 1];
      forall e | e in front ensures open(e) {
        assert e in batch;
      }
      AllOpened(front, open);
      assert batch[|batch| - 1] in batch && batch == front + [batch[|batch| - 1]];
    }
  }

  lemma RestOfQueue(queue: seq<Envelope>, m: nat)
    requires StrictlyRising(queue) && m <= |queue|
    ensures Elements(queue) - Elements(queue[..m]) == Elements(queue[m..]) && |Elements(queue[m..])| == |queue| - m
    ensures StrictlyRising(queue[m..])
  {
    forall i, j | 0 <= i < m <= j < |queue| ensures queue[i] != queue[j] {
      assert Key(queue[i]) < Key(queue[j]);
    }
    forall e ensures e in Elements(queue) - Elements(queue[..m]) <==> e in Elements(queue[m..]) {
      if e in queue[m..] {
        var j :| 0 <= j < |queue[m..]| && queue[m..][j] == e;
        assert queue[m + j] == e;
      }
      if e in queue && e !in queue[..m] {
        var j :| 0 <= j < |queue| && queue[j] == e;
        assert j >= m;
        assert queue[m..][j - m] == e;
      }
    }
    forall i, j | 0 <= i < j < |queue[m..]| ensures Key(queue[m..][i]) < Key(queue[m..][j]) {
      assert queue[m..][i] == queue[m + i] && queue[m..][j] == queue[m + j];
    }
    ElementsOfList(queue[m..]);
  }

  lemma ChunkIsBatch(queue: seq<Envelope>, j: nat, batch: seq<Envelope>)
    requires StrictlyRising(queue)
    requires IsBatch(Elements(queue) - Elements(queue[..Upto(queue, j)]), batch, FETCH_LIMIT)
    ensures batch == Chunk(queue, j)
  {
    hide Elements, OldestFirst, NoDuplicates, StrictlyRising, Lowest;
    var m := Upto(queue, j);
    RestOfQueue(queue, m);
    BatchSize(Elements(queue[m..]), batch);
    BatchIsLowest(queue[m..], batch);
    LowestIsHead(queue[m..], batch);
    hide IsBatch;
    assert queue[m..][..|batch|] == queue[m..m + |batch|];
  }

  lemma BatchSize(mail: set<Envelope>, batch: seq<Envelope>)
    requires IsBatch(mail, batch, FETCH_LIMIT)
    ensures |batch| == if |mail| < FETCH_LIMIT then |mail| else FETCH_LIMIT
  {
  }

  lemma OpenAll(queue: seq<Envelope>, open: Opener, i: nat, j: nat)
    requires i <= j <= |queue| && forall e | e in queue :: open(e)
    ensures Opened(queue[i..j], open) == queue[i..j]
  {
    assert forall e | e in queue[i..j] :: e in queue;
    AllOpened(queue[i..j], open);
  }

  /** Every course of such mail hands over the mail in order, chunk by chunk up to the first that does not fit. */
  lemma {:induction false} CourseIsChunks(queue: seq<Envelope>, open: Opener, over: Overhead, batches: Batches)
    requires StrictlyRising(queue) && forall e | e in queue :: open(e)
    requires Course(Elements(queue), open, over, batches)
    ensures HandedBy(open, over, batches) == queue[..Upto(queue, ChunksDone(queue, over, |batches|))]
  {
    hide Elements, StrictlyRising, Opened, Fits, IsBatch;
    if batches != [] {
      var front, last := batches[..|batches| - 1], batches[|batches| - 1];
      CourseIsChunks(queue, open, over, front);
      var d := ChunksDone(queue, over, |front|);
      ChunkIsBatch(queue, d, last);
      OpenAll(queue, open, Upto(queue, d), Upto(queue, d + 1));
      assert queue[..Upto(queue, d)] + Chunk(queue, d) == queue[..Upto(queue, d + 1)];
      assert queue[..Upto(queue, d)] + [] == queue[..Upto(queue, d)];
    }
  }

  lemma {:induction false} ChunksUntilTooLarge(queue: seq<Envelope>, over: Overhead, polls: nat)
    ensures ChunksDone(queue, over, polls) <= polls
    ensures forall j | 0 <= j < ChunksDone(queue, over, polls) :: Fits(Chunk(queue, j), over)
    ensures ChunksDone(queue, over, polls) < polls ==> !Fits(Chunk(queue, ChunksDone(queue, over, polls)), over)
  {
    if polls > 0 {
      ChunksUntilTooLarge(queue, over, polls - 1);
    }
  }

  /**
   With distinct times and nothing unopenable, polls hand over all n envelopes exactly if there are at least
   ceil(n / 64) of them and each 64 in order of time fit into a response.
   */
  lemma PollsNeeded(queue: seq<Envelope>, open: Opener, over: Overhead, batches: Batches)
    requires StrictlyRising(queue) && forall e | e in queue :: open(e)
    requires Course(Elements(queue), open, over, batches)
    ensures HandedBy(open, over, batches) == queue <==>
              |batches| >= (|queue| + FETCH_LIMIT - 1) / FETCH_LIMIT
              && forall j | 0 <= j < (|queue| + FETCH_LIMIT - 1) / FETCH_LIMIT :: Fits(Chunk(queue, j), over)
  {
    var polls, needed := |batches|, (|queue| + FETCH_LIMIT - 1) / FETCH_LIMIT;
    CourseIsChunks(queue, open, over, batches);
    ChunksUntilTooLarge(queue, over, polls);
    hide Fits, Chunk;
    var d := ChunksDone(queue, over, polls);
    assert Upto(queue, d) == |queue| <==> d >= needed;
    assert HandedBy(open, over, batches) == queue <==> Upto(queue, d) == |queue|;
  }

  // ----- Distinct times: one course, which can be worked out beforehand -----

  ghost predicate DistinctTimes(mail: set<Envelope>) {
    forall e, f | e in mail && f in mail && Key(e) == Key(f) :: e == f
  }

  /**
   With distinct times, 64 unopenable envelopes are in the way exactly if some openable mail is behind a wall.
   */
  lemma DrainsOrIsWalled(mail: set<Envelope>, open: Opener)
    requires DistinctTimes(mail)
    ensures |InTheWay(mail, open)| < FETCH_LIMIT <==> forall e :: !Walled(mail, open, e)
  {
    if Openable(mail, open) == {} {
      assert InTheWay(mail, open) == {} by {
        assert forall e | e in mail && open(e) :: e in Openable(mail, open);
      }
    } else {
      var y := YoungestExists(Openable(mail, open));
      assert InTheWay(mail, open) == OlderUnopenable(mail, open, y) by {
        assert forall e | e in mail && open(e) :: e in Openable(mail, open);
      }
      assert Walled(mail, open, y) <==> |InTheWay(mail, open)| >= FETCH_LIMIT;
      forall e | Walled(mail, open, e) ensures Walled(mail, open, y) {
        assert OlderUnopenable(mail, open, e) <= OlderUnopenable(mail, open, y);
        Larger(OlderUnopenable(mail, open, e), OlderUnopenable(mail, open, y));
      }
    }
  }

  lemma QueueOf(mail: set<Envelope>) returns (queue: seq<Envelope>)
    requires DistinctTimes(mail)
    ensures StrictlyRising(queue) && Elements(queue) == mail
  {
    queue := BatchExists(mail, |mail|);
    ElementsOfList(queue);
    SameSize(Elements(queue), mail);
    forall i, j | 0 <= i < j < |queue| ensures Key(queue[i]) < Key(queue[j]) {
      assert queue[i] in Elements(queue) && queue[j] in Elements(queue);
    }
  }

  lemma BatchIsUnique(mail: set<Envelope>, one: seq<Envelope>, two: seq<Envelope>)
    requires DistinctTimes(mail) && IsBatch(mail, one, FETCH_LIMIT) && IsBatch(mail, two, FETCH_LIMIT)
    ensures one == two
  {
    var queue := QueueOf(mail);
    BatchSize(mail, one);
    BatchSize(mail, two);
    BatchIsLowest(queue, one);
    BatchIsLowest(queue, two);
    LowestIsHead(queue, one);
    LowestIsHead(queue, two);
  }

  lemma StillDistinct(mail: set<Envelope>, gone: set<Envelope>)
    requires DistinctTimes(mail)
    ensures DistinctTimes(mail - gone)
  {
  }

  /** So what is too large, and what is in the way, can be seen from times and sizes before the first poll. */
  lemma {:induction false} CourseIsUnique(
    mail: set<Envelope>, open: Opener, over: Overhead, one: Batches, two: Batches)
    requires DistinctTimes(mail) && |one| == |two|
    requires Course(mail, open, over, one) && Course(mail, open, over, two)
    ensures one == two
  {
    hide *;
    if one != [] {
      var n := |one| - 1;
      assert one == one[..n] + [one[n]] && two == two[..n] + [two[n]];
      CourseSnoc(mail, open, over, one[..n], one[n]);
      CourseSnoc(mail, open, over, two[..n], two[n]);
      CourseIsUnique(mail, open, over, one[..n], two[..n]);
      StillDistinct(mail, Elements(HandedBy(open, over, one[..n])));
      BatchIsUnique(mail - Elements(HandedBy(open, over, one[..n])), one[n], two[n]);
    }
  }
}
