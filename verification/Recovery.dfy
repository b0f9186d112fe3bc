/** The throttle on guesses of the recovery code (crates/td-node/src/rpc.rs). */
module Recovery {
  import opened Wrappers
  import opened FixedWindow

  const MINUTE: nat := 60 * SECOND
  const MAX_FAILURES: nat := 5
  const MIN_CODE: nat := 8

  type Octets = seq<bv8>

  datatype Guard = Guard(failures: nat, lockUntil: Option<Instant>)

  /** A login attempt, with the claim state that it meets: not claimed, claimed without a code, or the hash. */
  datatype Claim = Unclaimed | NoCode | Expects(hash: Octets)
  datatype Attempt = Attempt(code: Octets, now: Instant, claim: Claim)

  datatype Reply = BadRequest | TooManyRequests(seconds: nat) | NotClaimed | NotConfigured | Unauthorized | Granted

  predicate Locked(g: Guard, now: Instant) {
    g.lockUntil.Some? && g.lockUntil.value > now
  }

  /** Whether the code is compared at all. */
  predicate Compared(g: Guard, a: Attempt) {
    |a.code| >= MIN_CODE && !Locked(g, a.now) && a.claim.Expects?
  }

  ghost predicate Wrong(g: Guard, a: Attempt, hash: Octets -> Octets) {
    Compared(g, a) && hash(a.code) != a.claim.hash
  }

  ghost predicate Right(g: Guard, a: Attempt, hash: Octets -> Octets) {
    Compared(g, a) && hash(a.code) == a.claim.hash
  }

  ghost function GuardAfter(g: Guard, a: Attempt, hash: Octets -> Octets): Guard {
    if Right(g, a, hash) then Guard(0, None)
    else if !Wrong(g, a, hash) then g
    else if g.failures + 1 >= MAX_FAILURES then Guard(0, Some(a.now + MINUTE))
    else Guard(g.failures + 1, g.lockUntil)
  }

  /** Compares without an early exit: the differences are collected over the whole length. */
  method SameHash(got: Octets, expected: Octets) returns (same: bool)
    ensures same <==> got == expected
  {
    if |got| != |expected| {
      return false;
    }
    var acc: bv8 := 0;
    for i := 0 to |got|
      invariant acc == 0 <==> got[..i] == expected[..i]
    {
      var before := acc;
      acc := acc | (got[i] ^ expected[i]);
      OrOfDifference(before, got[i], expected[i]);
      assert got[..i + 1] == got[..i] + [got[i]] && expected[..i + 1] == expected[..i] + [expected[i]];
    }
    assert got[..|got|] == got && expected[..|got|] == expected;
    same := acc == 0;
  }

  lemma OrOfDifference(acc: bv8, a: bv8, b: bv8)
    ensures acc | (a ^ b) == 0 <==> acc == 0 && a == b
  {
  }

  class RecoveryGuard {
    var failures: nat
    var lockUntil: Option<Instant>

    constructor ()
      ensures State() == Guard(0, None)
    {
      failures, lockUntil := 0, None;
    }

    function State(): Guard
      reads this
    {
      Guard(failures, lockUntil)
    }

    function LockedFor(now: Instant): (secs: Option<nat>)
      reads this
      ensures secs.Some? <==> Locked(State(), now)
      ensures secs.Some? ==> secs.value >= 1 && lockUntil.value - now < (secs.value + 1) * SECOND
      ensures secs.Some? && secs.value > 1 ==> secs.value * SECOND <= lockUntil.value - now
    {
      if lockUntil.Some? && lockUntil.value > now
      then var s := (lockUntil.value - now) / SECOND; Some(if s < 1 then 1 else s)
      else None
    }

    method NoteFailure(now: Instant)
      modifies this
      ensures State() == if old(failures) + 1 >= MAX_FAILURES then Guard(0, Some(now + MINUTE))
                         else Guard(old(failures) + 1, old(lockUntil))
    {
      failures := failures + 1;
      if failures >= MAX_FAILURES {
        lockUntil := Some(now + MINUTE);
        failures := 0;
      }
    }

    method NoteSuccess()
      modifies this
      ensures State() == Guard(0, None)
    {
      failures, lockUntil := 0, None;
    }

    method Login(a: Attempt, hash: Octets -> Octets) returns (reply: Reply)
      modifies this
      ensures State() == GuardAfter(old(State()), a, hash)
      ensures reply == Granted <==> Right(old(State()), a, hash)
      ensures reply == Unauthorized <==> Wrong(old(State()), a, hash)
      ensures reply == BadRequest <==> |a.code| < 8
      ensures reply.TooManyRequests? <==>
                |a.code| >= 8 && old(lockUntil).Some? && old(lockUntil).value > a.now
      ensures reply.TooManyRequests? ==>
                && reply.seconds >= 1 && old(lockUntil).value < a.now + (reply.seconds + 1) * 1_000_000_000
                && (reply.seconds > 1 ==> old(lockUntil).value >= a.now + reply.seconds * 1_000_000_000)
      ensures reply == Granted ==> failures == 0 && lockUntil == None
      ensures reply == Unauthorized && old(failures) < 4 ==>
                failures == old(failures) + 1 && lockUntil == old(lockUntil)
      ensures reply == Unauthorized && old(failures) >= 4 ==> failures == 0 && lockUntil == Some(a.now + 60_000_000_000)
      ensures reply != Granted && reply != Unauthorized ==> failures == old(failures) && lockUntil == old(lockUntil)
      ensures reply == NotClaimed <==> |a.code| >= 8 && !Locked(old(State()), a.now) && a.claim == Unclaimed
      ensures reply == NotConfigured <==> |a.code| >= 8 && !Locked(old(State()), a.now) && a.claim == NoCode
    {
      if |a.code| < MIN_CODE {
        return BadRequest;
      }
      var wait := LockedFor(a.now);
      if wait.Some? {
        return TooManyRequests(wait.value);
      }
      if a.claim.Unclaimed? {
        return NotClaimed;
      }
      if a.claim.NoCode? {
        return NotConfigured;
      }
      var ok := SameHash(hash(a.code), a.claim.hash);
      if !ok {
        NoteFailure(a.now);
        return Unauthorized;
      }
      NoteSuccess();
      return Granted;
    }
  }

  // ----- Runs of attempts -----

  ghost function GuardAfterAll(g: Guard, trace: seq<Attempt>, hash: Octets -> Octets): Guard {
    if trace == [] then g
    else GuardAfter(GuardAfterAll(g, trace[..|trace| - 1], hash), trace[|trace| - 1], hash)
  }

  ghost predicate Within(a: Attempt, from: Instant, span: nat) {
    from <= a.now <= from + span
  }

  ghost predicate TimesRise(trace: seq<Attempt>) {
    forall i, j | 0 <= i < j < |trace| :: trace[i].now <= trace[j].now
  }

  /** Wrong codes compared at times in [from, from + span]. */
  ghost function WrongIn(g: Guard, trace: seq<Attempt>, hash: Octets -> Octets, from: Instant, span: nat): nat {
    if trace == [] then 0 else
    var front, last := trace[..|trace| - 1], trace[|trace| - 1];
    WrongIn(g, front, hash, from, span) +
    if Within(last, from, span) && Wrong(GuardAfterAll(g, front, hash), last, hash) then 1 else 0
  }

  ghost predicate NoSuccessIn(g: Guard, trace: seq<Attempt>, hash: Octets -> Octets, from: Instant, span: nat) {
    trace == [] ||
    var front, last := trace[..|trace| - 1], trace[|trace| - 1];
    && NoSuccessIn(g, front, hash, from, span)
    && !(Within(last, from, span) && Right(GuardAfterAll(g, front, hash), last, hash))
  }

  /**
   After `locks` locks set in the interval: each accounts for five wrong codes, the last one holds until
   `locks` minutes after `from`, and failures counted since it was set came later than that.
   */
  ghost predicate Throttled(g: Guard, wrong: nat, locks: nat, from: Instant, now: Instant) {
    && g.failures < MAX_FAILURES
    && wrong <= MAX_FAILURES * locks + g.failures
    && (now < from ==> wrong == 0 && locks == 0)
    && (locks > 0 ==>
          && from + (locks - 1) * MINUTE <= now
          && g.lockUntil.Some? && g.lockUntil.value >= from + locks * MINUTE
          && (g.failures > 0 ==> now >= from + locks * MINUTE))
  }

  lemma ThrottledStep(
    g: Guard, wrong: nat, locks: nat, from: Instant, before: Instant, a: Attempt, hash: Octets -> Octets)
    returns (locks': nat)
    requires Throttled(g, wrong, locks, from, before) && before <= a.now
    requires from <= a.now ==> !Right(g, a, hash)
    ensures var counts := from <= a.now && Wrong(g, a, hash);
            Throttled(GuardAfter(g, a, hash), wrong + if counts then 1 else 0, locks', from, a.now)
  {
    locks' := if from <= a.now && Wrong(g, a, hash) && g.failures + 1 >= MAX_FAILURES then locks + 1 else locks;
  }

  lemma {:induction false} RunIsThrottled(
    g: Guard, trace: seq<Attempt>, hash: Octets -> Octets, from: Instant, span: nat, until: Instant)
    returns (locks: nat)
    requires g.failures < MAX_FAILURES && TimesRise(trace) && until <= from + span
    requires NoSuccessIn(g, trace, hash, from, span)
    requires forall i | 0 <= i < |trace| :: trace[i].now <= until
    ensures Throttled(GuardAfterAll(g, trace, hash), WrongIn(g, trace, hash, from, span), locks, from, until)
  {
    if trace == [] {
      locks := 0;
    } else {
      var front, last := trace[..|trace| - 1], trace[|trace| - 1];
      locks := RunIsThrottled(g, front, hash, from, span, last.now);
      locks := ThrottledStep(GuardAfterAll(g, front, hash), WrongIn(g, front, hash, from, span), locks, from,
                             last.now, last, hash);
    }
  }

  lemma {:induction false} LaterAttemptsDoNotCount(
    g: Guard, trace: seq<Attempt>, hash: Octets -> Octets, from: Instant, span: nat)
    returns (n: nat)
    requires TimesRise(trace) && NoSuccessIn(g, trace, hash, from, span)
    ensures n <= |trace| && NoSuccessIn(g, trace[..n], hash, from, span)
    ensures WrongIn(g, trace, hash, from, span) == WrongIn(g, trace[..n], hash, from, span)
    ensures forall i | 0 <= i < n :: trace[i].now <= from + span
  {
    n := |trace|;
    assert trace[..n] == trace;
    if trace != [] && trace[|trace| - 1].now > from + span {
      var front := trace[..|trace| - 1];
      n := LaterAttemptsDoNotCount(g, front, hash, from, span);
      assert front[..n] == trace[..n];
    }
  }

  lemma LocksInSpan(g: Guard, wrong: nat, locks: nat, from: Instant, span: nat)
    requires Throttled(g, wrong, locks, from, from + span)
    ensures wrong <= MAX_FAILURES * (span / MINUTE + 1)
  {
    if locks > 0 {
      assert (locks - 1) * MINUTE <= span;
      assert locks - 1 <= span / MINUTE;
      if g.failures > 0 {
        assert locks <= span / MINUTE;
      }
    }
  }

  /**
   The throttle: in any closed interval of `span` with no successful login, at most five wrong codes are
   compared for each started minute, whatever was tried before and in whatever pattern.
   */
  lemma ThrottleBound(g: Guard, trace: seq<Attempt>, hash: Octets -> Octets, from: Instant, span: nat)
    requires g.failures < MAX_FAILURES && TimesRise(trace) && NoSuccessIn(g, trace, hash, from, span)
    ensures WrongIn(g, trace, hash, from, span) <= MAX_FAILURES * (span / MINUTE + 1)
  {
    var n := LaterAttemptsDoNotCount(g, trace, hash, from, span);
    var locks := RunIsThrottled(g, trace[..n], hash, from, span, from + span);
    LocksInSpan(GuardAfterAll(g, trace[..n], hash), WrongIn(g, trace[..n], hash, from, span), locks, from, span);
  }

  // ----- A success clears the count -----

  /** A code that would be compared but for a lock, and is wrong or right. */
  ghost predicate WrongCode(a: Attempt, hash: Octets -> Octets) {
    |a.code| >= 8 && a.claim.Expects? && hash(a.code) != a.claim.hash
  }

  ghost predicate RightCode(a: Attempt, hash: Octets -> Octets) {
    |a.code| >= 8 && a.claim.Expects? && hash(a.code) == a.claim.hash
  }

  ghost function WrongCodes(trace: seq<Attempt>, hash: Octets -> Octets): nat {
    if trace == [] then 0 else
    WrongCodes(trace[..|trace| - 1], hash) + if WrongCode(trace[|trace| - 1], hash) then 1 else 0
  }

  lemma {:induction false} FewWrongCodesDoNotLock(trace: seq<Attempt>, hash: Octets -> Octets)
    requires WrongCodes(trace, hash) <= 4
    ensures var g := GuardAfterAll(Guard(0, None), trace, hash);
            g.lockUntil == None && g.failures <= WrongCodes(trace, hash)
  {
    if trace != [] {
      FewWrongCodesDoNotLock(trace[..|trace| - 1], hash);
    }
  }

  lemma {:induction false} GuardInTwoParts(g: Guard, one: seq<Attempt>, two: seq<Attempt>, hash: Octets -> Octets)
    ensures GuardAfterAll(g, one + two, hash) == GuardAfterAll(GuardAfterAll(g, one, hash), two, hash)
  {
    if two == [] {
      assert one + two == one;
    } else {
      var n := |two| - 1;
      GuardInTwoParts(g, one, two[..n], hash);
      assert (one + two)[..|one| + n] == one + two[..n];
    }
  }

  /**
   After a granted login, whatever came before it, up to four wrong codes in any pattern, with any other attempts
   in between, leave the node open: the next right code is granted at once.
   */
  lemma {:induction false} SuccessClearsTheCount(
    g: Guard, before: seq<Attempt>, granted: Attempt, rest: seq<Attempt>, again: Attempt, hash: Octets -> Octets)
    requires Right(GuardAfterAll(g, before, hash), granted, hash)
    requires WrongCodes(rest, hash) <= 4 && RightCode(again, hash)
    ensures Right(GuardAfterAll(g, before + [granted] + rest, hash), again, hash)
  {
    GuardInTwoParts(g, before + [granted], rest, hash);
    assert (before + [granted])[..|before|] == before;
    FewWrongCodesDoNotLock(rest, hash);
  }

  lemma {:induction false} WrongCodesAreCounted(trace: seq<Attempt>, hash: Octets -> Octets)
    requires |trace| <= 4 && forall a | a in trace :: WrongCode(a, hash)
    ensures GuardAfterAll(Guard(0, None), trace, hash) == Guard(|trace|, None)
  {
    if trace != [] {
      WrongCodesAreCounted(trace[..|trace| - 1], hash);
      assert trace[|trace| - 1] in trace;
    }
  }

  /** Five wrong codes with no right one among them lock an open node for exactly a minute from the fifth. */
  lemma {:induction false} FiveWrongCodesLock(
    g: Guard, before: seq<Attempt>, five: seq<Attempt>, again: Attempt, hash: Octets -> Octets)
    requires GuardAfterAll(g, before, hash) == Guard(0, None)
    requires |five| == 5 && forall a | a in five :: WrongCode(a, hash)
    requires RightCode(again, hash)
    ensures Right(GuardAfterAll(g, before + five, hash), again, hash) <==> again.now >= five[4].now + 60_000_000_000
  {
    GuardInTwoParts(g, before, five, hash);
    WrongCodesAreCounted(five[..4], hash);
    assert five[4] in five;
  }

  // ----- The bound is reached -----

  function Bursts(wrong: Attempt, minutes: nat): seq<Attempt> {
    if minutes == 0 then [] else
    var a := wrong.(now := wrong.now + (minutes - 1) * MINUTE);
    Bursts(wrong, minutes - 1) + [a] + [a] + [a] + [a] + [a]
  }

  lemma CountSnoc(g: Guard, trace: seq<Attempt>, a: Attempt, hash: Octets -> Octets, from: Instant, span: nat)
    ensures GuardAfterAll(g, trace + [a], hash) == GuardAfter(GuardAfterAll(g, trace, hash), a, hash)
    ensures WrongIn(g, trace + [a], hash, from, span) == WrongIn(g, trace, hash, from, span)
         + if Within(a, from, span) && Wrong(GuardAfterAll(g, trace, hash), a, hash) then 1 else 0
  {
    assert (trace + [a])[..|trace|] == trace;
  }

  lemma WrongCodeStep(g: Guard, a: Attempt, hash: Octets -> Octets)
    requires |a.code| >= MIN_CODE && a.claim.Expects? && hash(a.code) != a.claim.hash && !Locked(g, a.now)
    ensures Wrong(g, a, hash)
    ensures GuardAfter(g, a, hash) == if g.failures + 1 >= MAX_FAILURES then Guard(0, Some(a.now + MINUTE))
                                      else Guard(g.failures + 1, g.lockUntil)
  {
  }

  /** The k-th wrong code since the last lock. */
  lemma OneMoreWrong(trace: seq<Attempt>, a: Attempt, hash: Octets -> Octets, from: Instant, span: nat)
    requires |a.code| >= MIN_CODE && a.claim.Expects? && hash(a.code) != a.claim.hash && Within(a, from, span)
    requires !Locked(GuardAfterAll(Guard(0, None), trace, hash), a.now)
    ensures var g, g' := GuardAfterAll(Guard(0, None), trace, hash), GuardAfterAll(Guard(0, None), trace + [a], hash);
            && WrongIn(Guard(0, None), trace + [a], hash, from, span)
               == WrongIn(Guard(0, None), trace, hash, from, span) + 1
            && g' == if g.failures + 1 >= MAX_FAILURES then Guard(0, Some(a.now + MINUTE))
                     else Guard(g.failures + 1, g.lockUntil)
  {
    hide GuardAfterAll, GuardAfter, WrongIn, Wrong;
    WrongCodeStep(GuardAfterAll(Guard(0, None), trace, hash), a, hash);
    CountSnoc(Guard(0, None), trace, a, hash, from, span);
  }

  /** Five wrong codes at the start of every minute are all compared, so the bound is the best there is. */
  lemma {:induction false} BoundIsReached(wrong: Attempt, hash: Octets -> Octets, minutes: nat, span: nat)
    requires |wrong.code| >= MIN_CODE && wrong.claim.Expects? && hash(wrong.code) != wrong.claim.hash
    requires minutes <= span / MINUTE + 1
    ensures WrongIn(Guard(0, None), Bursts(wrong, minutes), hash, wrong.now, span) == MAX_FAILURES * minutes
    ensures GuardAfterAll(Guard(0, None), Bursts(wrong, minutes), hash)
         == Guard(0, if minutes == 0 then None else Some(wrong.now + minutes * MINUTE))
  {
    hide GuardAfterAll, WrongIn, GuardAfter;
    if minutes == 0 {
      NothingTried(hash, wrong.now, span);
    } else {
      BoundIsReached(wrong, hash, minutes - 1, span);
      var a := wrong.(now := wrong.now + (minutes - 1) * MINUTE);
      assert (minutes - 1) * MINUTE <= span;
      var s := Bursts(wrong, minutes - 1);
      OneMoreWrong(s, a, hash, wrong.now, span);
      OneMoreWrong(s + [a], a, hash, wrong.now, span);
      OneMoreWrong(s + [a] + [a], a, hash, wrong.now, span);
      OneMoreWrong(s + [a] + [a] + [a], a, hash, wrong.now, span);
      OneMoreWrong(s + [a] + [a] + [a] + [a], a, hash, wrong.now, span);
    }
  }

  lemma NothingTried(hash: Octets -> Octets, from: Instant, span: nat)
    ensures WrongIn(Guard(0, None), [], hash, from, span) == 0
    ensures GuardAfterAll(Guard(0, None), [], hash) == Guard(0, None)
  {
  }
}
