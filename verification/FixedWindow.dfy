/**
 One fixed window that is reset lazily, as both rate limiters keep it: the arithmetic they share.
 Times are instants of a clock that never goes back, in nanoseconds.
 */
module FixedWindow {
  import opened Wrappers

  type Instant = nat

  const SECOND: nat := 1_000_000_000

  datatype Window = Window(start: Instant, count: nat)

  /** What one client's counter sees: its own requests, and for a shared window those of others. */
  datatype Tick = Ask(now: Instant, limit: nat) | Roll(now: Instant)

  function Refreshed(w: Option<Window>, now: Instant, length: nat): Window {
    if w.None? || now >= w.value.start + length then Window(now, 0) else w.value
  }

  predicate Admits(w: Option<Window>, now: Instant, limit: nat, length: nat) {
    Refreshed(w, now, length).count < limit
  }

  function After(w: Option<Window>, tick: Tick, length: nat): Option<Window> {
    match tick
    case Roll(now) => if w.None? then None else Some(Refreshed(w, now, length))
    case Ask(now, limit) =>
      var r := Refreshed(w, now, length);
      Some(if r.count < limit then Window(r.start, r.count + 1) else r)
  }

  function AfterAll(w: Option<Window>, ticks: seq<Tick>, length: nat): Option<Window> {
    if ticks == [] then w
    else After(AfterAll(w, ticks[..|ticks| - 1], length), ticks[|ticks| - 1], length)
  }

  /** How many requests under a limit of at most `most` are admitted at times in [from, from + length). */
  function AdmittedFrom(w: Option<Window>, ticks: seq<Tick>, most: nat, length: nat, from: Instant): nat {
    if ticks == [] then 0 else
    var front, last := ticks[..|ticks| - 1], ticks[|ticks| - 1];
    AdmittedFrom(w, front, most, length, from) +
    if last.Ask? && last.limit <= most && from <= last.now < from + length
       && Admits(AfterAll(w, front, length), last.now, last.limit, length)
    then 1 else 0
  }

  ghost predicate Monotone(ticks: seq<Tick>) {
    forall i, j | 0 <= i < j < |ticks| :: ticks[i].now <= ticks[j].now
  }

  /** Untouched so far: no window yet, or one that has counted nothing and began in the past. */
  ghost predicate Unused(w: Option<Window>, ticks: seq<Tick>) {
    w.None? || (w.value.count == 0 && forall i | 0 <= i < |ticks| :: w.value.start <= ticks[i].now)
  }

  /**
   The admissions `n` counted since `from`, up to `now`. A window that began before `from` has counted them
   all; one that began later leaves at most one earlier window. Others may fill a window beyond `most`, but no
   counted request is admitted there any more.
   */
  ghost predicate Bounded(w: Option<Window>, n: nat, now: Instant, most: nat, length: nat, from: Instant) {
    && n <= 2 * most
    && (now < from ==> n == 0)
    && match w
       case None => n == 0
       case Some(win) =>
         && win.start <= now
         && (now < from + length ==>
               n <= (if win.count < most then win.count else most) + if win.start < from then 0 else most)
  }

  lemma {:induction false} StaysBounded(w: Option<Window>, ticks: seq<Tick>, most: nat, length: nat, from: Instant)
    requires Monotone(ticks) && Unused(w, ticks) && ticks != []
    ensures Bounded(AfterAll(w, ticks, length), AdmittedFrom(w, ticks, most, length, from),
                    ticks[|ticks| - 1].now, most, length, from)
  {
    var front, last := ticks[..|ticks| - 1], ticks[|ticks| - 1];
    if front != [] {
      StaysBounded(w, front, most, length, from);
      assert front[|front| - 1].now <= last.now;
    }
  }

  /** A window counts nothing but admissions since its start: none of an earlier window and none of anybody else. */
  lemma {:induction false} CountsOwnAdmissions(w: Option<Window>, ticks: seq<Tick>, most: nat, length: nat)
    requires Monotone(ticks) && 0 < length
    requires w.Some? && w.value.count == 0 && forall t | t in ticks :: w.value.start <= t.now
    requires forall t | t in ticks && t.Ask? :: t.limit <= most
    ensures var last := AfterAll(w, ticks, length);
            && last.Some? && last.value.count == AdmittedFrom(w, ticks, most, length, last.value.start)
            && (forall t | t in ticks :: t.now < last.value.start + length)
            && last.value.start <= if ticks == [] then w.value.start else ticks[|ticks| - 1].now
  {
    hide *;
    LastTick(w, ticks, most, length, w.value.start);
    if ticks != [] {
      var front, last := ticks[..|ticks| - 1], ticks[|ticks| - 1];
      CountsOwnAdmissions(w, front, most, length);
      var before := AfterAll(w, front, length).value;
      assert AfterAll(w, front, length) == Some(before) && before.start <= last.now by {
        assert front != [] ==> front[|front| - 1] in front;
      }
      if last.now >= before.start + length {
        NoneSince(w, front, most, length, last.now);
      }
      CountsOneMore(before, last, length);
      LastTick(w, ticks, most, length, AfterAll(w, ticks, length).value.start);
    }
  }

  lemma CountsOneMore(before: Window, last: Tick, length: nat)
    requires before.start <= last.now && 0 < length
    ensures var w := After(Some(before), last, length);
            && w.Some? && last.now < w.value.start + length
            && w.value.start == (if last.now >= before.start + length then last.now else before.start)
            && w.value.count == (if w.value.start == before.start && last.now < before.start + length then before.count
                                 else 0)
                                + if last.Ask? && Admits(Some(before), last.now, last.limit, length) then 1 else 0
  {
  }

  lemma LastTick(w: Option<Window>, ticks: seq<Tick>, most: nat, length: nat, from: Instant)
    requires Monotone(ticks)
    ensures ticks == [] ==> AfterAll(w, ticks, length) == w && AdmittedFrom(w, ticks, most, length, from) == 0
    ensures ticks != [] ==>
              var front, last := ticks[..|ticks| - 1], ticks[|ticks| - 1];
              && last in ticks && Monotone(front) && (forall t | t in front :: t in ticks && t.now <= last.now)
              && (forall t | t in ticks :: t in front || t == last)
              && AfterAll(w, ticks, length) == After(AfterAll(w, front, length), last, length)
              && AdmittedFrom(w, ticks, most, length, from) == AdmittedFrom(w, front, most, length, from) +
                   if last.Ask? && last.limit <= most && from <= last.now < from + length
                      && Admits(AfterAll(w, front, length), last.now, last.limit, length)
                   then 1 else 0
  {
    hide Admits, After;
    if ticks != [] {
      assert ticks == ticks[..|ticks| - 1] + [ticks[|ticks| - 1]];
    }
  }

  lemma {:induction false} NoneSince(w: Option<Window>, ticks: seq<Tick>, most: nat, length: nat, from: Instant)
    requires forall t | t in ticks :: t.now < from
    ensures AdmittedFrom(w, ticks, most, length, from) == 0
  {
    if ticks != [] {
      NoneSince(w, ticks[..|ticks| - 1], most, length, from);
      assert ticks[|ticks| - 1] in ticks;
    }
  }

  /**
   Although the windows are fixed, no interval of one window length, wherever it begins, sees more than
   twice a limit admitted of the requests under it, whatever requests under larger limits share the window.
   */
  lemma SlidingBound(w: Option<Window>, ticks: seq<Tick>, most: nat, length: nat, from: Instant)
    requires Monotone(ticks) && Unused(w, ticks)
    ensures AdmittedFrom(w, ticks, most, length, from) <= 2 * most
  {
    if ticks != [] {
      StaysBounded(w, ticks, most, length, from);
    }
  }

  /**
   The wait named in a denial is exact for a client that stays idle: denied before it is over, admitted from
   then on.
   */
  lemma RetryIsExact(w: Option<Window>, now: Instant, limit: nat, length: nat, later: Instant)
    requires !Admits(w, now, limit, length) && 0 < limit && now <= later
    requires w.Some? ==> w.value.start <= now
    ensures var wait := length - (now - Refreshed(w, now, length).start);
            && wait > 0
            && (Admits(After(w, Ask(now, limit), length), later, limit, length) <==> later >= now + wait)
  {
  }
}
