/** The two rate limiters: per client and route at the RPC, per sender at the relay. */
module RateLimits {
  import opened Wrappers
  import opened FixedWindow

  datatype RateRule = RateRule(limit: nat, window: nat)

  // ----- The RPC limiter (crates/td-node/src/rpc.rs) -----

  const PRUNE_ABOVE: nat := 4096
  const CUTOFF: nat := 120 * SECOND

  type Book = map<string, Window>

  function KeyFor(ip: string, bucket: string): string {
    ip + "|" + bucket
  }

  function EntryOf(book: Book, key: string): Option<Window> {
    if key in book then Some(book[key]) else None
  }

  /** Admitted, or the wait. */
  function Decision(book: Book, key: string, rule: RateRule, now: Instant): Result<(), nat> {
    var w := Refreshed(EntryOf(book, key), now, rule.window);
    if w.count >= rule.limit then Err(rule.window - (now - w.start)) else Ok(())
  }

  function Pruned(book: Book, now: Instant): Book {
    if |book| > PRUNE_ABOVE then map key | key in book && book[key].start + CUTOFF > now :: book[key] else book
  }

  /** The book after a request; an admitted request prunes a large book. */
  function Checked(book: Book, key: string, rule: RateRule, now: Instant, prune: bool): Book {
    var entry := EntryOf(book, key);
    var book' := book[key := After(entry, Ask(now, rule.limit), rule.window).value];
    if prune && Admits(entry, now, rule.limit, rule.window) then Pruned(book', now) else book'
  }

  class RateLimitBook {
    var windows: Book

    constructor ()
      ensures windows == map[]
    {
      windows := map[];
    }

    method Check(ip: string, bucket: string, rule: RateRule, now: Instant) returns (r: Result<(), nat>)
      requires forall key | key in windows :: windows[key].start <= now
      modifies this
      ensures r == Decision(old(windows), KeyFor(ip, bucket), rule, now)
      ensures windows == Checked(old(windows), KeyFor(ip, bucket), rule, now, true)
      ensures forall key | key in windows :: windows[key].start <= now
    {
      var key := KeyFor(ip, bucket);
      var entry := if key in windows then windows[key] else Window(now, 0);
      if now - entry.start >= rule.window {
        entry := Window(now, 0);
      }
      if entry.count >= rule.limit {
        windows := windows[key := entry];
        return Err(rule.window - (now - entry.start));
      }
      windows := windows[key := Window(entry.start, entry.count + 1)];
      if |windows| > PRUNE_ABOVE {
        windows := map k | k in windows && windows[k].start + CUTOFF > now :: windows[k];
      }
      return Ok(());
    }
  }

  /** What the program does with a list of requests, from its start on. */
  method ServeAll(calls: seq<Call>) returns (answers: seq<Result<(), nat>>)
    requires InTime(calls)
    ensures |answers| == |calls| && forall i | 0 <= i < |calls| :: answers[i] == AnswerTo(calls[..i], calls[i])
  {
    hide *;
    var book := new RateLimitBook();
    answers := [];
    NothingServed(calls);
    for i := 0 to |calls|
      invariant fresh(book) && book.windows == BookAfter(RequestsOf(calls[..i]), true)
      invariant |answers| == i && forall j | 0 <= j < i :: answers[j] == AnswerTo(calls[..j], calls[j])
      invariant forall key | key in book.windows :: i > 0 && book.windows[key].start <= calls[i - 1].now
    {
      if i > 0 {
        NextIsLater(calls, i);
      }
      TakeOneMore(calls, i);
      ServedNext(calls[..i], calls[i]);
      var c := calls[i];
      var answer := book.Check(c.ip, c.path, RateRuleFor(c.path, c.method_), c.now);
      answers := answers + [answer];
    }
  }

  lemma NothingServed(calls: seq<Call>)
    ensures BookAfter(RequestsOf(calls[..0]), true) == map[]
  {
  }

  lemma NextIsLater(calls: seq<Call>, i: nat)
    requires InTime(calls) && 0 < i < |calls|
    ensures calls[i - 1].now <= calls[i].now
  {
    InTimeMeans(calls);
  }

  lemma BookSnoc(trace: seq<Request>, last: Request, prune: bool)
    ensures BookAfter(trace + [last], prune) == Checked(BookAfter(trace, prune), last.key, last.rule, last.now, prune)
  {
    hide Checked;
    assert (trace + [last])[..|trace|] == trace;
  }

  lemma ServedNext(front: seq<Call>, c: Call)
    ensures var book := BookAfter(RequestsOf(front), true);
            && AnswerTo(front, c) == Decision(book, KeyFor(c.ip, c.path), RateRuleFor(c.path, c.method_), c.now)
            && BookAfter(RequestsOf(front + [c]), true)
               == Checked(book, KeyFor(c.ip, c.path), RateRuleFor(c.path, c.method_), c.now, true)
  {
    hide RateRuleFor, KeyFor, Decision, Checked, BookAfter, RequestsOf;
    RequestsSnoc(front, c);
    BookSnoc(RequestsOf(front), RequestOf(c), true);
  }

  lemma {:induction false} TakeOneMore(calls: seq<Call>, i: nat)
    requires i < |calls|
    ensures calls[..i + 1] == calls[..i] + [calls[i]]
  {
  }

  function IsPost(method_: string): bool {
    EqIgnoreCase(method_, "POST")
  }

  function Upper(c: char): char {
    if 'a' <= c <= 'z' then 'A' + (c - 'a') else c
  }

  function EqIgnoreCase(s: string, t: string): bool {
    |s| == |t| && forall i | 0 <= i < |s| :: Upper(s[i]) == Upper(t[i])
  }

  function RateRuleFor(path: string, method_: string): (rule: RateRule)
    ensures 0 < rule.limit && 0 < rule.window <= CUTOFF
  {
    if path == "/v1/recovery/login" || (path == "/v1/claim" && IsPost(method_)) then RateRule(10, 60 * SECOND)
    else if path == "/v1/pair/redeem" then RateRule(20, 60 * SECOND)
    else if path == "/v1/messages/stream" || path == "/v1/messages/wait" then RateRule(120, 60 * SECOND)
    else if IsPost(method_) || EqIgnoreCase(method_, "PUT") || EqIgnoreCase(method_, "DELETE")
            || EqIgnoreCase(method_, "PATCH") then RateRule(180, 60 * SECOND)
    else RateRule(600, 60 * SECOND)
  }

  datatype Request = Request(key: string, rule: RateRule, now: Instant)

  ghost predicate InOrder(trace: seq<Request>) {
    forall i, j | 0 <= i < j < |trace| :: trace[i].now <= trace[j].now
  }

  ghost predicate WindowsWithinCutoff(trace: seq<Request>) {
    forall i | 0 <= i < |trace| :: trace[i].rule.window <= CUTOFF
  }

  function BookAfter(trace: seq<Request>, prune: bool): Book {
    if trace == [] then map[] else
    var last := trace[|trace| - 1];
    Checked(BookAfter(trace[..|trace| - 1], prune), last.key, last.rule, last.now, prune)
  }

  ghost predicate StartsBy(book: Book, now: Instant) {
    forall key | key in book :: book[key].start <= now
  }

  /** The pruned book lacks only entries that any rule would reset anyway. */
  ghost predicate AgreesUpToStale(pruned: Book, full: Book, now: Instant) {
    && (forall key | key in pruned :: key in full && pruned[key] == full[key])
    && (forall key | key in full && key !in pruned :: full[key].start + CUTOFF <= now)
    && StartsBy(full, now)
  }

  lemma SameDecision(pruned: Book, full: Book, before: Instant, key: string, rule: RateRule, now: Instant)
    requires AgreesUpToStale(pruned, full, before) && before <= now && rule.window <= CUTOFF
    ensures Decision(pruned, key, rule, now) == Decision(full, key, rule, now)
    ensures Refreshed(EntryOf(pruned, key), now, rule.window) == Refreshed(EntryOf(full, key), now, rule.window)
         || EntryOf(pruned, key) == EntryOf(full, key)
    ensures Admits(EntryOf(pruned, key), now, rule.limit, rule.window)
       <==> Admits(EntryOf(full, key), now, rule.limit, rule.window)
    ensures After(EntryOf(pruned, key), Ask(now, rule.limit), rule.window)
         == After(EntryOf(full, key), Ask(now, rule.limit), rule.window)
  {
  }

  lemma StillAgrees(pruned: Book, full: Book, before: Instant, key: string, rule: RateRule, now: Instant)
    requires AgreesUpToStale(pruned, full, before) && before <= now && rule.window <= CUTOFF
    ensures AgreesUpToStale(Checked(pruned, key, rule, now, true), Checked(full, key, rule, now, false), now)
  {
    SameDecision(pruned, full, before, key, rule, now);
    var entry := After(EntryOf(full, key), Ask(now, rule.limit), rule.window).value;
    var pruned', full' := pruned[key := entry], full[key := entry];
    assert AgreesUpToStale(pruned', full', now);
    hide Decision, Admits, After, Refreshed;
    assert AgreesUpToStale(Pruned(pruned', now), full', now);
  }

  lemma {:induction false} BooksAgree(trace: seq<Request>, now: Instant)
    requires InOrder(trace) && WindowsWithinCutoff(trace)
    requires trace != [] ==> trace[|trace| - 1].now <= now
    ensures AgreesUpToStale(BookAfter(trace, true), BookAfter(trace, false), now)
  {
    if trace != [] {
      var front, last := trace[..|trace| - 1], trace[|trace| - 1];
      BooksAgree(front, last.now);
      StillAgrees(BookAfter(front, true), BookAfter(front, false), last.now, last.key, last.rule, last.now);
    }
  }

  /**
   Prune transparency: on every trace of a clock that never goes back, with rules whose windows stay within
   the cutoff, the next decision and its wait are those of a book that never prunes.
   */
  lemma PruneTransparency(trace: seq<Request>, next: Request)
    requires InOrder(trace + [next]) && WindowsWithinCutoff(trace + [next])
    ensures StartsBy(BookAfter(trace, true), next.now) && StartsBy(BookAfter(trace, false), next.now)
    ensures Decision(BookAfter(trace, true), next.key, next.rule, next.now)
         == Decision(BookAfter(trace, false), next.key, next.rule, next.now)
  {
    var all := trace + [next];
    assert forall i | 0 <= i < |trace| :: all[i] == trace[i];
    assert all[|trace|] == next;
    BooksAgree(trace, next.now);
    SameDecision(BookAfter(trace, true), BookAfter(trace, false), next.now, next.key, next.rule, next.now);
  }

  // ----- One client of the RPC limiter -----

  /** The requests of one key, as its own window sees them. */
  function AsksOf(trace: seq<Request>, key: string): seq<Tick> {
    if trace == [] then [] else
    var last := trace[|trace| - 1];
    AsksOf(trace[..|trace| - 1], key) + if last.key == key then [Ask(last.now, last.rule.limit)] else []
  }

  /**
   Admissions of one key under rules of at most this limit, at times in [from, from + length), by the limiter
   that prunes.
   */
  ghost function AdmittedOf(trace: seq<Request>, key: string, most: nat, length: nat, from: Instant): nat {
    if trace == [] then 0 else
    var front, last := trace[..|trace| - 1], trace[|trace| - 1];
    AdmittedOf(front, key, most, length, from) +
    if last.key == key && last.rule.limit <= most && from <= last.now < from + length
       && Admits(EntryOf(BookAfter(front, true), key), last.now, last.rule.limit, last.rule.window)
    then 1 else 0
  }

  ghost predicate KeyUses(trace: seq<Request>, key: string, length: nat) {
    forall i | 0 <= i < |trace| && trace[i].key == key :: trace[i].rule.window == length
  }

  lemma AsksSnoc(trace: seq<Request>, key: string)
    requires trace != []
    ensures var front, last := trace[..|trace| - 1], trace[|trace| - 1];
            && (last.key != key ==> AsksOf(trace, key) == AsksOf(front, key))
            && (last.key == key ==> AsksOf(trace, key) == AsksOf(front, key) + [Ask(last.now, last.rule.limit)])
  {
  }

  lemma {:induction false} AsksInOrder(trace: seq<Request>, key: string, now: Instant)
    requires InOrder(trace)
    requires trace != [] ==> trace[|trace| - 1].now <= now
    ensures var asks := AsksOf(trace, key);
            Monotone(asks) && forall i | 0 <= i < |asks| :: asks[i].now <= now
  {
    if trace != [] {
      AsksSnoc(trace, key);
      AsksInOrder(trace[..|trace| - 1], key, trace[|trace| - 1].now);
    }
  }

  lemma {:induction false} OneKeyIsOneWindow(trace: seq<Request>, key: string, length: nat)
    requires KeyUses(trace, key, length)
    ensures EntryOf(BookAfter(trace, false), key) == AfterAll(None, AsksOf(trace, key), length)
  {
    if trace != [] {
      var front, last := trace[..|trace| - 1], trace[|trace| - 1];
      OneKeyIsOneWindow(front, key, length);
      AsksSnoc(trace, key);
      if last.key == key {
        assert AsksOf(trace, key)[..|AsksOf(front, key)|] == AsksOf(front, key);
      }
    }
  }

  lemma {:induction false} AdmittedByOneWindow(trace: seq<Request>, key: string, most: nat, length: nat, from: Instant)
    requires InOrder(trace) && WindowsWithinCutoff(trace) && KeyUses(trace, key, length)
    ensures AdmittedOf(trace, key, most, length, from) == AdmittedFrom(None, AsksOf(trace, key), most, length, from)
  {
    if trace != [] {
      var front, last := trace[..|trace| - 1], trace[|trace| - 1];
      AdmittedByOneWindow(front, key, most, length, from);
      AsksSnoc(trace, key);
      if last.key == key {
        OneKeyIsOneWindow(front, key, length);
        BooksAgree(front, last.now);
        SameDecision(BookAfter(front, true), BookAfter(front, false), last.now, key, last.rule, last.now);
        assert AsksOf(trace, key)[..|AsksOf(front, key)|] == AsksOf(front, key);
      }
    }
  }

  /**
   At most twice a limit per key and rule in any interval of one window length, on every trace of all keys, and
   whatever requests under larger limits share the key.
   */
  lemma RpcIntervalBound(trace: seq<Request>, key: string, most: nat, length: nat, from: Instant)
    requires InOrder(trace) && WindowsWithinCutoff(trace) && KeyUses(trace, key, length)
    ensures AdmittedOf(trace, key, most, length, from) <= 2 * most
  {
    AdmittedByOneWindow(trace, key, most, length, from);
    AsksInOrder(trace, key, if trace == [] then 0 else trace[|trace| - 1].now);
    SlidingBound(None, AsksOf(trace, key), most, length, from);
  }

  lemma {:induction false} OthersLeaveEntry(trace: seq<Request>, others: seq<Request>, key: string)
    requires forall i | 0 <= i < |others| :: others[i].key != key
    ensures EntryOf(BookAfter(trace + others, false), key) == EntryOf(BookAfter(trace, false), key)
  {
    if others == [] {
      assert trace + others == trace;
    } else {
      var n := |others| - 1;
      OthersLeaveEntry(trace, others[..n], key);
      assert (trace + others)[..|trace| + n] == trace + others[..n];
    }
  }

  ghost predicate Sound(trace: seq<Request>) {
    InOrder(trace) && WindowsWithinCutoff(trace)
  }

  lemma PrefixIsSound(trace: seq<Request>, n: nat)
    requires Sound(trace) && n <= |trace|
    ensures Sound(trace[..n])
  {
  }

  lemma RetryFromEntry(before: Book, after: Book, key: string, rule: RateRule, now: Instant, later: Instant)
    requires StartsBy(before, now) && StartsBy(after, later) && now <= later && 0 < rule.limit
    requires EntryOf(after, key) == After(EntryOf(before, key), Ask(now, rule.limit), rule.window)
    requires Decision(before, key, rule, now).Err?
    ensures Decision(after, key, rule, later).Ok? <==> later >= now + Decision(before, key, rule, now).error
  {
    RetryIsExact(EntryOf(before, key), now, rule.limit, rule.window, later);
  }

  /** The entry that a denied client meets again, after any requests of others. */
  lemma {:induction false} EntryMetAgain(trace: seq<Request>, denied: Request, others: seq<Request>)
    requires forall i | 0 <= i < |others| :: others[i].key != denied.key
    ensures EntryOf(BookAfter(trace + [denied] + others, false), denied.key)
         == After(EntryOf(BookAfter(trace, false), denied.key), Ask(denied.now, denied.rule.limit), denied.rule.window)
  {
    OthersLeaveEntry(trace + [denied], others, denied.key);
    assert (trace + [denied])[..|trace|] == trace;
  }

  lemma TimesRise(upto: seq<Request>, others: seq<Request>, again: Request)
    requires InOrder(upto + others + [again]) && upto != []
    ensures upto[|upto| - 1].now <= again.now
  {
    var all := upto + others + [again];
    assert all[|upto| - 1] == upto[|upto| - 1] && all[|upto + others|] == again;
  }

  /** The same for keys: whatever requests under other keys come in between. */
  lemma {:induction false} IdleKeyRetry(trace: seq<Request>, denied: Request, others: seq<Request>, again: Request)
    requires Sound(trace + [denied] + others + [again])
    requires forall i | 0 <= i < |others| :: others[i].key != denied.key
    requires again.key == denied.key && again.rule == denied.rule && 0 < denied.rule.limit
    requires Decision(BookAfter(trace, true), denied.key, denied.rule, denied.now).Err?
    ensures Decision(BookAfter(trace + [denied] + others, true), again.key, again.rule, again.now).Ok?
       <==> again.now >= denied.now + Decision(BookAfter(trace, true), denied.key, denied.rule, denied.now).error
  {
    hide BookAfter, Decision, After, EntryOf, StartsBy, InOrder, WindowsWithinCutoff;
    var upto := trace + [denied];
    var all := upto + others + [again];
    assert all[..|upto|] == upto;
    PrefixIsSound(all, |upto|);
    PruneTransparency(trace, denied);
    PruneTransparency(upto + others, again);
    EntryMetAgain(trace, denied, others);
    TimesRise(upto, others, again);
    RetryFromEntry(BookAfter(trace, false), BookAfter(upto + others, false),
                   denied.key, denied.rule, denied.now, again.now);
  }

  // ----- Requests as they arrive -----

  /** A request as it arrives: the key is its address and path, the rule depends on path and method. */
  datatype Call = Call(ip: string, path: string, method_: string, now: Instant)

  function RequestOf(c: Call): Request {
    Request(KeyFor(c.ip, c.path), RateRuleFor(c.path, c.method_), c.now)
  }

  function RequestsOf(calls: seq<Call>): (trace: seq<Request>)
    ensures |trace| == |calls| && forall i | 0 <= i < |calls| :: trace[i] == RequestOf(calls[i])
  {
    seq(|calls|, i requires 0 <= i < |calls| => RequestOf(calls[i]))
  }

  /** The clock does not go back along the list. */
  ghost predicate InTime(calls: seq<Call>) {
    calls == [] ||
    var front, last := calls[..|calls| - 1], calls[|calls| - 1];
    InTime(front) && forall c | c in front :: c.now <= last.now
  }

  lemma InTimeSnoc(calls: seq<Call>, next: Call)
    ensures InTime(calls + [next]) <==> InTime(calls) && forall c | c in calls :: c.now <= next.now
  {
    assert (calls + [next])[..|calls|] == calls;
  }

  lemma {:induction false} InTimeMeans(calls: seq<Call>)
    requires InTime(calls)
    ensures forall i, j | 0 <= i < j < |calls| :: calls[i].now <= calls[j].now
  {
    if calls != [] {
      var front := calls[..|calls| - 1];
      InTimeMeans(front);
      assert forall i | 0 <= i < |front| :: calls[i] == front[i] && front[i] in front;
    }
  }

  /** No printed address contains the separator; a path may. */
  predicate PlainAddresses(calls: seq<Call>) {
    forall c | c in calls :: '|' !in c.ip
  }

  /** What the limiter answers to the next request. */
  function AnswerTo(calls: seq<Call>, next: Call): Result<(), nat> {
    var r := RequestOf(next);
    Decision(BookAfter(RequestsOf(calls), true), r.key, r.rule, r.now)
  }

  /** All answers to one address and path. */
  function AnswersTo(calls: seq<Call>, ip: string, path: string): seq<Result<(), nat>> {
    if calls == [] then [] else
    var front, last := calls[..|calls| - 1], calls[|calls| - 1];
    AnswersTo(front, ip, path) + if last.ip == ip && last.path == path then [AnswerTo(front, last)] else []
  }

  /** The requests of one address for one path. */
  function CallsOf(calls: seq<Call>, ip: string, path: string): seq<Call> {
    if calls == [] then [] else
    var front, last := calls[..|calls| - 1], calls[|calls| - 1];
    CallsOf(front, ip, path) + if last.ip == ip && last.path == path then [last] else []
  }

  lemma {:induction false} KeysAreDistinct(ip: string, path: string, ip': string, path': string)
    requires '|' !in ip && '|' !in ip' && KeyFor(ip, path) == KeyFor(ip', path')
    ensures ip == ip' && path == path'
  {
    var key, key' := KeyFor(ip, path), KeyFor(ip', path');
    assert key[|ip|] == '|' && key'[|ip'|] == '|';
    assert forall i | 0 <= i < |ip| :: key[i] == ip[i];
    assert forall i | 0 <= i < |ip'| :: key'[i] == ip'[i];
    assert ip == key[..|ip|] && ip' == key'[..|ip'|];
    assert path == key[|ip| + 1..] && path' == key'[|ip'| + 1..];
  }

  lemma OneMinuteRules(path: string, method_: string)
    ensures RateRuleFor(path, method_).window == 60 * SECOND
  {
  }

  lemma CallsOfSnoc(calls: seq<Call>, next: Call, ip: string, path: string)
    ensures CallsOf(calls + [next], ip, path)
         == if next.ip == ip && next.path == path then CallsOf(calls, ip, path) + [next] else CallsOf(calls, ip, path)
    ensures AnswersTo(calls + [next], ip, path) ==
              if next.ip == ip && next.path == path then AnswersTo(calls, ip, path) + [AnswerTo(calls, next)]
              else AnswersTo(calls, ip, path)
  {
    assert (calls + [next])[..|calls|] == calls;
  }

  lemma {:induction false} OwnCalls(calls: seq<Call>, ip: string, path: string)
    ensures forall c | c in CallsOf(calls, ip, path) :: c in calls && c.ip == ip && c.path == path
    ensures CallsOf(CallsOf(calls, ip, path), ip, path) == CallsOf(calls, ip, path)
  {
    if calls != [] {
      var front, last := calls[..|calls| - 1], calls[|calls| - 1];
      OwnCalls(front, ip, path);
      CallsOfSnoc(CallsOf(front, ip, path), last, ip, path);
    }
  }

  lemma {:induction false} OwnCallsInTime(calls: seq<Call>, ip: string, path: string)
    requires InTime(calls)
    ensures InTime(CallsOf(calls, ip, path))
  {
    if calls != [] {
      var front, last := calls[..|calls| - 1], calls[|calls| - 1];
      assert calls == front + [last];
      OwnCallsInTime(front, ip, path);
      OwnCalls(front, ip, path);
      CallsOfSnoc(front, last, ip, path);
      InTimeSnoc(front, last);
      InTimeSnoc(CallsOf(front, ip, path), last);
    }
  }

  lemma AsksAfter(calls: seq<Call>, next: Call, key: string)
    ensures AsksOf(RequestsOf(calls + [next]), key)
         == if KeyFor(next.ip, next.path) == key
            then AsksOf(RequestsOf(calls), key) + [Ask(next.now, RateRuleFor(next.path, next.method_).limit)]
            else AsksOf(RequestsOf(calls), key)
    ensures AsksOf(RequestsOf([]), key) == [] && CallsOf([], next.ip, next.path) == []
  {
    hide RateRuleFor, KeyFor;
    RequestsSnoc(calls, next);
    AsksSnoc(RequestsOf(calls + [next]), key);
  }

  /** The window of a key is moved by the address and path that it stands for and by nobody else. */
  lemma {:induction false} AsksOfCalls(calls: seq<Call>, ip: string, path: string)
    requires PlainAddresses(calls) && '|' !in ip
    ensures AsksOf(RequestsOf(calls), KeyFor(ip, path))
         == AsksOf(RequestsOf(CallsOf(calls, ip, path)), KeyFor(ip, path))
    ensures |AsksOf(RequestsOf(calls), KeyFor(ip, path))| == |CallsOf(calls, ip, path)|
  {
    hide RateRuleFor, KeyFor, RequestsOf, AsksOf, CallsOf;
    if calls == [] {
      AsksAfter([], Call(ip, path, "", 0), KeyFor(ip, path));
    } else {
      var front, last := calls[..|calls| - 1], calls[|calls| - 1];
      assert calls == front + [last] && last in calls;
      AsksOfCalls(front, ip, path);
      CallsOfSnoc(front, last, ip, path);
      AsksAfter(front, last, KeyFor(ip, path));
      AsksAfter(CallsOf(front, ip, path), last, KeyFor(ip, path));
      if KeyFor(last.ip, last.path) == KeyFor(ip, path) {
        KeysAreDistinct(last.ip, last.path, ip, path);
      }
    }
  }

  lemma RequestsSnoc(calls: seq<Call>, last: Call)
    ensures RequestsOf(calls + [last]) == RequestsOf(calls) + [RequestOf(last)]
    ensures RequestsOf(calls + [last])[..|calls|] == RequestsOf(calls)
  {
  }

  lemma RequestsAreSound(calls: seq<Call>)
    requires InTime(calls)
    ensures Sound(RequestsOf(calls))
    ensures forall key :: KeyUses(RequestsOf(calls), key, 60 * SECOND)
  {
    var trace := RequestsOf(calls);
    InTimeMeans(calls);
    forall i | 0 <= i < |trace| ensures trace[i].rule.window == 60 * SECOND {
      OneMinuteRules(calls[i].path, calls[i].method_);
    }
    hide RateRuleFor;
  }

  /** An answer depends on the one window that the asks of address and path have moved. */
  lemma AnswerFromAsks(calls: seq<Call>, next: Call)
    requires InTime(calls + [next])
    ensures var r := RequestOf(next);
            var w := AfterAll(None, AsksOf(RequestsOf(calls), r.key), 60 * SECOND);
            AnswerTo(calls, next) == if Refreshed(w, r.now, 60 * SECOND).count < r.rule.limit then Ok(())
                                     else Err(60 * SECOND - (r.now - Refreshed(w, r.now, 60 * SECOND).start))
  {
    hide RateRuleFor, KeyFor, BookAfter, AsksOf;
    var r, trace := RequestOf(next), RequestsOf(calls);
    InTimeSnoc(calls, next);
    RequestsSnoc(calls, next);
    RequestsAreSound(calls + [next]);
    RequestsAreSound(calls);
    OneMinuteRules(next.path, next.method_);
    PruneTransparency(trace, r);
    OneKeyIsOneWindow(trace, r.key, 60 * SECOND);
  }

  lemma {:induction false} AnswersAlone(calls: seq<Call>, next: Call)
    requires InTime(calls + [next]) && PlainAddresses(calls + [next])
    ensures AnswerTo(calls, next) == AnswerTo(CallsOf(calls, next.ip, next.path), next)
  {
    hide AnswerTo, RequestsOf, AsksOf, KeyFor, RateRuleFor, CallsOf, AfterAll, InTime;
    var own := CallsOf(calls, next.ip, next.path);
    assert next in calls + [next] && forall c | c in calls :: c in calls + [next];
    InTimeSnoc(calls, next);
    OwnCalls(calls, next.ip, next.path);
    OwnCallsInTime(calls, next.ip, next.path);
    InTimeSnoc(own, next);
    AnswerFromAsks(calls, next);
    AnswerFromAsks(own, next);
    AsksOfCalls(calls, next.ip, next.path);
  }

  /**
   Addresses do not get in each other's way: all answers to an address for a path, waits included, are those it
   would get if nobody else had asked for anything, itself for other paths included.
   */
  lemma {:induction false} AnswersAreOnesOwn(calls: seq<Call>, ip: string, path: string)
    requires InTime(calls) && PlainAddresses(calls)
    ensures AnswersTo(calls, ip, path) == AnswersTo(CallsOf(calls, ip, path), ip, path)
  {
    hide AnswerTo;
    if calls != [] {
      var front, last := calls[..|calls| - 1], calls[|calls| - 1];
      assert calls == front + [last] && last in calls;
      AnswersAreOnesOwn(front, ip, path);
      CallsOfSnoc(front, last, ip, path);
      if last.ip == ip && last.path == path {
        AnswersAlone(front, last);
        CallsOfSnoc(CallsOf(front, ip, path), last, ip, path);
      }
    }
  }

  /** So requests of other addresses and for other paths can be inserted and removed anywhere in a list. */
  lemma OthersDoNotMatter(one: seq<Call>, two: seq<Call>, ip: string, path: string)
    requires InTime(one) && PlainAddresses(one) && InTime(two) && PlainAddresses(two)
    requires CallsOf(one, ip, path) == CallsOf(two, ip, path)
    ensures AnswersTo(one, ip, path) == AnswersTo(two, ip, path)
  {
    AnswersAreOnesOwn(one, ip, path);
    AnswersAreOnesOwn(two, ip, path);
  }

  /**
   The wait returned with a denial is exact: if the client stays away from the path, whatever other addresses ask
   for in between and it asks for elsewhere, it is denied before the wait is over and admitted from then on.
   */
  lemma {:induction false} IdleClientRetry(calls: seq<Call>, denied: Call, others: seq<Call>, again: Call)
    requires InTime(calls + [denied] + others + [again]) && PlainAddresses(calls + [denied] + others)
    requires forall c | c in others :: c.ip != denied.ip || c.path != denied.path
    requires again.ip == denied.ip && again.path == denied.path && again.method_ == denied.method_
    requires AnswerTo(calls, denied).Err?
    ensures AnswerTo(calls + [denied] + others, again).Ok? <==> again.now >= denied.now + AnswerTo(calls, denied).error
  {
    hide RateRuleFor, KeyFor, BookAfter, Decision, InTime;
    var trace := RequestsOf(calls);
    RequestsSnoc(calls, denied);
    assert RequestsOf(calls + [denied] + others) == RequestsOf(calls) + [RequestOf(denied)] + RequestsOf(others);
    RequestsSnoc(calls + [denied] + others, again);
    RequestsAreSound(calls + [denied] + others + [again]);
    forall i | 0 <= i < |others| ensures RequestOf(others[i]).key != RequestOf(denied).key {
      assert others[i] in others && others[i] in calls + [denied] + others && denied in calls + [denied] + others;
      if RequestOf(others[i]).key == RequestOf(denied).key {
        KeysAreDistinct(others[i].ip, others[i].path, denied.ip, denied.path);
      }
    }
    PositiveLimits(denied.path, denied.method_);
    IdleKeyRetry(trace, RequestOf(denied), RequestsOf(others), RequestOf(again));
  }

  lemma PositiveLimits(path: string, method_: string)
    ensures 0 < RateRuleFor(path, method_).limit
  {
  }

  predicate AnyMethod(method_: string) {
    true
  }

  predicate IsWrite(method_: string) {
    IsPost(method_) || EqIgnoreCase(method_, "PUT") || EqIgnoreCase(method_, "DELETE") || EqIgnoreCase(method_, "PATCH")
  }

  /** The limits in numbers, each for a window of one minute. */
  lemma RouteLimits(path: string, method_: string)
    ensures RateRuleFor("/v1/recovery/login", method_) == RateRule(10, 60_000_000_000)
    ensures IsPost(method_) ==> RateRuleFor("/v1/claim", method_) == RateRule(10, 60_000_000_000)
    ensures !IsPost(method_) ==>
              RateRuleFor("/v1/claim", method_) == RateRule(if IsWrite(method_) then 180 else 600, 60_000_000_000)
    ensures RateRuleFor("/v1/pair/redeem", method_) == RateRule(20, 60_000_000_000)
    ensures RateRuleFor("/v1/messages/stream", method_) == RateRule(120, 60_000_000_000)
    ensures RateRuleFor("/v1/messages/wait", method_) == RateRule(120, 60_000_000_000)
    ensures path !in ["/v1/recovery/login", "/v1/claim", "/v1/pair/redeem",
                      "/v1/messages/stream", "/v1/messages/wait"] ==>
              RateRuleFor(path, method_) == RateRule(if IsWrite(method_) then 180 else 600, 60_000_000_000)
  {
  }

  /** How many requests of one address for one path by the counted methods are admitted within a minute. */
  function Granted(calls: seq<Call>, ip: string, path: string, counted: string -> bool, from: Instant): nat {
    if calls == [] then 0 else
    var front, last := calls[..|calls| - 1], calls[|calls| - 1];
    Granted(front, ip, path, counted, from) +
    if last.ip == ip && last.path == path && counted(last.method_) && from <= last.now < from + 60_000_000_000
       && AnswerTo(front, last).Ok?
    then 1 else 0
  }

  lemma {:induction false} GrantedAreAdmitted(
    calls: seq<Call>, ip: string, path: string, counted: string -> bool, most: nat, from: Instant)
    requires forall m | counted(m) :: RateRuleFor(path, m).limit <= most
    ensures Granted(calls, ip, path, counted, from)
         <= AdmittedOf(RequestsOf(calls), KeyFor(ip, path), most, 60 * SECOND, from)
  {
    hide RateRuleFor, KeyFor, BookAfter;
    if calls != [] {
      var front, last := calls[..|calls| - 1], calls[|calls| - 1];
      assert calls == front + [last];
      RequestsSnoc(front, last);
      GrantedAreAdmitted(front, ip, path, counted, most, from);
    }
  }

  /**
   From one address a path gets at most twice a limit admitted in any minute of the methods under it, although
   methods with larger limits share the window.
   */
  lemma RouteIntervalBound(
    calls: seq<Call>, ip: string, path: string, counted: string -> bool, most: nat, from: Instant)
    requires InTime(calls) && forall m | counted(m) :: RateRuleFor(path, m).limit <= most
    ensures Granted(calls, ip, path, counted, from) <= 2 * most
  {
    hide RateRuleFor, KeyFor, BookAfter, AdmittedOf, Granted;
    RequestsAreSound(calls);
    GrantedAreAdmitted(calls, ip, path, counted, most, from);
    RpcIntervalBound(RequestsOf(calls), KeyFor(ip, path), most, 60 * SECOND, from);
  }

  /** The bounds of the program in numbers, for any minute and whatever anybody asks for. */
  lemma {:induction false} RouteBounds(calls: seq<Call>, ip: string, path: string, from: Instant)
    requires InTime(calls)
    ensures Granted(calls, ip, "/v1/recovery/login", AnyMethod, from) <= 20
    ensures Granted(calls, ip, "/v1/claim", IsPost, from) <= 20
    ensures Granted(calls, ip, "/v1/pair/redeem", AnyMethod, from) <= 40
    ensures Granted(calls, ip, "/v1/messages/stream", AnyMethod, from) <= 240
    ensures Granted(calls, ip, "/v1/messages/wait", AnyMethod, from) <= 240
    ensures Granted(calls, ip, path, IsWrite, from) <= 360
    ensures Granted(calls, ip, path, AnyMethod, from) <= 1200
  {
    forall p, m ensures RateRuleFor(p, m).limit <= 600 && (IsWrite(m) ==> RateRuleFor(p, m).limit <= 180) {
    }
    RouteIntervalBound(calls, ip, path, IsWrite, 180, from);
    RouteIntervalBound(calls, ip, path, AnyMethod, 600, from);
    RouteIntervalBound(calls, ip, "/v1/recovery/login", AnyMethod, 10, from);
    RouteIntervalBound(calls, ip, "/v1/claim", IsPost, 10, from);
    RouteIntervalBound(calls, ip, "/v1/pair/redeem", AnyMethod, 20, from);
    RouteIntervalBound(calls, ip, "/v1/messages/stream", AnyMethod, 120, from);
    RouteIntervalBound(calls, ip, "/v1/messages/wait", AnyMethod, 120, from);
  }

  /** A window that a first ask opens admits as many as the limit, and names the rest of the minute as the wait. */
  lemma {:induction false} WindowFills(asks: seq<Tick>, limit: nat, length: nat)
    requires asks != [] && 0 < limit && forall i | 0 <= i < |asks| :: asks[i] == Ask(asks[i].now, limit)
    requires forall i | 0 <= i < |asks| :: asks[0].now <= asks[i].now < asks[0].now + length
    ensures AfterAll(None, asks, length) == Some(Window(asks[0].now, if |asks| < limit then |asks| else limit))
  {
    var front := asks[..|asks| - 1];
    if front != [] {
      WindowFills(front, limit, length);
    }
  }

  lemma {:induction false} OwnAsks(own: seq<Call>, ip: string, path: string)
    requires forall c | c in own :: c.ip == ip && c.path == path
    ensures var asks := AsksOf(RequestsOf(own), KeyFor(ip, path));
            && |asks| == |own|
            && forall i | 0 <= i < |own| :: asks[i] == Ask(own[i].now, RateRuleFor(path, own[i].method_).limit)
  {
    hide RateRuleFor, KeyFor, RequestsOf, AsksOf;
    if own == [] {
      AsksAfter([], Call(ip, path, "", 0), KeyFor(ip, path));
    } else {
      var front, last := own[..|own| - 1], own[|own| - 1];
      assert own == front + [last];
      OwnAsks(front, ip, path);
      AsksAfter(front, last, KeyFor(ip, path));
    }
  }

  /**
   Of the requests of one address for one path under one rule, exactly as many as the limit are admitted in the
   minute that the first of them begins, and any further one is told to wait for the end of it.
   */
  lemma {:induction false} LimitIsExact(calls: seq<Call>, next: Call)
    requires InTime(calls + [next]) && PlainAddresses(calls + [next])
    requires forall c | c in CallsOf(calls, next.ip, next.path) ::
               RateRuleFor(c.path, c.method_) == RateRuleFor(next.path, next.method_)
    requires var own := CallsOf(calls, next.ip, next.path); own != [] ==> next.now < own[0].now + 60_000_000_000
    ensures var own, rule := CallsOf(calls, next.ip, next.path), RateRuleFor(next.path, next.method_);
            AnswerTo(calls, next) == if |own| < rule.limit then Ok(())
                                     else Err(60_000_000_000 - (next.now - own[0].now))
  {
    hide RateRuleFor, KeyFor, AnswerTo, CallsOf, RequestsOf, AsksOf, AfterAll, InTime;
    var own, rule := CallsOf(calls, next.ip, next.path), RateRuleFor(next.path, next.method_);
    InTimeSnoc(calls, next);
    OwnCalls(calls, next.ip, next.path);
    OwnCallsInTime(calls, next.ip, next.path);
    InTimeSnoc(own, next);
    InTimeMeans(own);
    AnswersAlone(calls, next);
    AnswerFromAsks(own, next);
    OwnAsks(own, next.ip, next.path);
    PositiveLimits(next.path, next.method_);
    var asks := AsksOf(RequestsOf(own), KeyFor(next.ip, next.path));
    assert forall i | 0 <= i < |own| :: own[i] in own;
    if own == [] {
      NoAsks(asks);
    } else {
      WindowFills(asks, rule.limit, 60 * SECOND);
    }
  }

  lemma NoAsks(asks: seq<Tick>)
    requires asks == []
    ensures AfterAll(None, asks, 60 * SECOND) == None
  {
  }

  // ----- The relay limiter (relays/td-relay/src/main.rs) -----

  const RATE_WINDOW: nat := 1 * SECOND

  type SenderId = nat

  datatype Shared = Shared(start: Instant, counts: map<SenderId, nat>)

  function CountOf(s: Shared, sender: SenderId): nat {
    if sender in s.counts then s.counts[sender] else 0
  }

  function SharedRefreshed(s: Shared, now: Instant): Shared {
    if now >= s.start + RATE_WINDOW then Shared(now, map[]) else s
  }

  predicate SharedAdmits(s: Shared, sender: SenderId, now: Instant, most: nat) {
    CountOf(SharedRefreshed(s, now), sender) < most
  }

  function SharedAfter(s: Shared, sender: SenderId, now: Instant, most: nat): Shared {
    var r := SharedRefreshed(s, now);
    var c := CountOf(r, sender);
    Shared(r.start, r.counts[sender := if c < most then c + 1 else c])
  }

  class RateLimiter {
    var windowStart: Instant
    var counts: map<SenderId, nat>
    const maxPerWindow: nat

    constructor (maxPerWindow: nat, now: Instant)
      ensures this.maxPerWindow == maxPerWindow && State() == Shared(now, map[])
    {
      this.maxPerWindow := maxPerWindow;
      windowStart, counts := now, map[];
    }

    function State(): Shared
      reads this
    {
      Shared(windowStart, counts)
    }

    method Allow(sender: SenderId, now: Instant) returns (allowed: bool)
      requires windowStart <= now
      modifies this
      ensures allowed == SharedAdmits(old(State()), sender, now, maxPerWindow)
      ensures State() == SharedAfter(old(State()), sender, now, maxPerWindow)
      ensures windowStart <= now
    {
      if now - windowStart >= RATE_WINDOW {
        windowStart, counts := now, map[];
      }
      var c := if sender in counts then counts[sender] else 0;
      counts := counts[sender := c];
      if c >= maxPerWindow {
        return false;
      }
      counts := counts[sender := c + 1];
      return true;
    }
  }

  datatype Put = Put(sender: SenderId, now: Instant)

  function SharedAfterAll(s: Shared, puts: seq<Put>, most: nat): Shared {
    if puts == [] then s else
    var last := puts[|puts| - 1];
    SharedAfter(SharedAfterAll(s, puts[..|puts| - 1], most), last.sender, last.now, most)
  }

  function SenderAdmitted(s: Shared, puts: seq<Put>, most: nat, sender: SenderId, from: Instant): nat {
    if puts == [] then 0 else
    var front, last := puts[..|puts| - 1], puts[|puts| - 1];
    SenderAdmitted(s, front, most, sender, from) +
    if last.sender == sender && from <= last.now < from + 1_000_000_000
       && SharedAdmits(SharedAfterAll(s, front, most), sender, last.now, most)
    then 1 else 0
  }

  /** One sender's view: its own puts count, everybody's can roll the window. */
  function TicksFor(puts: seq<Put>, most: nat, sender: SenderId): seq<Tick> {
    if puts == [] then [] else
    var last := puts[|puts| - 1];
    TicksFor(puts[..|puts| - 1], most, sender) + [if last.sender == sender then Ask(last.now, most) else Roll(last.now)]
  }

  ghost predicate PutsInOrder(puts: seq<Put>) {
    forall i, j | 0 <= i < j < |puts| :: puts[i].now <= puts[j].now
  }

  lemma {:induction false} TicksMirrorPuts(puts: seq<Put>, most: nat, sender: SenderId)
    ensures var ticks := TicksFor(puts, most, sender);
            && |ticks| == |puts|
            && forall i | 0 <= i < |puts| ::
                 ticks[i] == if puts[i].sender == sender then Ask(puts[i].now, most) else Roll(puts[i].now)
  {
    if puts != [] {
      TicksMirrorPuts(puts[..|puts| - 1], most, sender);
    }
  }

  function WindowOf(s: Shared, sender: SenderId): Option<Window> {
    Some(Window(s.start, CountOf(s, sender)))
  }

  lemma OneSenderStep(s: Shared, put: Put, most: nat, sender: SenderId)
    ensures var tick := if put.sender == sender then Ask(put.now, most) else Roll(put.now);
            && WindowOf(SharedAfter(s, put.sender, put.now, most), sender)
               == After(WindowOf(s, sender), tick, RATE_WINDOW)
            && (tick.Ask? ==> (SharedAdmits(s, sender, put.now, most)
                               <==> Admits(WindowOf(s, sender), put.now, most, RATE_WINDOW)))
  {
  }

  lemma {:induction false} OneSenderIsOneWindow(
    start: Instant, puts: seq<Put>, most: nat, sender: SenderId, from: Instant)
    ensures var ticks, s := TicksFor(puts, most, sender), Shared(start, map[]);
            && AfterAll(Some(Window(start, 0)), ticks, RATE_WINDOW) == WindowOf(SharedAfterAll(s, puts, most), sender)
            && AdmittedFrom(Some(Window(start, 0)), ticks, most, RATE_WINDOW, from)
               == SenderAdmitted(s, puts, most, sender, from)
  {
    if puts != [] {
      hide SharedAfter, SharedAdmits, After, Admits, WindowOf;
      var n := |puts| - 1;
      OneSenderIsOneWindow(start, puts[..n], most, sender, from);
      OneSenderStep(SharedAfterAll(Shared(start, map[]), puts[..n], most), puts[n], most, sender);
      assert TicksFor(puts, most, sender)[..|TicksFor(puts[..n], most, sender)|] == TicksFor(puts[..n], most, sender);
    } else {
      assert CountOf(Shared(start, map[]), sender) == 0;
    }
  }

  /**
   No sender is held up by another: a put is refused exactly if the sender itself has had as many admitted as the
   limit since the current second began.
   */
  lemma {:induction false} RefusedForOnesOwnPuts(
    start: Instant, puts: seq<Put>, most: nat, sender: SenderId, now: Instant) returns (from: Instant)
    requires PutsInOrder(puts) && (forall p | p in puts :: start <= p.now <= now) && start <= now
    ensures from <= now < from + 1_000_000_000
    ensures var s := Shared(start, map[]);
            SharedAdmits(SharedAfterAll(s, puts, most), sender, now, most)
            <==> SenderAdmitted(s, puts, most, sender, from) < most
  {
    var s, ticks := Shared(start, map[]), TicksFor(puts, most, sender);
    var after := SharedAfterAll(s, puts, most);
    TicksMirrorPuts(puts, most, sender);
    assert forall i | 0 <= i < |puts| :: puts[i] in puts;
    CountsOwnAdmissions(Some(Window(start, 0)), ticks, most, RATE_WINDOW);
    OneSenderIsOneWindow(start, puts, most, sender, after.start);
    if now >= after.start + RATE_WINDOW {
      from := now;
      OneSenderIsOneWindow(start, puts, most, sender, now);
      NoneSince(Some(Window(start, 0)), ticks, most, RATE_WINDOW, now);
    } else {
      from := after.start;
      StartedBy(s, puts, most, now);
    }
  }

  lemma {:induction false} StartedBy(s: Shared, puts: seq<Put>, most: nat, now: Instant)
    requires s.start <= now && forall p | p in puts :: p.now <= now
    ensures SharedAfterAll(s, puts, most).start <= now
  {
    if puts != [] {
      StartedBy(s, puts[..|puts| - 1], most, now);
      assert puts[|puts| - 1] in puts;
    }
  }

  /** At most twice the limit per sender in any interval of one second, for every interleaving of senders. */
  lemma RelayIntervalBound(start: Instant, puts: seq<Put>, most: nat, sender: SenderId, from: Instant)
    requires PutsInOrder(puts) && forall i | 0 <= i < |puts| :: start <= puts[i].now
    ensures SenderAdmitted(Shared(start, map[]), puts, most, sender, from) <= 2 * most
  {
    OneSenderIsOneWindow(start, puts, most, sender, from);
    TicksMirrorPuts(puts, most, sender);
    SlidingBound(Some(Window(start, 0)), TicksFor(puts, most, sender), most, RATE_WINDOW, from);
  }
}
