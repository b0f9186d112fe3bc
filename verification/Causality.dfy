/**
 What a replica should hold, said without any replica: the least set of events that contains everything
 delivered whose parents it also contains. All sets here are sets of event ids.
 */
module Causality {
  import opened Events
  import opened Sequences

  /** Every parent is in `acc`, whatever its room. */
  ghost predicate ParentsKnown(acc: set<EventId>, id: EventId) {
    forall p | p in ParentsOf(id) :: p in acc
  }

  ghost predicate SameRoomParents(id: EventId) {
    forall p | p in ParentsOf(id) :: RoomOf(p) == RoomOf(id)
  }

  ghost predicate Ready(acc: set<EventId>, id: EventId) {
    ParentsKnown(acc, id) && SameRoomParents(id)
  }

  /** `acc` takes in every event of `pool` that is ready. */
  ghost predicate Closed(acc: set<EventId>, pool: set<EventId>) {
    forall id | id in pool && Ready(acc, id) :: id in acc
  }

  ghost predicate ParentClosed(acc: set<EventId>) {
    forall id | id in acc :: Ready(acc, id)
  }

  ghost function NewlyReady(acc: set<EventId>, pool: set<EventId>): set<EventId> {
    set id | id in pool && id !in acc && Ready(acc, id)
  }

  /** `acc` and what can be accepted on top of it out of `pool`. */
  ghost function Closure(acc: set<EventId>, pool: set<EventId>): (c: set<EventId>)
    ensures acc <= c <= acc + pool
    ensures Closed(c, pool)
    decreases |pool - acc|
  {
    var ready := NewlyReady(acc, pool);
    if ready == {} then
      assert Closed(acc, pool) by {
        forall id | id in pool && Ready(acc, id) ensures id in acc {
          assert id !in ready;
        }
      }
      acc
    else
      assert |pool - (acc + ready)| < |pool - acc| by { Shrinks(pool - (acc + ready), pool - acc, ready); }
      Closure(acc + ready, pool)
  }

  lemma Shrinks<T>(small: set<T>, big: set<T>, gone: set<T>)
    requires small <= big && gone != {} && gone <= big && gone !! small
    ensures |small| < |big|
  {
    assert big == small + (big - small);
    assert |big| == |small| + |big - small|;
    var x :| x in gone;
    assert x in big - small;
  }

  lemma ReadyMeans(acc: set<EventId>, id: EventId)
    ensures Ready(acc, id) <==> ParentsKnown(acc, id) && SameRoomParents(id)
  {
  }

  lemma ReadyMonotone(acc: set<EventId>, more: set<EventId>, id: EventId)
    requires acc <= more && Ready(acc, id)
    ensures Ready(more, id)
  {
  }

  /** No set that contains `acc` and is closed under `pool` is smaller than the closure. */
  lemma {:induction false} ClosureIsLeast(acc: set<EventId>, pool: set<EventId>, other: set<EventId>)
    requires acc <= other && Closed(other, pool)
    ensures Closure(acc, pool) <= other
    decreases |pool - acc|
  {
    var ready := NewlyReady(acc, pool);
    if ready != {} {
      forall id | id in ready ensures id in other {
        ReadyMonotone(acc, other, id);
      }
      Shrinks(pool - (acc + ready), pool - acc, ready);
      ClosureIsLeast(acc + ready, pool, other);
    }
  }

  /** Accepting events of the closure early does not change where the drain ends. */
  lemma ClosureAbsorbs(acc: set<EventId>, mid: set<EventId>, pool: set<EventId>)
    requires acc <= mid <= Closure(acc, pool)
    ensures Closure(mid, pool) == Closure(acc, pool)
  {
    ClosureIsLeast(mid, pool, Closure(acc, pool));
    ClosureIsLeast(acc, pool, Closure(mid, pool));
  }

  lemma {:induction false} ClosureTakesReady(acc: set<EventId>, pool: set<EventId>, id: EventId)
    requires id in pool && Ready(acc, id)
    ensures Closure(acc + {id}, pool) == Closure(acc, pool)
  {
    var c := Closure(acc, pool);
    ReadyMonotone(acc, c, id);
    ClosureAbsorbs(acc, acc + {id}, pool);
  }

  /** Accept a ready event and then drain, or drain with it in the pool: the same. */
  lemma {:induction false} AcceptThenDrain(acc: set<EventId>, pool: set<EventId>, id: EventId)
    requires Ready(acc, id)
    ensures Closure(acc + {id}, pool) == Closure(acc, pool + {id})
    ensures Blocked(Closure(acc + {id}, pool), pool) <==> Blocked(Closure(acc, pool + {id}), pool + {id})
  {
    var c, d := Closure(acc, pool + {id}), Closure(acc + {id}, pool);
    ReadyMonotone(acc, c, id);
    ClosureIsLeast(acc + {id}, pool, c);
    ClosureIsLeast(acc, pool + {id}, d);
  }

  lemma ClosureMonotone(acc: set<EventId>, pool: set<EventId>, more: set<EventId>)
    requires pool <= more
    ensures Closure(acc, pool) <= Closure(acc, more)
  {
    ClosureIsLeast(acc, pool, Closure(acc, more));
  }

  /** In two portions or at once: draining what was left plus `more` ends where draining all of it ends. */
  lemma ClosureIncremental(acc: set<EventId>, pool: set<EventId>, more: set<EventId>)
    ensures var held := Closure(acc, pool);
            Closure(held, (pool - held) + more) == Closure(acc, pool + more)
  {
    var held := Closure(acc, pool);
    var left := Closure(held, (pool - held) + more);
    var right := Closure(acc, pool + more);
    ClosureIsLeast(acc, pool, right);
    ClosureIsLeast(held, (pool - held) + more, right);
    forall id | id in pool + more && Ready(left, id) ensures id in left {
      if id !in held { assert id in (pool - held) + more; }
    }
    ClosureIsLeast(acc, pool + more, left);
  }

  /** What the closure of nothing accepts is closed under taking parents. */
  lemma {:induction false} ClosureParentClosed(acc: set<EventId>, pool: set<EventId>)
    requires ParentClosed(acc)
    ensures ParentClosed(Closure(acc, pool))
    decreases |pool - acc|
  {
    var ready := NewlyReady(acc, pool);
    if ready != {} {
      Shrinks(pool - (acc + ready), pool - acc, ready);
      forall id | id in acc + ready ensures Ready(acc + ready, id) {
        ReadyMonotone(acc, acc + ready, id);
      }
      ClosureParentClosed(acc + ready, pool);
    }
  }

  /** A set that can be rebuilt from nothing, in some order, with parents first. */
  ghost predicate Founded(acc: set<EventId>) {
    Closure({}, acc) == acc
  }

  lemma FoundedClosure(acc: set<EventId>, pool: set<EventId>)
    requires Founded(acc)
    ensures Founded(Closure(acc, pool))
  {
    var c := Closure(acc, pool);
    var d := Closure({}, c);
    forall id | id in pool && Ready(d, id) ensures id in d {
      ReadyMonotone(d, c, id);
    }
    ClosureMonotone({}, acc, c);
    ClosureIsLeast(acc, pool, d);
  }

  lemma FoundedParentClosed(acc: set<EventId>)
    requires Founded(acc)
    ensures ParentClosed(acc)
  {
    ClosureParentClosed({}, acc);
  }

  /**
   Some event of the pool has all its parents accepted but one of them lives in another room: the node
   thinks it is ready and the room's DAG refuses it.
   */
  ghost predicate Blocked(acc: set<EventId>, pool: set<EventId>) {
    exists id | id in pool && id !in acc :: ParentsKnown(acc, id) && !SameRoomParents(id)
  }

  lemma BlockedPersists(acc: set<EventId>, pool: set<EventId>, more: set<EventId>, bigger: set<EventId>)
    requires Blocked(acc, pool) && acc <= more && pool <= bigger && ParentClosed(more)
    ensures Blocked(more, bigger)
  {
    var id :| id in pool && id !in acc && ParentsKnown(acc, id) && !SameRoomParents(id);
    assert id in more ==> Ready(more, id);
  }

  /**
   How a drain of `pool` on top of `acc` ends. It fails exactly when something in the pool gets blocked.
   Otherwise it accepts the closure and leaves the rest parked. Either way it accepts nothing else.
   */
  ghost predicate Drained(
    acc: set<EventId>, pool: set<EventId>, acc': set<EventId>, parked': set<EventId>, failed: bool)
  {
    var c := Closure(acc, pool);
    && acc <= acc' <= c
    && parked' <= pool
    && (failed <==> Blocked(c, pool))
    && (!failed ==> acc' == c && parked' == pool - c)
  }

  /** Some passes into the drain: nothing has been lost, and only closure events have been accepted. */
  ghost predicate Draining(acc: set<EventId>, pool: set<EventId>, acc': set<EventId>, parked': set<EventId>) {
    acc <= acc' <= Closure(acc, pool) && parked' <= pool <= parked' + acc'
  }

  /** No parked event is accepted or has all its parents. */
  ghost predicate Stuck(acc: set<EventId>, parked: set<EventId>) {
    forall id | id in parked :: id !in acc && !ParentsKnown(acc, id)
  }

  lemma NothingDrainedYet(acc: set<EventId>, pool: set<EventId>)
    ensures Draining(acc, pool, acc, pool)
  {
  }

  lemma DrainingComposes(
    acc: set<EventId>, pool: set<EventId>, mid: set<EventId>, left: set<EventId>,
    acc': set<EventId>, parked': set<EventId>)
    requires Draining(acc, pool, mid, left) && Draining(mid, left, acc', parked')
    ensures Draining(acc, pool, acc', parked')
  {
    ClosureMonotone(mid, left, pool);
    ClosureAbsorbs(acc, mid, pool);
  }

  lemma {:induction false} DrainingFails(
    acc: set<EventId>, pool: set<EventId>, mid: set<EventId>, left: set<EventId>,
    acc': set<EventId>, parked': set<EventId>)
    requires ParentClosed(acc) && Draining(acc, pool, mid, left)
    requires mid <= acc' <= Closure(mid, left) && parked' <= left && Blocked(acc', left)
    ensures Drained(acc, pool, acc', parked', true)
  {
    ClosureMonotone(mid, left, pool);
    ClosureAbsorbs(acc, mid, pool);
    ClosureParentClosed(acc, pool);
    BlockedPersists(acc', left, Closure(acc, pool), pool);
  }

  lemma DrainingStuck(acc: set<EventId>, pool: set<EventId>, acc': set<EventId>, parked': set<EventId>)
    requires Draining(acc, pool, acc', parked') && Stuck(acc', parked')
    ensures Drained(acc, pool, acc', parked', false)
  {
    ClosureIsLeast(acc, pool, acc');
  }

  lemma DrainedAfterAccept(
    acc: set<EventId>, parked: set<EventId>, id: EventId, acc': set<EventId>, parked': set<EventId>, failed: bool)
    requires Ready(acc, id) && Drained(acc + {id}, parked, acc', parked', failed)
    ensures Drained(acc, parked + {id}, acc', parked', failed) && id in acc' && acc <= acc'
  {
    AcceptThenDrain(acc, parked, id);
  }

  lemma RefusedIsDrained(acc: set<EventId>, parked: set<EventId>, id: EventId)
    requires ParentClosed(acc) && id !in acc && ParentsKnown(acc, id) && !SameRoomParents(id)
    ensures Drained(acc, parked + {id}, acc, parked, true)
  {
    ClosureParentClosed(acc, parked + {id});
    assert Blocked(acc, parked + {id});
    BlockedPersists(acc, parked + {id}, Closure(acc, parked + {id}), parked + {id});
  }

  lemma DrainedInPortions(
    acc: set<EventId>, pool: set<EventId>, mid: set<EventId>, left: set<EventId>,
    more: set<EventId>, acc': set<EventId>, parked': set<EventId>, failed: bool)
    requires Drained(acc, pool, mid, left, false) && Drained(mid, left + more, acc', parked', failed)
    ensures Drained(acc, pool + more, acc', parked', failed)
  {
    ClosureIncremental(acc, pool, more);
    var c := Closure(acc, pool + more);
    assert Blocked(c, left + more) <==> Blocked(c, pool + more);
  }

  lemma FailureIsFinal(
    acc: set<EventId>, pool: set<EventId>, more: set<EventId>, acc': set<EventId>, parked': set<EventId>)
    requires ParentClosed(acc) && Drained(acc, pool, acc', parked', true)
    ensures Drained(acc, pool + more, acc', parked', true)
  {
    ClosureMonotone(acc, pool, pool + more);
    ClosureParentClosed(acc, pool + more);
    BlockedPersists(Closure(acc, pool), pool, Closure(acc, pool + more), pool + more);
  }

  lemma NothingToDrain(acc: set<EventId>, parked: set<EventId>, id: EventId)
    requires Stuck(acc, parked)
    ensures id in acc ==> Drained(acc, parked + {id}, acc, parked, false)
    ensures !ParentsKnown(acc, id) && id !in acc ==> Drained(acc, parked + {id}, acc, parked + {id}, false)
  {
    if id in acc || !ParentsKnown(acc, id) {
      ClosureIsLeast(acc, parked + {id}, acc);
    }
  }

  // ----- Tips -----

  ghost predicate HasChild(acc: set<EventId>, id: EventId) {
    exists c | c in acc :: id in ParentsOf(c)
  }

  /** The accepted events that no accepted event names as a parent. */
  ghost function TipsOf(acc: set<EventId>): set<EventId> {
    set id | id in acc && !HasChild(acc, id)
  }

  /** One more event on top of a parent-closed set replaces its parents among the tips. */
  lemma TipsAfterAccept(acc: set<EventId>, id: EventId)
    requires ParentClosed(acc) && ParentsKnown(acc, id) && id !in acc
    ensures TipsOf(acc + {id}) == TipsOf(acc) - Elements(ParentsOf(id)) + {id}
  {
    forall x ensures x in TipsOf(acc + {id}) <==> x in TipsOf(acc) - Elements(ParentsOf(id)) + {id} {
      if x in acc {
        assert HasChild(acc + {id}, x) <==> HasChild(acc, x) || x in ParentsOf(id);
      } else if x == id {
        if c :| c in acc + {id} && id in ParentsOf(c) {
          assert c in acc ==> Ready(acc, c);
        }
      }
    }
  }

  ghost function InRoom(acc: set<EventId>, room: RoomId): set<EventId> {
    set id | id in acc && RoomOf(id) == room
  }

  /** `log` lists each event once, after all of its parents. */
  ghost predicate CausalLog(log: seq<EventId>) {
    log == [] ||
    var n := |log| - 1;
    CausalLog(log[..n]) && log[n] !in log[..n] && forall p | p in ParentsOf(log[n]) :: p in log[..n]
  }

  lemma {:induction false} LogPositions(log: seq<EventId>)
    requires CausalLog(log)
    ensures NoDuplicates(log)
    ensures forall i, p | 0 <= i < |log| && p in ParentsOf(log[i]) :: p in log[..i]
  {
    if log != [] {
      var front := log[..|log| - 1];
      LogPositions(front);
      assert forall i | 0 <= i < |front| :: front[..i] == log[..i] && front[i] == log[i];
    }
  }

  /** A walk along child edges inside `acc`. */
  ghost predicate ChildPath(acc: set<EventId>, path: seq<EventId>) {
    && |path| > 0
    && (forall i | 0 <= i < |path| :: path[i] in acc)
    && (forall i | 0 <= i < |path| - 1 :: path[i] in ParentsOf(path[i + 1]))
  }

  ghost function IndexIn(log: seq<EventId>, id: EventId): (i: nat)
    requires id in log
    ensures i < |log| && log[i] == id
  {
    var i :| 0 <= i < |log| && log[i] == id;
    i
  }

  lemma LogSnoc(log: seq<EventId>, id: EventId)
    requires CausalLog(log) && id !in log && ParentsKnown(Elements(log), id)
    ensures CausalLog(log + [id]) && Elements(log + [id]) == Elements(log) + {id}
  {
    assert (log + [id])[..|log|] == log;
  }

  /** Whatever the closure accepts can be listed with parents first, after any such listing of `acc`. */
  lemma {:induction false} ExtendLog(log: seq<EventId>, pool: set<EventId>) returns (longer: seq<EventId>)
    requires CausalLog(log)
    ensures CausalLog(longer) && Elements(longer) == Closure(Elements(log), pool)
    decreases |pool - Elements(log)|
  {
    var acc := Elements(log);
    if id :| id in pool && id !in acc && Ready(acc, id) {
      LogSnoc(log, id);
      ClosureTakesReady(acc, pool, id);
      Shrinks(pool - (acc + {id}), pool - acc, {id});
      longer := ExtendLog(log + [id], pool);
    } else {
      ClosureIsLeast(acc, pool, acc);
      longer := log;
    }
  }

  /** A rebuildable set has an order in which each event comes after its parents; so it has no cycle. */
  lemma CausalOrder(acc: set<EventId>) returns (log: seq<EventId>)
    requires Founded(acc)
    ensures CausalLog(log) && Elements(log) == acc
  {
    assert Elements<EventId>([]) == {};
    log := ExtendLog([], acc);
  }

  /** A causal log of one room's events shows that each of them can be rebuilt from nothing. */
  lemma {:induction false} LogInClosure(log: seq<EventId>, pool: set<EventId>, n: nat)
    requires CausalLog(log) && n <= |log| && Elements(log) <= pool
    requires forall id | id in log :: SameRoomParents(id)
    ensures forall i | 0 <= i < n :: log[i] in Closure({}, pool)
  {
    if n > 0 {
      LogPositions(log);
      LogInClosure(log, pool, n - 1);
      assert log[n - 1] in Elements(log);
      assert Ready(Closure({}, pool), log[n - 1]);
    }
  }

  lemma ChildComesLater(log: seq<EventId>, p: EventId, c: EventId)
    requires CausalLog(log) && p in log && c in log && p in ParentsOf(c)
    ensures IndexIn(log, p) < IndexIn(log, c)
  {
    LogPositions(log);
    var j := IndexIn(log, c);
    assert p in log[..j];
    var i :| 0 <= i < j && log[..j][i] == p;
    assert log[i] == p;
    var k := IndexIn(log, p);
    assert !(i < k) && !(k < i);
  }

  /** Along a path the position in the log strictly increases, so no path comes back to its start. */
  lemma {:induction false} NoCycle(log: seq<EventId>, path: seq<EventId>)
    requires CausalLog(log) && ChildPath(Elements(log), path) && |path| > 1
    ensures path[0] != path[|path| - 1]
    ensures IndexIn(log, path[0]) < IndexIn(log, path[|path| - 1])
  {
    var n := |path|;
    ChildComesLater(log, path[n - 2], path[n - 1]);
    if n > 2 {
      NoCycle(log, path[..n - 1]);
    }
  }

  lemma {:induction false} PathFrom(acc: set<EventId>, id: EventId, rest: seq<EventId>)
    requires ChildPath(acc, rest) && id in acc && id in ParentsOf(rest[0])
    ensures ChildPath(acc, [id] + rest) && ([id] + rest)[|rest|] == rest[|rest| - 1]
  {
  }

  /** Every event of a finite causal log reaches a tip along child edges. */
  lemma {:induction false} ReachesTip(log: seq<EventId>, id: EventId) returns (path: seq<EventId>)
    requires CausalLog(log) && id in log
    ensures ChildPath(Elements(log), path)
    ensures path[0] == id && path[|path| - 1] in TipsOf(Elements(log))
    decreases |log| - IndexIn(log, id)
  {
    var acc := Elements(log);
    if HasChild(acc, id) {
      var c :| c in acc && id in ParentsOf(c);
      ChildComesLater(log, id, c);
      var rest := ReachesTip(log, c);
      path := [id] + rest;
      PathFrom(acc, id, rest);
    } else {
      path := [id];
    }
  }

  /** A parent-closed set that contains the end of a path contains the whole path. */
  lemma {:induction false} PathContained(acc: set<EventId>, path: seq<EventId>, held: set<EventId>)
    requires ChildPath(acc, path) && ParentClosed(held) && path[|path| - 1] in held
    ensures path[0] in held
  {
    if |path| > 1 {
      var n := |path|;
      assert Ready(held, path[n - 1]);
      PathContained(acc, path[..n - 1], held);
    }
  }

  /**
   Holding one event that was authored on top of all tips of a log certifies holding the whole log.
   */
  lemma TipsCertifyHistory(log: seq<EventId>, ev: EventId, held: set<EventId>)
    requires CausalLog(log)
    requires TipsOf(Elements(log)) <= Elements(ParentsOf(ev))
    requires ParentClosed(held) && ev in held
    ensures forall id | id in log :: id in held
  {
    forall id | id in log ensures id in held {
      var path := ReachesTip(log, id);
      assert Ready(held, ev);
      PathContained(Elements(log), path, held);
    }
  }
}
