// The leader lease behind the L1 heartbeat (core/redis_manager.py, core/sync_daemon.py).
//
// Every node tries, at its own times, to set one shared key that expires after a time to live; the
// node that succeeds sends the heartbeat.  The key is never released by the heartbeat loop, but
// release_lock exists and is part of the model.
module LeaderLease {
  import opened Wrappers
  import opened Arithmetic

  datatype Lock = Lock(holder: string, expires: int)

  // The state of the connection at one call: no client at all, or a command that fails, with or
  // without having taken effect.
  datatype Redis = Up | NoClient | Faulty(applied: bool)

  datatype Event =
    | Acquire(at: int, value: string, ttl: nat, redis: Redis)
    | Release(at: int, value: string, redis: Redis)

  predicate Free(key: Option<Lock>, now: int) { key.None? || key.value.expires <= now }

  // SET key value NX EX ttl
  function SetNx(key: Option<Lock>, now: int, value: string, ttl: nat): Option<Lock> {
    if Free(key, now) then Some(Lock(value, now + ttl)) else key
  }

  // Compare and delete, in one script.
  function DeleteIf(key: Option<Lock>, now: int, value: string): Option<Lock> {
    if !Free(key, now) && key.value.holder == value then None else key
  }

  function Step(key: Option<Lock>, e: Event): (Option<Lock>, bool) {
    match e
    case Acquire(at, value, ttl, redis) =>
      (match redis
       case Up => (SetNx(key, at, value, ttl), Free(key, at))
       case NoClient => (key, true)
       case Faulty(applied) => (if applied then SetNx(key, at, value, ttl) else key, false))
    case Release(at, value, redis) =>
      (match redis
       case Up => (DeleteIf(key, at, value), !Free(key, at) && key.value.holder == value)
       case NoClient => (key, false)
       case Faulty(applied) => (if applied then DeleteIf(key, at, value) else key, false))
  }

  class RedisManager {
    var key: Option<Lock>

    constructor ()
      ensures key == None
    {
      key := None;
    }

    // Without a client every attempt succeeds: single-node operation.
    method TryAcquireLock(now: int, value: string, ttl: nat, redis: Redis) returns (ok: bool)
      modifies this
      ensures (key, ok) == Step(old(key), Acquire(now, value, ttl, redis))
    {
      if redis.NoClient? { return true; }
      if redis == Faulty(false) { return false; }
      ok := key.None? || key.value.expires <= now;
      if ok { key := Some(Lock(value, now + ttl)); }
      if redis.Faulty? { ok := false; }
    }

    method ReleaseLock(now: int, value: string, redis: Redis) returns (ok: bool)
      modifies this
      ensures (key, ok) == Step(old(key), Release(now, value, redis))
    {
      if redis.NoClient? || redis == Faulty(false) { return false; }
      ok := key.Some? && key.value.expires > now && key.value.holder == value;
      if ok { key := None; }
      if redis.Faulty? { ok := false; }
    }
  }

  // ---------------------------------------------------------------------------------------------
  // Runs
  // ---------------------------------------------------------------------------------------------

  function Results(key: Option<Lock>, es: seq<Event>): (r: seq<bool>)
    ensures |r| == |es|
    decreases |es|
  {
    if es == [] then [] else [Step(key, es[0]).1] + Results(Step(key, es[0]).0, es[1..])
  }

  // The clock does not go back.
  predicate Timely(es: seq<Event>) {
    forall i, j :: 0 <= i < j < |es| ==> es[i].at <= es[j].at
  }

  predicate Acquired(key: Option<Lock>, es: seq<Event>, i: nat)
    requires i < |es|
  {
    es[i].Acquire? && Results(key, es)[i]
  }

  // No release names this value.
  predicate KeptBy(es: seq<Event>, value: string) {
    forall i :: 0 <= i < |es| && es[i].Release? ==> es[i].value != value
  }

  lemma TimelyTail(es: seq<Event>)
    requires es != [] && Timely(es)
    ensures Timely(es[1..])
  {
  }

  // While the lock is held an attempt succeeds exactly when it has no client.
  lemma {:induction false} HeldUntilExpiry(key: Option<Lock>, es: seq<Event>, j: nat)
    requires key.Some? && Timely(es) && j < |es| && KeptBy(es[..j], key.value.holder)
    requires es[j].Acquire? && es[j].at < key.value.expires
    ensures Acquired(key, es, j) <==> es[j].redis.NoClient?
    decreases |es|
  {
    if j > 0 {
      TimelyTail(es);
      assert es[0].at <= es[j].at;
      assert es[..j][0] == es[0];
      assert es[1..][..j - 1] == es[..j][1..];
      HeldUntilExpiry(key, es[1..], j - 1);
    }
  }

  // Mutual exclusion, in any mixture of nodes with and without a client: after an acquisition through
  // Redis whose value is not released, an attempt inside the time to live, by whomever, succeeds
  // exactly when it has no client.
  lemma {:induction false} AcquisitionsApart(key: Option<Lock>, es: seq<Event>, i: nat, j: nat)
    requires Timely(es) && i < j < |es| && Acquired(key, es, i) && !es[i].redis.NoClient?
    requires es[j].Acquire? && es[j].at < es[i].at + es[i].ttl
    requires KeptBy(es[i + 1..j], es[i].value)
    ensures Acquired(key, es, j) <==> es[j].redis.NoClient?
    decreases |es|
  {
    TimelyTail(es);
    var next := Step(key, es[0]).0;
    if i == 0 {
      assert es[1..][..j - 1] == es[1..j];
      assert next == Some(Lock(es[0].value, es[0].at + es[0].ttl));
      HeldUntilExpiry(next, es[1..], j - 1);
    } else {
      assert es[1..][i..j - 1] == es[i + 1..j];
      AcquisitionsApart(next, es[1..], i - 1, j - 1);
    }
  }

  // A release on a working Redis frees the key exactly for the value that holds it: the next attempt
  // there succeeds if the lease had run out by then or the release was the holder's, and otherwise the
  // key stays with its holder.
  lemma ReleaseFreesExactly(key: Option<Lock>, es: seq<Event>)
    requires |es| >= 2 && Timely(es) && es[0].Release? && es[1].Acquire? && es[0].redis.Up? && es[1].redis.Up?
    ensures Acquired(key, es, 1) <==>
              key.None? || key.value.expires <= es[1].at || es[0].value == key.value.holder
    ensures Results(key, es)[0] <==> key.Some? && es[0].at < key.value.expires && es[0].value == key.value.holder
    ensures !Acquired(key, es, 1) ==> Step(Step(key, es[0]).0, es[1]).0 == key
  {
    assert es[0].at <= es[1].at;
    var next := Step(key, es[0]).0;
    assert es[1..][0] == es[1];
    assert Results(key, es)[1] == Results(next, es[1..])[0] == Step(next, es[1]).1;
  }

  // So a lease taken and then released by its holder is free for the next attempt, at any point of a run.
  lemma {:induction false} TakenAndReleased(key: Option<Lock>, es: seq<Event>, i: nat)
    requires Timely(es) && i + 2 < |es| && Acquired(key, es, i) && es[i].redis.Up?
    requires es[i + 1] == Release(es[i + 1].at, es[i].value, Up)
    requires es[i + 2].Acquire? && es[i + 2].redis.Up?
    ensures Acquired(key, es, i + 2)
    decreases |es|
  {
    TimelyTail(es);
    if i == 0 {
      var next := Step(key, es[0]).0;
      assert es[1..][0] == es[1] && es[1..][1] == es[2];
      ReleaseFreesExactly(next, es[1..]);
      assert Results(key, es)[2] == Results(next, es[1..])[1];
    } else {
      TakenAndReleased(Step(key, es[0]).0, es[1..], i - 1);
    }
  }

  // The heartbeat loops of all nodes: attempts only, one time to live.
  predicate Heartbeats(es: seq<Event>, ttl: nat) {
    Timely(es) && forall i :: 0 <= i < |es| ==> es[i].Acquire? && es[i].ttl == ttl
  }

  // The times of the heartbeats sent by leaders, that is after an acquisition through Redis.
  function LeaderTimes(key: Option<Lock>, es: seq<Event>): seq<int>
    decreases |es|
  {
    if es == [] then []
    else
      (if es[0].Acquire? && !es[0].redis.NoClient? && Step(key, es[0]).1 then [es[0].at] else [])
      + LeaderTimes(Step(key, es[0]).0, es[1..])
  }

  predicate Spaced(ts: seq<int>, gap: int) {
    forall i :: 0 <= i < |ts| - 1 ==> ts[i + 1] >= ts[i] + gap
  }

  lemma {:induction false} LeaderTimesSpaced(key: Option<Lock>, es: seq<Event>, ttl: nat)
    requires Heartbeats(es, ttl)
    ensures Spaced(LeaderTimes(key, es), ttl)
    ensures var ts := LeaderTimes(key, es);
            ts != [] ==> ts[0] >= es[0].at && (key.Some? ==> ts[0] >= key.value.expires)
    decreases |es|
  {
    if es != [] {
      TimelyTail(es);
      LeaderTimesSpaced(Step(key, es[0]).0, es[1..], ttl);
    }
  }

  lemma {:induction false} SpacedSums(ts: seq<int>, gap: nat, i: nat, j: nat)
    requires Spaced(ts, gap) && i <= j < |ts|
    ensures ts[j] - ts[i] >= (j - i) * gap
    decreases j - i
  {
    if i < j {
      SpacedSums(ts, gap, i, j - 1);
      assert ts[(j - 1) + 1] >= ts[j - 1] + gap;
      assert (j - i) * gap == (j - 1 - i) * gap + gap;
    }
  }

  // Main result: in any window of length `span` at most span / ttl + 1 leaders' heartbeats are sent,
  // by all nodes together, however many nodes there are and whenever they try.
  lemma HeartbeatsPerWindow(key: Option<Lock>, es: seq<Event>, ttl: nat, i: nat, j: nat, span: nat)
    requires ttl > 0 && Heartbeats(es, ttl)
    requires i <= j < |LeaderTimes(key, es)| && LeaderTimes(key, es)[j] - LeaderTimes(key, es)[i] <= span
    ensures j - i + 1 <= span / ttl + 1
  {
    LeaderTimesSpaced(key, es, ttl);
    SpacedSums(LeaderTimes(key, es), ttl, i, j);
    CountFromSpan(j - i, ttl, span);
  }

  // Attempts at most `period` apart, on a working Redis.
  predicate Steady(es: seq<Event>, ttl: nat, period: nat) {
    && Heartbeats(es, ttl)
    && (forall i :: 0 <= i < |es| ==> es[i].redis.Up?)
    && (forall i :: 0 <= i < |es| - 1 ==> es[i + 1].at - es[i].at <= period)
  }

  lemma SteadyTail(es: seq<Event>, ttl: nat, period: nat)
    requires es != [] && Steady(es, ttl, period)
    ensures Steady(es[1..], ttl, period)
    ensures |es| > 1 ==> es[1].at - es[0].at <= period
  {
    TimelyTail(es);
    forall i | 0 <= i < |es[1..]| - 1
      ensures es[1..][i + 1].at - es[1..][i].at <= period
    {
      assert es[(i + 1) + 1].at - es[i + 1].at <= period;
    }
    if |es| > 1 { assert es[0 + 1].at - es[0].at <= period; }
  }

  // A held lease is taken over at most `period` after it has run out, if attempts go on until then.
  lemma {:induction false} TakenOver(key: Option<Lock>, es: seq<Event>, ttl: nat, period: nat)
    requires Steady(es, ttl, period) && key.Some? && es != [] && es[0].at <= key.value.expires + period
    ensures var ts := LeaderTimes(key, es);
            && (ts != [] ==> ts[0] <= key.value.expires + period)
            && (ts == [] <==> es[|es| - 1].at < key.value.expires)
    decreases |es|
  {
    SteadyTail(es, ttl, period);
    if es[0].at < key.value.expires {
      if |es| > 1 {
        TakenOver(key, es[1..], ttl, period);
      } else {
        assert LeaderTimes(key, es[1..]) == [];
      }
    } else {
      assert es[0].at <= es[|es| - 1].at;
    }
  }

  predicate Close(ts: seq<int>, gap: int) {
    forall i :: 0 <= i < |ts| - 1 ==> ts[i + 1] <= ts[i] + gap
  }

  // The lease is taken over in time: successive leaders' heartbeats are at most ttl + period apart.
  lemma {:induction false} NextLeaderComes(key: Option<Lock>, es: seq<Event>, ttl: nat, period: nat)
    requires Steady(es, ttl, period)
    ensures Close(LeaderTimes(key, es), ttl + period)
    decreases |es|
  {
    if es != [] {
      var next, rest := Step(key, es[0]).0, es[1..];
      SteadyTail(es, ttl, period);
      NextLeaderComes(next, rest, ttl, period);
      if Free(key, es[0].at) {
        if rest != [] { TakenOver(next, rest, ttl, period); }
        CloseCons(es[0].at, LeaderTimes(next, rest), ttl + period);
      }
    }
  }

  lemma CloseCons(t: int, ts: seq<int>, gap: int)
    requires Close(ts, gap) && (ts != [] ==> ts[0] <= t + gap)
    ensures Close([t] + ts, gap)
  {
    var all := [t] + ts;
    forall i | 0 <= i < |all| - 1
      ensures all[i + 1] <= all[i] + gap
    {
      if i > 0 { assert ts[(i - 1) + 1] <= ts[i - 1] + gap; }
    }
  }

  // And there is always a next one: nobody leads only if the key was held to the end by someone
  // before, and the last leader's lease outlasts the last attempt, unless that was its own.
  lemma {:induction false} LeaderFollows(key: Option<Lock>, es: seq<Event>, ttl: nat, period: nat)
    requires Steady(es, ttl, period) && es != []
    ensures LeaderTimes(key, es) == [] <==> !Free(key, es[|es| - 1].at)
    ensures var ts := LeaderTimes(key, es);
            ts != [] ==> es[|es| - 1].at < ts[|ts| - 1] + ttl || ts[|ts| - 1] == es[|es| - 1].at
    decreases |es|
  {
    var next, rest := Step(key, es[0]).0, es[1..];
    SteadyTail(es, ttl, period);
    assert es[0].at <= es[|es| - 1].at;
    if rest == [] {
      assert LeaderTimes(next, rest) == [];
    } else {
      LeaderFollows(next, rest, ttl, period);
    }
  }

  // Without a client there is no exclusion at all: every attempt of every node succeeds.
  lemma {:induction false} NoClientNoExclusion(key: Option<Lock>, es: seq<Event>, i: nat)
    requires i < |es| && es[i].Acquire? && es[i].redis.NoClient?
    ensures Acquired(key, es, i)
    decreases |es|
  {
    if i > 0 { NoClientNoExclusion(Step(key, es[0]).0, es[1..], i - 1); }
  }
}
