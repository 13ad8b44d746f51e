// Which session an input belongs to, and how it gets served (core/session_manager.py,
// core/event_bus.py): inputs of one session meet in one actor, which works through them one after the
// other; a dispatched input is at the end of its session's queue; and a live session works off its
// whole queue.
module Sessions {
  import opened EventQueue
  import opened Text
  import opened Wrappers

  // ---------------------------------------------------------------------------------------------
  // Routing
  // ---------------------------------------------------------------------------------------------

  // The row carries a session id, blanks around it aside.
  predicate Names(r: Row, id: string) {
    r.sessionId.Some? && Strip(r.sessionId.value) == id && id != ""
  }

  predicate Anonymous(r: Row) {
    r.sessionId.None? || Strip(r.sessionId.value) == ""
  }

  // s is the session id of the row; without one, its source and chat id; without those, its source and
  // something made up for it alone.
  ghost predicate RoutedTo(r: Row, s: string) {
    && (!Anonymous(r) ==> Names(r, s))
    && (Anonymous(r) && r.chatId.Some? ==> s == r.source + ":" + r.chatId.value)
    && (Anonymous(r) && r.chatId.None? ==> exists nonce :: s == r.source + ":" + nonce)
  }

  // Whatever an actor has been handed belongs to its session.
  ghost predicate Routed(st: State) {
    forall s, id: nat :: With(st.actors, s, id) ==> id < |st.rows| && RoutedTo(st.rows[id], s)
  }

  // Rows keep where they come from.
  ghost predicate SameOrigin(a: Row, b: Row) {
    a.source == b.source && a.sessionId == b.sessionId && a.chatId == b.chatId
  }

  lemma SessionIsRight(r: Row, nonce: string)
    ensures RoutedTo(r, SessionOf(r, nonce))
  {
  }

  lemma OriginsStay(st: State, e: Event)
    ensures |st.rows| <= |Apply(st, e).rows|
    ensures forall id :: 0 <= id < |st.rows| ==> SameOrigin(st.rows[id], Apply(st, e).rows[id])
  {
  }

  lemma RoutedAlike(a: Row, b: Row, s: string)
    requires SameOrigin(a, b)
    ensures RoutedTo(a, s) <==> RoutedTo(b, s)
  {
  }

  // What a step can add to what an actor has been handed: the row a dispatcher submits.
  lemma NewlyHanded(st: State, e: Event, s: string, id: nat)
    requires With(Apply(st, e).actors, s, id)
    ensures With(st.actors, s, id)
            || (e.Submit? && e.d < |st.dispatchers| && st.dispatchers[e.d] == Claimed(id) && id < |st.rows|
                && s == SessionOf(st.rows[id], e.nonce))
  {
  }

  lemma StepRoutes(st: State, e: Event)
    requires Routed(st)
    ensures Routed(Apply(st, e))
  {
    var st' := Apply(st, e);
    OriginsStay(st, e);
    forall s, id: nat | With(st'.actors, s, id)
      ensures id < |st'.rows| && RoutedTo(st'.rows[id], s)
    {
      NewlyHanded(st, e, s, id);
      if !With(st.actors, s, id) { SessionIsRight(st.rows[id], e.nonce); }
      RoutedAlike(st.rows[id], st'.rows[id], s);
    }
  }

  // In every run, with any number of dispatchers and restarts, actors only get rows of their session.
  lemma {:induction false} RunRoutes(st: State, es: seq<Event>)
    requires Routed(st)
    ensures Routed(Run(st, es))
    decreases |es|
  {
    if es != [] {
      StepRoutes(st, es[0]);
      RunRoutes(Apply(st, es[0]), es[1..]);
    }
  }

  // Two rows of one session: the same session id, or none and the same source and chat.
  ghost predicate SameSession(a: Row, b: Row) {
    || (exists id :: Names(a, id) && Names(b, id))
    || (Anonymous(a) && Anonymous(b) && a.source == b.source && a.chatId == b.chatId && a.chatId.Some?)
  }

  // Rows of one session are never with different actors, whatever was made up on the way; and rows with
  // session ids are with the same actor only if these are the same.
  lemma OneActorPerSession(rows: seq<Row>, n: nat, es: seq<Event>, s: string, t: string, i: nat, j: nat)
    requires With(Run(Boot(rows, n), es).actors, s, i) && With(Run(Boot(rows, n), es).actors, t, j)
    ensures var st := Run(Boot(rows, n), es);
            && i < |st.rows| && j < |st.rows|
            && RoutedTo(st.rows[i], s)
            && (SameSession(st.rows[i], st.rows[j]) ==> s == t)
            && (!Anonymous(st.rows[i]) && !Anonymous(st.rows[j]) && s == t ==> SameSession(st.rows[i], st.rows[j]))
  {
    RunRoutes(Boot(rows, n), es);
    var st := Run(Boot(rows, n), es);
    assert RoutedTo(st.rows[i], s) && RoutedTo(st.rows[j], t);
  }

  lemma Before(a: Actor, i: nat, j: nat)
    requires Fifo(a) && i < j && i in a.handed && j in a.handed
    ensures j in a.started ==> i in a.finished
  {
    var x :| 0 <= x < |a.handed| && a.handed[x] == i;
    var y :| 0 <= y < |a.handed| && a.handed[y] == j;
    assert x < y;
    if j in a.started {
      var z :| 0 <= z < |a.started| && a.started[z] == j;
      StartedAt(a, z);
      assert y == z && x < |a.finished|;
      StartedAt(a, x);
      assert a.finished[x] == i;
    }
  }

  // Main result, per session: with one dispatcher, an input is only started when all earlier inputs of
  // its session that were handed over in this process life have been finished; and without a restart
  // all earlier ones have been handed over, to the same actor.
  lemma SessionIsSerial(es: seq<Event>, s: string, t: string, i: nat, j: nat)
    requires i < j && With(Run(Init(1), es).actors, s, j)
    requires i < |Run(Init(1), es).rows| && j < |Run(Init(1), es).rows|
    requires SameSession(Run(Init(1), es).rows[i], Run(Init(1), es).rows[j])
    ensures var st := Run(Init(1), es);
            && (With(st.actors, t, i) ==> s == t && (j in st.actors[s].started ==> i in st.actors[s].finished))
            && (NoRestart(es) ==> With(st.actors, s, i))
  {
    var st := Run(Init(1), es);
    var b, n := RunKeepsInv(Init(1), 0, 0, es);
    if With(st.actors, t, i) {
      OneActorPerSession([], 1, es, s, t, j, i);
      SameSessionSymmetric(st.rows[i], st.rows[j]);
      Before(st.actors[s], i, j);
    }
    if NoRestart(es) {
      assert b <= i < Handed(st, n);
      assert WithSome(st.actors, i);
      var u :| With(st.actors, u, i);
      OneActorPerSession([], 1, es, s, u, j, i);
      SameSessionSymmetric(st.rows[i], st.rows[j]);
    }
  }

  lemma SameSessionSymmetric(a: Row, b: Row)
    ensures SameSession(a, b) <==> SameSession(b, a)
  {
  }

  // ---------------------------------------------------------------------------------------------
  // Being served
  // ---------------------------------------------------------------------------------------------

  // One turn of the dispatcher: the first pending row is marked and goes to the end of its session's
  // queue, in a live actor if the session had none; nothing else changes.
  lemma DispatcherTurn(st: State, d: nat, nonce: string, id: nat)
    requires d < |st.dispatchers| && st.dispatchers[d].Idle?
    requires id < |st.rows| && st.rows[id].status.Pending? && forall k :: 0 <= k < id ==> !st.rows[k].status.Pending?
    ensures var s := SessionOf(st.rows[id], nonce);
            && RoutedTo(st.rows[id], s)
            && Run(st, [Select(d), Claim(d), Submit(d, nonce)])
               == State(st.rows[id := st.rows[id].(status := Processing)], st.dispatchers,
                        st.actors[s := if s in st.actors
                                       then st.actors[s].(queue := st.actors[s].queue + [id], handed := st.actors[s].handed + [id])
                                       else Actor([id], None, true, [id], [], [])])
  {
    FirstPendingFound(st.rows, 0, id);
    SessionIsRight(st.rows[id], nonce);
    var b := Claimant(st, d, id);
    RunTwo(st, Select(d), Claim(d), [Submit(d, nonce)]);
    assert [Select(d), Claim(d)] + [Submit(d, nonce)] == [Select(d), Claim(d), Submit(d, nonce)];
    assert [Submit(d, nonce)][1..] == [];
    assert Run(b, [Submit(d, nonce)]) == Apply(b, Submit(d, nonce));
    Submitted(st, b, d, id, nonce);
  }

  lemma Claimant(st: State, d: nat, id: nat) returns (b: State)
    requires d < |st.dispatchers| && st.dispatchers[d].Idle?
    requires id < |st.rows| && st.rows[id].status.Pending? && FirstPending(st.rows, 0) == id
    ensures b == Apply(Apply(st, Select(d)), Claim(d))
    ensures b == State(st.rows[id := st.rows[id].(status := Processing)], st.dispatchers[d := Claimed(id)], st.actors)
  {
    b := Apply(Apply(st, Select(d)), Claim(d));
    assert st.dispatchers[d := Selected(id)][d := Claimed(id)] == st.dispatchers[d := Claimed(id)];
  }

  lemma Submitted(st: State, b: State, d: nat, id: nat, nonce: string)
    requires d < |st.dispatchers| && st.dispatchers[d].Idle? && id < |st.rows|
    requires b == State(st.rows[id := st.rows[id].(status := Processing)], st.dispatchers[d := Claimed(id)], st.actors)
    ensures var s := SessionOf(st.rows[id], nonce);
            Apply(b, Submit(d, nonce))
            == State(b.rows, st.dispatchers,
                     st.actors[s := if s in st.actors
                                    then st.actors[s].(queue := st.actors[s].queue + [id], handed := st.actors[s].handed + [id])
                                    else Actor([id], None, true, [id], [], [])])
  {
    assert st.dispatchers[d := Claimed(id)][d := Idle] == st.dispatchers;
    assert SessionOf(b.rows[id], nonce) == SessionOf(st.rows[id], nonce);
    assert [] + [id] == [id];
  }

  lemma {:induction false} FirstPendingFound(rows: seq<Row>, k: nat, id: nat)
    requires k <= id < |rows| && rows[id].status.Pending? && forall j :: k <= j < id ==> !rows[j].status.Pending?
    ensures FirstPending(rows, k) == id
    decreases id - k
  {
    if k < id { FirstPendingFound(rows, k + 1, id); }
  }

  // Start and finish, n times.
  function Turns(s: string, n: nat): seq<Event> {
    if n == 0 then [] else [Start(s), Finish(s, true)] + Turns(s, n - 1)
  }

  function AllFinished(rows: seq<Row>, ids: seq<nat>): seq<Row>
    decreases |ids|
  {
    if ids == [] then rows
    else AllFinished(if ids[0] < |rows| then WithStatus(rows, ids[0], Finished) else rows, ids[1..])
  }

  lemma OneTurn(st: State, s: string)
    requires s in st.actors && CanStart(st.actors[s])
    ensures var a := st.actors[s];
            Apply(Apply(st, Start(s)), Finish(s, true))
            == State(AllFinished(st.rows, [a.queue[0]]), st.dispatchers,
                     st.actors[s := a.(queue := a.queue[1..], started := a.started + [a.queue[0]],
                                       finished := a.finished + [a.queue[0]])])
  {
    var a := st.actors[s];
    assert [a.queue[0]][1..] == [];
    var mid := Apply(st, Start(s));
    var end := Apply(mid, Finish(s, true));
    assert end.actors == st.actors[s := End(Begin(a))];
    assert AllFinished(st.rows, [a.queue[0]]) == end.rows;
  }

  lemma RunTwo(st: State, a: Event, b: Event, rest: seq<Event>)
    ensures Run(st, [a, b] + rest) == Run(Apply(Apply(st, a), b), rest)
  {
    var es := [a, b] + rest;
    assert es[1..][1..] == rest && es[1..][0] == b;
  }

  // A live session that is not at work serves its whole queue in order, one turn for each input, and
  // then every row of the queue is done; no other session, dispatcher or row is touched.
  lemma {:induction false} SessionWorksOff(st: State, s: string)
    requires s in st.actors && st.actors[s].alive && st.actors[s].current.None?
    ensures var a := st.actors[s];
            Run(st, Turns(s, |a.queue|))
            == State(AllFinished(st.rows, a.queue), st.dispatchers,
                     st.actors[s := a.(queue := [], started := a.started + a.queue, finished := a.finished + a.queue)])
    decreases |st.actors[s].queue|
  {
    var a := st.actors[s];
    if a.queue == [] {
      assert a.started + [] == a.started && a.finished + [] == a.finished;
      assert st.actors[s := a] == st.actors;
    } else {
      OneTurn(st, s);
      RunTwo(st, Start(s), Finish(s, true), Turns(s, |a.queue| - 1));
      SessionWorksOff(Apply(Apply(st, Start(s)), Finish(s, true)), s);
      FirstServed(st.rows, a.queue);
      Regained(a.started, a.queue);
      Regained(a.finished, a.queue);
    }
  }

  lemma Regained(done: seq<nat>, queue: seq<nat>)
    requires queue != []
    ensures done + [queue[0]] + queue[1..] == done + queue
  {
  }

  lemma FirstServed(rows: seq<Row>, ids: seq<nat>)
    requires ids != []
    ensures AllFinished(AllFinished(rows, [ids[0]]), ids[1..]) == AllFinished(rows, ids)
  {
    assert [ids[0]][1..] == [];
  }

  // Which rows that marks: those of the queue, and only those.
  lemma {:induction false} AllFinishedExactly(rows: seq<Row>, ids: seq<nat>, k: nat)
    requires k < |rows|
    ensures |AllFinished(rows, ids)| == |rows|
    ensures AllFinished(rows, ids)[k] == if k in ids then rows[k].(status := Finished) else rows[k]
    decreases |ids|
  {
    if ids != [] {
      AllFinishedExactly(if ids[0] < |rows| then WithStatus(rows, ids[0], Finished) else rows, ids[1..], k);
      assert ids == [ids[0]] + ids[1..];
    }
  }

  // An actor that is alive goes on living through every step of a process life, unless it is idle with
  // nothing waiting and its idle time runs out; one that has stopped stays stopped.
  lemma StopsOnlyWhenIdle(st: State, e: Event, s: string)
    requires s in st.actors && !e.Restart?
    ensures s in Apply(st, e).actors
    ensures Apply(st, e).actors[s].alive <==>
              st.actors[s].alive && !(e == IdleTimeout(s) && st.actors[s].queue == [] && st.actors[s].current.None?)
  {
  }
}
