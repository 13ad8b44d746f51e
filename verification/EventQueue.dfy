// The session-multiplexed event queue (core/event_bus.py, core/session_manager.py).
//
// Inputs are rows of a persistent queue.  A dispatcher repeatedly selects the first pending row,
// marks it as processing and hands it to the actor of its session; every actor works through its
// own queue, one event at a time.  All of this is interleaved freely: a run is any sequence of the
// atomic steps below, a step that is not enabled doing nothing.  When the process dies and starts
// again, only the rows are left.
module EventQueue {
  import opened Wrappers
  import opened Text

  datatype Status = Pending | Processing | Finished

  // Row ids are positions in the table: AUTOINCREMENT, rows are never deleted.
  datatype Row = Row(source: string, sessionId: Option<string>, chatId: Option<string>, status: Status)

  datatype Phase = Idle | Selected(id: nat) | Claimed(id: nat)

  // `handed`, `started` and `finished` record what happened to the actor so far.
  datatype Actor = Actor(queue: seq<nat>, current: Option<nat>, alive: bool,
                         handed: seq<nat>, started: seq<nat>, finished: seq<nat>)

  datatype State = State(rows: seq<Row>, dispatchers: seq<Phase>, actors: map<string, Actor>)

  datatype Event =
    | Insert(source: string, sessionId: Option<string>, chatId: Option<string>)
    | Select(d: nat)
    | Claim(d: nat)
    | Retry(d: nat)
    | Submit(d: nat, nonce: string)
    | Start(s: string)
    | Finish(s: string, marked: bool)
    | IdleTimeout(s: string)
    | Restart

  function SessionOf(r: Row, nonce: string): string {
    if r.sessionId.Some? && Strip(r.sessionId.value) != "" then Strip(r.sessionId.value)
    else if r.chatId.Some? then r.source + ":" + r.chatId.value
    else r.source + ":" + nonce
  }

  const NewActor := Actor([], None, true, [], [], [])

  function ActorOf(st: State, s: string): Actor { if s in st.actors then st.actors[s] else NewActor }

  function FirstPending(rows: seq<Row>, k: nat): nat
    decreases |rows| - k
  {
    if k >= |rows| || rows[k].status.Pending? then k else FirstPending(rows, k + 1)
  }

  function WithStatus(rows: seq<Row>, k: nat, status: Status): seq<Row>
    requires k < |rows|
  {
    rows[k := rows[k].(status := status)]
  }

  function Hand(a: Actor, id: nat): Actor {
    a.(queue := a.queue + [id], handed := a.handed + [id])
  }

  function Begin(a: Actor): Actor
    requires a.queue != []
  {
    a.(queue := a.queue[1..], current := Some(a.queue[0]), started := a.started + [a.queue[0]])
  }

  function End(a: Actor): Actor
    requires a.current.Some?
  {
    a.(current := None, finished := a.finished + [a.current.value])
  }

  predicate CanStart(a: Actor) { a.alive && a.current.None? && a.queue != [] }

  predicate CanTimeOut(a: Actor) { a.alive && a.current.None? && a.queue == [] }

  // UPDATE ... WHERE id=? AND status='pending': may touch no row, and the event is submitted anyway.
  function ClaimRow(rows: seq<Row>, id: nat): seq<Row> {
    if id < |rows| && rows[id].status.Pending? then WithStatus(rows, id, Processing) else rows
  }

  function Apply(st: State, e: Event): State {
    match e
    case Insert(source, sid, chat) => st.(rows := st.rows + [Row(source, sid, chat, Pending)])
    case Select(d) =>
      if d < |st.dispatchers| && st.dispatchers[d].Idle? && FirstPending(st.rows, 0) < |st.rows|
      then st.(dispatchers := st.dispatchers[d := Selected(FirstPending(st.rows, 0))]) else st
    case Claim(d) =>
      if d < |st.dispatchers| && st.dispatchers[d].Selected? then
        var id := st.dispatchers[d].id;
        st.(rows := ClaimRow(st.rows, id), dispatchers := st.dispatchers[d := Claimed(id)])
      else st
    case Retry(d) =>
      if d < |st.dispatchers| && st.dispatchers[d].Selected? then st.(dispatchers := st.dispatchers[d := Idle]) else st
    case Submit(d, nonce) =>
      if d < |st.dispatchers| && st.dispatchers[d].Claimed? && st.dispatchers[d].id < |st.rows| then
        var id := st.dispatchers[d].id;
        var s := SessionOf(st.rows[id], nonce);
        st.(dispatchers := st.dispatchers[d := Idle], actors := st.actors[s := Hand(ActorOf(st, s), id)])
      else st
    case Start(s) =>
      if s in st.actors && CanStart(st.actors[s]) then st.(actors := st.actors[s := Begin(st.actors[s])]) else st
    case Finish(s, marked) =>
      if s in st.actors && st.actors[s].current.Some? then
        var id := st.actors[s].current.value;
        st.(rows := if marked && id < |st.rows| then WithStatus(st.rows, id, Finished) else st.rows,
            actors := st.actors[s := End(st.actors[s])])
      else st
    case IdleTimeout(s) =>
      if s in st.actors && CanTimeOut(st.actors[s]) then st.(actors := st.actors[s := st.actors[s].(alive := false)]) else st
    case Restart => Boot(st.rows, |st.dispatchers|)
  }

  function Run(st: State, es: seq<Event>): State
    decreases |es|
  {
    if es == [] then st else Run(Apply(st, es[0]), es[1..])
  }

  // A process start with n dispatchers on the rows found in the table.
  function Boot(rows: seq<Row>, n: nat): State { State(rows, seq(n, _ => Idle), map[]) }

  function Init(n: nat): State { Boot([], n) }

  predicate NoRestart(es: seq<Event>) { forall k :: 0 <= k < |es| ==> !es[k].Restart? }

  // ---------------------------------------------------------------------------------------------
  // The program's own form
  // ---------------------------------------------------------------------------------------------

  class OmniSensoryBus {
    var rows: seq<Row>
    var dispatchers: seq<Phase>
    var actors: map<string, Actor>

    constructor (rows: seq<Row>, n: nat)
      ensures Value() == Boot(rows, n)
    {
      this.rows, dispatchers, actors := rows, seq(n, _ => Idle), map[];
    }

    function Value(): State
      reads this
    {
      State(rows, dispatchers, actors)
    }

    method PersistInput(source: string, sessionId: Option<string>, chatId: Option<string>)
      modifies this
      ensures Value() == Apply(old(Value()), Insert(source, sessionId, chatId))
    {
      rows := rows + [Row(source, sessionId, chatId, Pending)];
    }

    // SELECT ... WHERE status='pending' ORDER BY id LIMIT 1
    method SelectPending(d: nat)
      modifies this
      ensures Value() == Apply(old(Value()), Select(d))
    {
      if d >= |dispatchers| || !dispatchers[d].Idle? { return; }
      var k := 0;
      while k < |rows| && !rows[k].status.Pending?
        invariant k <= |rows| && FirstPending(rows, k) == FirstPending(rows, 0)
      {
        k := k + 1;
      }
      if k < |rows| { dispatchers := dispatchers[d := Selected(k)]; }
    }

    method ClaimSelected(d: nat)
      modifies this
      ensures Value() == Apply(old(Value()), Claim(d))
    {
      if d >= |dispatchers| || !dispatchers[d].Selected? { return; }
      var id := dispatchers[d].id;
      if id < |rows| && rows[id].status.Pending? {
        rows := rows[id := rows[id].(status := Processing)];
      }
      dispatchers := dispatchers[d := Claimed(id)];
    }

    // SessionManager.submit: find or create the actor, then put the event into its queue.
    method SubmitClaimed(d: nat, nonce: string)
      modifies this
      ensures Value() == Apply(old(Value()), Submit(d, nonce))
    {
      if d >= |dispatchers| || !dispatchers[d].Claimed? || dispatchers[d].id >= |rows| { return; }
      var id := dispatchers[d].id;
      var s := SessionOf(rows[id], nonce);
      var actor := NewActor;
      if s in actors { actor := actors[s]; }
      actors := actors[s := actor.(queue := actor.queue + [id], handed := actor.handed + [id])];
      dispatchers := dispatchers[d := Idle];
    }

    // One turn of SessionActor._run: either the next event is taken, or the idle time runs out.
    method TakeOrTimeOut(s: string, timeout: bool)
      modifies this
      ensures Value() == Apply(old(Value()), if timeout then IdleTimeout(s) else Start(s))
    {
      if s !in actors || !actors[s].alive || actors[s].current.Some? { return; }
      var a := actors[s];
      if timeout {
        if a.queue == [] { actors := actors[s := a.(alive := false)]; }
      } else if a.queue != [] {
        actors := actors[s := Actor(a.queue[1..], Some(a.queue[0]), a.alive, a.handed, a.started + [a.queue[0]], a.finished)];
      }
    }

    // The end of _process_single_task: the UPDATE to 'done' may fail, which is only logged.
    method FinishCurrent(s: string, marked: bool)
      modifies this
      ensures Value() == Apply(old(Value()), Finish(s, marked))
    {
      if s !in actors || actors[s].current.None? { return; }
      var id := actors[s].current.value;
      if marked && id < |rows| { rows := rows[id := rows[id].(status := Finished)]; }
      actors := actors[s := actors[s].(current := None, finished := actors[s].finished + [id])];
    }
  }

  // ---------------------------------------------------------------------------------------------
  // What every interleaving keeps, with a single dispatcher
  // ---------------------------------------------------------------------------------------------

  predicate Increasing(s: seq<nat>) {
    forall i, j :: 0 <= i < j < |s| ==> s[i] < s[j]
  }

  function Serving(a: Actor): seq<nat> { if a.current.Some? then [a.current.value] else [] }

  // Events are started in the order in which they were handed over and finished in the order in
  // which they were started, one at a time.
  ghost predicate Fifo(a: Actor) {
    && Increasing(a.handed)
    && a.handed == a.started + a.queue
    && a.started == a.finished + Serving(a)
  }

  // Rows before `n` have been claimed, the others are pending.
  ghost predicate ClaimedUpTo(rows: seq<Row>, n: nat) {
    n <= |rows| && forall k :: 0 <= k < |rows| ==> (rows[k].status.Pending? <==> k >= n)
  }

  ghost predicate With(actors: map<string, Actor>, s: string, id: nat) {
    s in actors && id in actors[s].handed
  }

  ghost predicate WithSome(actors: map<string, Actor>, id: nat) {
    exists s :: With(actors, s, id)
  }

  // Every row from `b` to `m` is with exactly one session, and no session has any other.
  ghost predicate HandedUpTo(actors: map<string, Actor>, b: nat, m: nat) {
    && (forall s, id: nat :: With(actors, s, id) ==> b <= id < m)
    && (forall s, t, id: nat :: With(actors, s, id) && With(actors, t, id) ==> s == t)
    && (forall id: nat :: b <= id < m ==> WithSome(actors, id))
  }

  ghost predicate AllFifo(actors: map<string, Actor>) {
    forall s :: s in actors ==> Fifo(actors[s])
  }

  ghost predicate FinishedBySome(actors: map<string, Actor>, id: nat) {
    exists s :: s in actors && id in actors[s].finished
  }

  // A row from `b` on that is marked done has been worked through by a session.
  ghost predicate DoneIsFinished(rows: seq<Row>, actors: map<string, Actor>, b: nat) {
    forall k: nat :: b <= k < |rows| && rows[k].status.Finished? ==> FinishedBySome(actors, k)
  }

  // Rows before `b` were claimed before the last process start.
  ghost predicate Inv(st: State, b: nat, n: nat) {
    && |st.dispatchers| == 1
    && ClaimedUpTo(st.rows, n)
    && AllFifo(st.actors)
    && DoneIsFinished(st.rows, st.actors, b)
    && b <= Handed(st, n) && HandedUpTo(st.actors, b, Handed(st, n))
    && (st.dispatchers[0].Selected? ==> st.dispatchers[0].id == n < |st.rows|)
    && (st.dispatchers[0].Claimed? ==> st.dispatchers[0].id + 1 == n)
  }

  // How many rows have been handed over: all claimed ones but the one in the dispatcher's hands.
  function Handed(st: State, n: nat): nat
    requires |st.dispatchers| == 1
  {
    if st.dispatchers[0].Claimed? then st.dispatchers[0].id else n
  }

  lemma {:induction false} FirstPendingIsBoundary(rows: seq<Row>, n: nat, k: nat)
    requires ClaimedUpTo(rows, n) && k <= n
    ensures FirstPending(rows, k) == n
    decreases n - k
  {
    if k < n { FirstPendingIsBoundary(rows, n, k + 1); }
  }

  lemma HandKeepsFifo(a: Actor, id: nat)
    requires Fifo(a) && forall x :: x in a.handed ==> x < id
    ensures Fifo(Hand(a, id))
  {
    var b := Hand(a, id);
    assert a.started + (a.queue + [id]) == (a.started + a.queue) + [id];
    forall i, j | 0 <= i < j < |b.handed|
      ensures b.handed[i] < b.handed[j]
    {
      if j == |a.handed| { assert a.handed[i] in a.handed; }
    }
  }

  lemma BeginKeepsFifo(a: Actor)
    requires Fifo(a) && CanStart(a)
    ensures Fifo(Begin(a))
  {
  }

  lemma EndKeepsFifo(a: Actor)
    requires Fifo(a) && a.current.Some?
    ensures Fifo(End(a))
  {
  }

  // One actor changes, keeping what was handed to it.
  lemma HandedUpToKept(actors: map<string, Actor>, s: string, a: Actor, b: nat, m: nat)
    requires HandedUpTo(actors, b, m) && s in actors && a.handed == actors[s].handed
    ensures HandedUpTo(actors[s := a], b, m)
  {
    var after := actors[s := a];
    assert forall t, id: nat :: With(after, t, id) <==> With(actors, t, id);
    forall id: nat | b <= id < m
      ensures WithSome(after, id)
    {
      assert WithSome(actors, id);
      var t :| With(actors, t, id);
      assert With(after, t, id);
    }
  }

  lemma SubmitHandsNext(actors: map<string, Actor>, s: string, b: nat, id: nat, a: Actor)
    requires b <= id && HandedUpTo(actors, b, id)
    requires a == if s in actors then actors[s] else NewActor
    ensures HandedUpTo(actors[s := Hand(a, id)], b, id + 1)
    ensures forall x :: x in a.handed ==> x < id
  {
    var after := actors[s := Hand(a, id)];
    forall x | x in a.handed
      ensures x < id
    {
      assert With(actors, s, x);
    }
    forall t, x: nat
      ensures With(after, t, x) <==> (With(actors, t, x) || (t == s && x == id))
    {
    }
    forall x: nat | b <= x < id + 1
      ensures WithSome(after, x)
    {
      if x < id {
        assert WithSome(actors, x);
        var t :| With(actors, t, x);
        assert With(after, t, x);
      } else {
        assert With(after, s, x);
      }
    }
  }

  lemma DoneKept(rows: seq<Row>, actors: map<string, Actor>, b: nat, s: string, a: Actor)
    requires DoneIsFinished(rows, actors, b)
    requires s in actors ==> actors[s].finished <= a.finished
    ensures DoneIsFinished(rows, actors[s := a], b)
  {
    forall k: nat | b <= k < |rows| && rows[k].status.Finished?
      ensures FinishedBySome(actors[s := a], k)
    {
      var t :| t in actors && k in actors[t].finished;
      assert t in actors[s := a] && k in actors[s := a][t].finished;
    }
  }

  lemma DoneMarked(rows: seq<Row>, actors: map<string, Actor>, b: nat, s: string, id: nat)
    requires DoneIsFinished(rows, actors, b) && id < |rows| && s in actors && id in actors[s].finished
    ensures DoneIsFinished(WithStatus(rows, id, Finished), actors, b)
  {
  }

  lemma DispatcherStepKeepsInv(st: State, b: nat, n: nat, e: Event) returns (n': nat)
    requires Inv(st, b, n) && (e.Insert? || e.Select? || e.Claim? || e.Retry?)
    ensures Inv(Apply(st, e), b, n') && n <= n'
  {
    n' := if e.Claim? && Apply(st, e) != st then n + 1 else n;
    FirstPendingIsBoundary(st.rows, n, 0);
  }

  lemma SubmitKeepsInv(st: State, b: nat, n: nat, e: Event)
    requires Inv(st, b, n) && e.Submit?
    ensures Inv(Apply(st, e), b, n)
  {
    var st' := Apply(st, e);
    if st' != st {
      var id := st.dispatchers[0].id;
      var s := SessionOf(st.rows[id], e.nonce);
      var a := ActorOf(st, s);
      SubmitHandsNext(st.actors, s, b, id, a);
      HandKeepsFifo(a, id);
      DoneKept(st.rows, st.actors, b, s, Hand(a, id));
    }
  }

  lemma FinishKeepsInv(st: State, b: nat, n: nat, s: string, marked: bool)
    requires Inv(st, b, n) && s in st.actors && st.actors[s].current.Some?
    ensures Inv(Apply(st, Finish(s, marked)), b, n)
  {
    var a, a' := st.actors[s], End(st.actors[s]);
    EndKeepsFifo(a);
    FinishedRowWasClaimed(st, b, n, s);
    HandedUpToKept(st.actors, s, a', b, Handed(st, n));
    DoneKept(st.rows, st.actors, b, s, a');
    if marked { DoneMarked(st.rows, st.actors[s := a'], b, s, a.current.value); }
  }

  lemma ActorStepKeepsInv(st: State, b: nat, n: nat, e: Event)
    requires Inv(st, b, n) && (e.Start? || e.Finish? || e.IdleTimeout?)
    ensures Inv(Apply(st, e), b, n)
  {
    if Apply(st, e) != st {
      var a := st.actors[e.s];
      if e.Finish? {
        FinishKeepsInv(st, b, n, e.s, e.marked);
      } else {
        var a' := if e.Start? then Begin(a) else a.(alive := false);
        if e.Start? { BeginKeepsFifo(a); }
        HandedUpToKept(st.actors, e.s, a', b, Handed(st, n));
        DoneKept(st.rows, st.actors, b, e.s, a');
      }
    }
  }

  lemma FinishedRowWasClaimed(st: State, b: nat, n: nat, s: string)
    requires Inv(st, b, n) && s in st.actors && st.actors[s].current.Some?
    ensures st.actors[s].current.value < n
  {
    var a := st.actors[s];
    assert a.current.value in Serving(a);
    assert a.current.value in a.started && a.current.value in a.handed;
    assert With(st.actors, s, a.current.value);
  }

  // A restart keeps the claimed rows a prefix of the table; those are behind it from then on.
  lemma BootKeepsInv(rows: seq<Row>, n: nat)
    requires ClaimedUpTo(rows, n)
    ensures Inv(Boot(rows, 1), n, n)
  {
  }

  lemma StepKeepsInv(st: State, b: nat, n: nat, e: Event) returns (b': nat, n': nat)
    requires Inv(st, b, n)
    ensures Inv(Apply(st, e), b', n') && b <= b' && n <= n'
    ensures !e.Restart? ==> b' == b
    ensures e.Submit? ==> n' == n
    ensures Handed(st, n) <= Handed(Apply(st, e), n')
  {
    b', n' := b, n;
    if e.Submit? {
      SubmitKeepsInv(st, b, n, e);
    } else if e.Start? || e.Finish? || e.IdleTimeout? {
      ActorStepKeepsInv(st, b, n, e);
    } else if e.Restart? {
      b' := n;
      BootKeepsInv(st.rows, n);
    } else {
      n' := DispatcherStepKeepsInv(st, b, n, e);
    }
  }

  lemma {:induction false} RunKeepsInv(st: State, b: nat, n: nat, es: seq<Event>) returns (b': nat, n': nat)
    requires Inv(st, b, n)
    ensures Inv(Run(st, es), b', n')
    ensures NoRestart(es) ==> b' == b
    decreases |es|
  {
    if es == [] {
      b', n' := b, n;
    } else {
      var c, m := StepKeepsInv(st, b, n, es[0]);
      b', n' := RunKeepsInv(Apply(st, es[0]), c, m, es[1..]);
    }
  }

  // Main result, order: in every interleaving the events a session has started are a prefix of the
  // events dispatched to it, these come in increasing row id, and at most the last one started is
  // still in progress.
  lemma SessionsAreFifo(es: seq<Event>, s: string)
    requires s in Run(Init(1), es).actors
    ensures var a := Run(Init(1), es).actors[s];
            && a.started <= a.handed && Increasing(a.handed)
            && a.queue == a.handed[|a.started|..]
            && (a.current.None? ==> a.finished == a.started)
            && (a.current.Some? ==> a.started == a.finished + [a.current.value])
  {
    var b, n := RunKeepsInv(Init(1), 0, 0, es);
    var a := Run(Init(1), es).actors[s];
    assert Fifo(a);
    assert a.finished + [] == a.finished;
  }

  // Where a row is.
  ghost predicate InHand(st: State, id: nat) {
    exists d :: 0 <= d < |st.dispatchers| && st.dispatchers[d] == Claimed(id)
  }

  // Main result, conservation: every inserted row is pending, or in the dispatcher's hands, or with
  // exactly one session, and there it is in exactly one of queue, progress and past; only rows a
  // session has finished are ever marked done.  After a restart a row may also be none of these:
  // it was claimed before.
  lemma RowsAreConserved(es: seq<Event>, id: nat)
    requires id < |Run(Init(1), es).rows|
    ensures var st := Run(Init(1), es);
            && !(st.rows[id].status.Pending? && InHand(st, id))
            && (st.rows[id].status.Pending? || InHand(st, id) ==> !WithSome(st.actors, id))
            && (forall s, t :: With(st.actors, s, id) && With(st.actors, t, id) ==> s == t)
            && (forall s :: With(st.actors, s, id) ==> OneStage(st.actors[s], id))
            && (NoRestart(es) && !WithSome(st.actors, id) ==> st.rows[id].status.Pending? || InHand(st, id))
            && (NoRestart(es) && st.rows[id].status.Finished? ==> FinishedBySome(st.actors, id))
  {
    var b, n := RunKeepsInv(Init(1), 0, 0, es);
    var st := Run(Init(1), es);
    if d :| 0 <= d < |st.dispatchers| && st.dispatchers[d] == Claimed(id) {
      assert d == 0;
    }
    if st.dispatchers[0] == Claimed(id) { assert InHand(st, id); }
    forall s | With(st.actors, s, id)
      ensures OneStage(st.actors[s], id)
    {
      OneStageOnly(st.actors[s], id);
    }
    if WithSome(st.actors, id) {
      var s :| With(st.actors, s, id);
      assert id < Handed(st, n);
    }
  }

  ghost predicate OneStage(a: Actor, id: nat) {
    || (id in a.queue && a.current != Some(id) && id !in a.finished)
    || (id !in a.queue && a.current == Some(id) && id !in a.finished)
    || (id !in a.queue && a.current != Some(id) && id in a.finished)
  }

  // The stretches of the handed events: finished, in progress, queued.
  lemma QueuedAt(a: Actor, i: nat)
    requires Fifo(a) && i < |a.queue|
    ensures |a.started| + i < |a.handed| && a.handed[|a.started| + i] == a.queue[i]
  {
  }

  lemma StartedAt(a: Actor, i: nat)
    requires Fifo(a) && i < |a.started|
    ensures i < |a.handed| && a.handed[i] == a.started[i]
    ensures i < |a.finished| ==> a.started[i] == a.finished[i]
    ensures i >= |a.finished| ==> a.current == Some(a.started[i]) && i == |a.finished|
  {
  }

  lemma QueuedIndex(a: Actor, id: nat) returns (k: nat)
    requires Fifo(a) && id in a.queue
    ensures |a.started| <= k < |a.handed| && a.handed[k] == id
  {
    var i :| 0 <= i < |a.queue| && a.queue[i] == id;
    QueuedAt(a, i);
    k := |a.started| + i;
  }

  lemma FinishedIndex(a: Actor, id: nat) returns (k: nat)
    requires Fifo(a) && id in a.finished
    ensures k < |a.finished| <= |a.started| && k < |a.handed| && a.handed[k] == id
  {
    k :| 0 <= k < |a.finished| && a.finished[k] == id;
    assert a.started[k] == a.finished[k];
    StartedAt(a, k);
  }

  lemma ServedIndex(a: Actor, id: nat) returns (k: nat)
    requires Fifo(a) && a.current == Some(id)
    ensures |a.finished| == k < |a.started| && k < |a.handed| && a.handed[k] == id
  {
    k := |a.finished|;
    assert a.started[k] == id;
    StartedAt(a, k);
  }

  lemma QueuedOnly(a: Actor, id: nat)
    requires Fifo(a) && id in a.queue
    ensures a.current != Some(id) && id !in a.finished
  {
    var k := QueuedIndex(a, id);
    if a.current == Some(id) {
      var i := ServedIndex(a, id);
    }
    if id in a.finished {
      var i := FinishedIndex(a, id);
    }
  }

  lemma ServedOnly(a: Actor, id: nat)
    requires Fifo(a) && a.current == Some(id)
    ensures id !in a.finished
  {
    var k := ServedIndex(a, id);
    if id in a.finished {
      var i := FinishedIndex(a, id);
    }
  }

  lemma SomewhereHanded(a: Actor, id: nat)
    requires Fifo(a) && id in a.handed
    ensures id in a.queue || a.current == Some(id) || id in a.finished
  {
    var k :| 0 <= k < |a.handed| && a.handed[k] == id;
    if k >= |a.started| {
      assert a.queue[k - |a.started|] == id;
    } else {
      StartedAt(a, k);
      if k < |a.finished| { assert a.finished[k] == id; }
    }
  }

  lemma OneStageOnly(a: Actor, id: nat)
    requires Fifo(a) && id in a.handed
    ensures OneStage(a, id)
  {
    SomewhereHanded(a, id);
    if id in a.queue {
      QueuedOnly(a, id);
    } else if a.current == Some(id) {
      ServedOnly(a, id);
    }
  }

  // A row's status only moves from pending to processing to done, in any run with any number of
  // dispatchers.
  function Rank(s: Status): nat {
    match s case Pending => 0 case Processing => 1 case Finished => 2
  }

  lemma {:induction false} StatusOnlyAdvances(st: State, es: seq<Event>, id: nat)
    requires id < |st.rows|
    ensures id < |Run(st, es).rows| && Rank(st.rows[id].status) <= Rank(Run(st, es).rows[id].status)
    decreases |es|
  {
    if es != [] {
      StatusOnlyAdvances(Apply(st, es[0]), es[1..], id);
    }
  }

  // Claimed, whatever became of it.
  predicate Past(rows: seq<Row>, id: nat) {
    id < |rows| && !rows[id].status.Pending?
  }

  // Rows in anybody's hands have been claimed; selected ones at least exist.
  ghost predicate HeldAreClaimed(st: State) {
    && (forall d :: 0 <= d < |st.dispatchers| ==> PhaseRight(st.rows, st.dispatchers[d]))
    && (forall s :: s in st.actors ==> ActorRight(st.rows, st.actors[s]))
  }

  predicate PhaseRight(rows: seq<Row>, p: Phase) {
    match p
    case Idle => true
    case Selected(id) => id < |rows|
    case Claimed(id) => Past(rows, id)
  }

  ghost predicate ActorRight(rows: seq<Row>, a: Actor) {
    (forall id :: id in a.queue ==> Past(rows, id)) && (a.current.Some? ==> Past(rows, a.current.value))
  }

  // Rows stay, and stay claimed.
  ghost predicate RowsGoOn(rows: seq<Row>, rows': seq<Row>) {
    |rows| <= |rows'| && forall id: nat :: Past(rows, id) ==> Past(rows', id)
  }

  lemma StepRowsGoOn(st: State, e: Event)
    ensures RowsGoOn(st.rows, Apply(st, e).rows)
  {
  }

  lemma RightGoesOn(rows: seq<Row>, rows': seq<Row>, p: Phase, a: Actor)
    requires RowsGoOn(rows, rows')
    ensures PhaseRight(rows, p) ==> PhaseRight(rows', p)
    ensures ActorRight(rows, a) ==> ActorRight(rows', a)
  {
  }

  lemma PhasesStayRight(st: State, e: Event)
    requires HeldAreClaimed(st)
    ensures forall d :: 0 <= d < |Apply(st, e).dispatchers| ==> PhaseRight(Apply(st, e).rows, Apply(st, e).dispatchers[d])
  {
    var st' := Apply(st, e);
    StepRowsGoOn(st, e);
    forall d | 0 <= d < |st'.dispatchers|
      ensures PhaseRight(st'.rows, st'.dispatchers[d])
    {
      if d < |st.dispatchers| { RightGoesOn(st.rows, st'.rows, st.dispatchers[d], NewActor); }
    }
  }

  lemma ActorsStayRight(st: State, e: Event)
    requires HeldAreClaimed(st)
    ensures forall s :: s in Apply(st, e).actors ==> ActorRight(Apply(st, e).rows, Apply(st, e).actors[s])
  {
    var st' := Apply(st, e);
    StepRowsGoOn(st, e);
    forall s | s in st'.actors
      ensures ActorRight(st'.rows, st'.actors[s])
    {
      var a := ActorOf(st, s);
      RightGoesOn(st.rows, st'.rows, Idle, a);
      if e.Submit? && st' != st { assert PhaseRight(st.rows, st.dispatchers[e.d]); }
    }
  }

  lemma {:induction false} RunHeldAreClaimed(st: State, es: seq<Event>)
    requires HeldAreClaimed(st)
    ensures HeldAreClaimed(Run(st, es))
    decreases |es|
  {
    if es != [] {
      PhasesStayRight(st, es[0]);
      ActorsStayRight(st, es[0]);
      RunHeldAreClaimed(Apply(st, es[0]), es[1..]);
    }
  }

  // In every reachable state, with any number of dispatchers, a step leaves a row's status alone, or
  // claims a pending row, or finishes one being processed; no row goes from pending straight to done.
  lemma StatusMovesOneStep(n: nat, es: seq<Event>, e: Event, id: nat)
    requires id < |Run(Init(n), es).rows|
    ensures id < |Apply(Run(Init(n), es), e).rows|
    ensures var a, b := Run(Init(n), es).rows[id].status, Apply(Run(Init(n), es), e).rows[id].status;
            || b == a
            || (e.Claim? && a.Pending? && b.Processing?)
            || (e.Finish? && a.Processing? && b.Finished?)
  {
    var st := Run(Init(n), es);
    RunHeldAreClaimed(Init(n), es);
    if e.Finish? && e.s in st.actors { assert ActorRight(st.rows, st.actors[e.s]); }
  }

  // An actor that has timed out stays registered and is never started again: whatever is handed to
  // its session from then on is never worked on.
  lemma {:induction false} TimedOutSessionIsStuck(st: State, es: seq<Event>, s: string)
    requires NoRestart(es) && s in st.actors && !st.actors[s].alive && st.actors[s].current.None?
    ensures s in Run(st, es).actors
    ensures var a := Run(st, es).actors[s];
            !a.alive && a.started == st.actors[s].started && a.current.None? && st.actors[s].queue <= a.queue
    decreases |es|
  {
    if es != [] {
      TimedOutSessionIsStuck(Apply(st, es[0]), es[1..], s);
    }
  }

  // A claimed row that no dispatcher and no session holds, as a restart leaves it.
  ghost predicate Abandoned(st: State, id: nat) {
    && id < |st.rows| && !st.rows[id].status.Pending?
    && (forall d :: 0 <= d < |st.dispatchers| ==> st.dispatchers[d] != Selected(id) && st.dispatchers[d] != Claimed(id))
    && (forall s :: s in st.actors ==> id !in st.actors[s].queue && id !in st.actors[s].handed && st.actors[s].current != Some(id))
  }

  // A restart abandons exactly the rows that were no longer pending, whether worked through or not.
  lemma RestartAbandonsClaimed(st: State, id: nat)
    requires id < |st.rows|
    ensures Abandoned(Apply(st, Restart), id) <==> !st.rows[id].status.Pending?
  {
  }

  lemma {:induction false} FirstPendingIsPending(rows: seq<Row>, k: nat)
    requires FirstPending(rows, k) < |rows|
    ensures rows[FirstPending(rows, k)].status.Pending?
    decreases |rows| - k
  {
    if !rows[k].status.Pending? { FirstPendingIsPending(rows, k + 1); }
  }

  // And an abandoned row is never handed to anyone again and keeps its status for ever: an event
  // that was waiting or in progress when the process died is neither repeated nor completed.
  lemma {:induction false} AbandonedForGood(st: State, es: seq<Event>, id: nat)
    requires Abandoned(st, id)
    ensures Abandoned(Run(st, es), id) && Run(st, es).rows[id] == st.rows[id]
    decreases |es|
  {
    if es != [] {
      AbandonedStays(st, es[0], id);
      AbandonedForGood(Apply(st, es[0]), es[1..], id);
    }
  }

  lemma AbandonedStays(st: State, e: Event, id: nat)
    requires Abandoned(st, id)
    ensures Abandoned(Apply(st, e), id) && Apply(st, e).rows[id] == st.rows[id]
  {
    if e.Select? && FirstPending(st.rows, 0) < |st.rows| { FirstPendingIsPending(st.rows, 0); }
    if e.Start? && Apply(st, e) != st { assert st.actors[e.s].queue[0] in st.actors[e.s].queue; }
  }

  // ---------------------------------------------------------------------------------------------
  // Each session refines one sequential server
  // ---------------------------------------------------------------------------------------------

  datatype Server = Server(backlog: seq<nat>, serving: Option<nat>, served: seq<nat>)

  ghost predicate ServerStep(a: Server, b: Server) {
    || b == a
    || (exists id :: b == a.(backlog := a.backlog + [id]))
    || (a.serving.None? && a.backlog != [] && b == a.(backlog := a.backlog[1..], serving := Some(a.backlog[0])))
    || (a.serving.Some? && b == a.(serving := None, served := a.served + [a.serving.value]))
  }

  function ServerOf(st: State, s: string): Server {
    var a := ActorOf(st, s);
    Server(a.queue, a.current, a.finished)
  }

  // Every step of the whole system, of any session and any dispatcher, is for each session a step
  // of a server that queues, serves one event at a time, and completes it.
  lemma EveryStepIsAServerStep(st: State, e: Event, s: string)
    requires !e.Restart?
    ensures ServerStep(ServerOf(st, s), ServerOf(Apply(st, e), s))
  {
  }

  // The states a session's server goes through.
  function Trace(st: State, es: seq<Event>, s: string): (r: seq<Server>)
    ensures |r| == |es| + 1
    decreases |es|
  {
    [ServerOf(st, s)] + if es == [] then [] else Trace(Apply(st, es[0]), es[1..], s)
  }

  lemma {:induction false} RunsRefineServers(st: State, es: seq<Event>, s: string)
    requires NoRestart(es)
    ensures var t := Trace(st, es, s);
            && t[0] == ServerOf(st, s) && t[|es|] == ServerOf(Run(st, es), s)
            && forall k :: 0 <= k < |es| ==> ServerStep(t[k], t[k + 1])
    decreases |es|
  {
    if es != [] {
      RunsRefineServers(Apply(st, es[0]), es[1..], s);
      EveryStepIsAServerStep(st, es[0], s);
      var t, t' := Trace(st, es, s), Trace(Apply(st, es[0]), es[1..], s);
      forall k | 0 <= k < |es|
        ensures ServerStep(t[k], t[k + 1])
      {
        if k > 0 { assert ServerStep(t'[k - 1], t'[k - 1 + 1]); }
      }
    }
  }
}
