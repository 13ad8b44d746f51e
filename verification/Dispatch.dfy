// How often a row of the event queue is handed to an actor (core/event_bus.py,
// core/session_manager.py): at most once over any run, restarts included, exactly when there is a
// single dispatcher.
module Dispatch {
  import opened EventQueue
  import opened Text
  import opened Wrappers

  // No row is handed to an actor a second time.
  ghost predicate HandedOnce(st: State) {
    forall s, t, i, j | s in st.actors && t in st.actors && 0 <= i < |st.actors[s].handed| && 0 <= j < |st.actors[t].handed|
                        && st.actors[s].handed[i] == st.actors[t].handed[j] :: s == t && i == j
  }

  lemma EachLifeHandsOnce(es: seq<Event>)
    ensures HandedOnce(Run(Init(1), es))
  {
    var b, n := RunKeepsInv(Init(1), 0, 0, es);
    var st := Run(Init(1), es);
    forall s, t, i, j | s in st.actors && t in st.actors && 0 <= i < |st.actors[s].handed| && 0 <= j < |st.actors[t].handed|
                        && st.actors[s].handed[i] == st.actors[t].handed[j]
      ensures s == t && i == j
    {
      assert With(st.actors, s, st.actors[s].handed[i]) && With(st.actors, t, st.actors[t].handed[j]);
      assert Fifo(st.actors[s]);
    }
  }

  // 1 if the step hands row id to an actor.
  function HandsOut(st: State, e: Event, id: nat): nat {
    if e.Submit? && e.d < |st.dispatchers| && st.dispatchers[e.d] == Claimed(id) && id < |st.rows| then 1 else 0
  }

  // That is when the row is put at the end of what its session has been handed; nothing else changes
  // what a session has been handed.
  lemma HandsOutExactly(st: State, e: Event, s: string)
    requires !e.Restart?
    ensures var was, now := ActorOf(st, s).handed, ActorOf(Apply(st, e), s).handed;
            if e.Submit? && e.d < |st.dispatchers| && st.dispatchers[e.d].Claimed?
               && HandsOut(st, e, st.dispatchers[e.d].id) == 1
               && s == SessionOf(st.rows[st.dispatchers[e.d].id], e.nonce)
            then now == was + [st.dispatchers[e.d].id]
            else now == was
  {
  }

  // How often a run hands row id to an actor, restarts included.
  function Handings(st: State, es: seq<Event>, id: nat): nat
    decreases |es|
  {
    if es == [] then 0 else HandsOut(st, es[0], id) + Handings(Apply(st, es[0]), es[1..], id)
  }

  lemma {:induction false} HandedBefore(st: State, b: nat, n: nat, es: seq<Event>, id: nat)
    requires Inv(st, b, n)
    ensures Handings(st, es, id) <= if id < Handed(st, n) then 0 else 1
    decreases |es|
  {
    if es != [] {
      var b', n' := StepKeepsInv(st, b, n, es[0]);
      HandedBefore(Apply(st, es[0]), b', n', es[1..], id);
    }
  }

  // Over a whole run, however often the process dies and starts again, one dispatcher hands every row
  // to an actor at most once.
  lemma SingleDispatcherHandsOnce(es: seq<Event>, id: nat)
    ensures Handings(Init(1), es, id) <= 1
    ensures HandedOnce(Run(Init(1), es))
  {
    HandedBefore(Init(1), 0, 0, es, id);
    EachLifeHandsOnce(es);
  }

  // From this state some run hands row 0 out k times and ends with it handed twice.
  ghost predicate CanHandTwice(st: State, k: nat) {
    exists es :: Handings(st, es, 0) == k && !HandedOnce(Run(st, es))
  }

  lemma AlreadyTwice(st: State)
    requires !HandedOnce(st)
    ensures CanHandTwice(st, 0)
  {
    assert Run(st, []) == st && Handings(st, [], 0) == 0;
  }

  lemma StepBefore(st: State, e: Event, k: nat)
    requires CanHandTwice(Apply(st, e), k)
    ensures CanHandTwice(st, k + HandsOut(st, e, 0))
  {
    var es :| Handings(Apply(st, e), es, 0) == k && !HandedOnce(Run(Apply(st, e), es));
    var all := [e] + es;
    assert all[1..] == es;
    assert Handings(st, all, 0) == k + HandsOut(st, e, 0) && Run(st, all) == Run(Apply(st, e), es);
  }

  // With a second dispatcher the guarantee is gone: both select the same row, and the one whose
  // UPDATE touches no row submits it all the same.
  lemma TwoDispatchersHandTwice(n: nat)
    requires n >= 2
    ensures CanHandTwice(Init(n), 2)
  {
    var insert := Insert("cli", Some("s"), None);
    var row, st := Row("cli", Some("s"), None, Pending), Apply(Init(n), insert);
    assert st.rows == [row];
    SelectTwice(st, row);
    BothSubmit(st.(dispatchers := st.dispatchers[0 := Selected(0)][1 := Selected(0)]), row);
    StepBefore(Apply(st, Select(0)), Select(1), 2);
    StepBefore(st, Select(0), 2);
    StepBefore(Init(n), insert, 2);
  }

  lemma SelectTwice(st: State, row: Row)
    requires st.rows == [row] && row.status.Pending? && |st.dispatchers| >= 2
    requires st.dispatchers[0].Idle? && st.dispatchers[1].Idle?
    ensures Apply(Apply(st, Select(0)), Select(1)) == st.(dispatchers := st.dispatchers[0 := Selected(0)][1 := Selected(0)])
  {
  }

  lemma ClaimTwice(st: State, row: Row)
    requires st.rows == [row] && row.status.Pending? && |st.dispatchers| >= 2
    requires st.dispatchers[0] == Selected(0) && st.dispatchers[1] == Selected(0)
    ensures Apply(Apply(st, Claim(0)), Claim(1))
            == State([row.(status := Processing)], st.dispatchers[0 := Claimed(0)][1 := Claimed(0)], st.actors)
  {
  }

  lemma SubmitOne(st: State, d: nat, row: Row)
    requires st.rows == [row] && d < |st.dispatchers| && st.dispatchers[d] == Claimed(0)
    ensures Apply(st, Submit(d, ""))
            == State(st.rows, st.dispatchers[d := Idle],
                     st.actors[SessionOf(row, "") := Hand(ActorOf(st, SessionOf(row, "")), 0)])
  {
  }

  lemma HandedTwice(st: State, s: string)
    requires s in st.actors && st.actors[s].handed == [0, 0]
    ensures !HandedOnce(st)
  {
    var h := st.actors[s].handed;
    assert h[0] == h[1];
  }

  lemma SubmitTwice(st: State, row: Row)
    requires st.rows == [row] && |st.dispatchers| >= 2 && st.actors == map[]
    requires st.dispatchers[0] == Claimed(0) && st.dispatchers[1] == Claimed(0)
    ensures !HandedOnce(Apply(Apply(st, Submit(0, "")), Submit(1, "")))
    ensures HandsOut(st, Submit(0, ""), 0) == 1 && HandsOut(Apply(st, Submit(0, "")), Submit(1, ""), 0) == 1
  {
    SubmitOne(st, 0, row);
    var c := Apply(st, Submit(0, ""));
    SubmitOne(c, 1, row);
    assert ActorOf(c, SessionOf(row, "")) == Hand(NewActor, 0);
    assert [] + [0] + [0] == [0, 0];
    HandedTwice(Apply(c, Submit(1, "")), SessionOf(row, ""));
  }

  lemma BothSubmit(st: State, row: Row)
    requires st.rows == [row] && row.status.Pending? && |st.dispatchers| >= 2
    requires st.dispatchers[0] == Selected(0) && st.dispatchers[1] == Selected(0) && st.actors == map[]
    ensures CanHandTwice(st, 2)
  {
    var one := Apply(st, Claim(0));
    var both := Apply(one, Claim(1));
    ClaimTwice(st, row);
    SubmitTwice(both, row.(status := Processing));
    AlreadyTwice(Apply(Apply(both, Submit(0, "")), Submit(1, "")));
    StepBefore(Apply(both, Submit(0, "")), Submit(1, ""), 0);
    StepBefore(both, Submit(0, ""), 1);
    StepBefore(one, Claim(1), 2);
    StepBefore(st, Claim(0), 2);
  }

  // At most once over all runs, restarts included, exactly for a single dispatcher.
  lemma HandedOnceIffOneDispatcher(n: nat)
    requires n >= 1
    ensures (forall es, id :: Handings(Init(n), es, id) <= 1) <==> n == 1
  {
    if n == 1 {
      forall es, id
        ensures Handings(Init(n), es, id) <= 1
      {
        SingleDispatcherHandsOnce(es, id);
      }
    } else {
      TwoDispatchersHandTwice(n);
      var es :| Handings(Init(n), es, 0) == 2 && !HandedOnce(Run(Init(n), es));
      var first := 0;
      assert !(Handings(Init(n), es, first) <= 1);
    }
  }
}
