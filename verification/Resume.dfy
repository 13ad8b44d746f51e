// Resuming a workflow amounts to running it once (core/workflow_engine.py).
//
// Histories of run, resume and inject calls are compared with one uninterrupted run, in which every
// human decision is put into the context just before the node that waited for it.
module Resume {
  import opened Workflow
  import opened Wrappers
  import T = Topology

  // ---------------------------------------------------------------------------------------------
  // The uninterrupted run, as a reference
  // ---------------------------------------------------------------------------------------------

  // The context just before the k-th node of an uninterrupted run, into which the human decision
  // `inj[k]`, if any, is put just before that node.
  function Reference(nodes: Nodes, order: seq<Id>, init: Context, inj: map<nat, Value>, k: nat): Context
    requires k <= |order|
  {
    var c := if k == 0 then init
             else
               var p := Reference(nodes, order, init, inj, k - 1);
               p + Updates(nodes, order[k - 1], p);
    if k in inj then c[HUMAN_DECISION := inj[k]] else c
  }

  ghost predicate JsonNodes(nodes: Nodes) {
    forall n, c :: n in nodes && JsonContext(c) ==> JsonContext(nodes[n](c))
  }

  ghost predicate JsonChoices(inj: map<nat, Value>) {
    forall k :: k in inj ==> IsJson(inj[k])
  }

  lemma {:induction false} ReferenceIsJson(nodes: Nodes, order: seq<Id>, init: Context, inj: map<nat, Value>, k: nat)
    requires k <= |order| && JsonNodes(nodes) && JsonChoices(inj) && JsonContext(init)
    ensures JsonContext(Reference(nodes, order, init, inj, k))
  {
    if k > 0 {
      ReferenceIsJson(nodes, order, init, inj, k - 1);
      var p := Reference(nodes, order, init, inj, k - 1);
      assert JsonContext(Updates(nodes, order[k - 1], p));
    }
  }

  lemma {:induction false} ReferenceKeepsKeys(nodes: Nodes, order: seq<Id>, init: Context, inj: map<nat, Value>, k: nat)
    requires k <= |order|
    ensures init.Keys <= Reference(nodes, order, init, inj, k).Keys
  {
    if k > 0 { ReferenceKeepsKeys(nodes, order, init, inj, k - 1); }
  }

  // A decision at node k changes nothing before it and replaces an earlier decision for that node.
  lemma {:induction false} ReferenceDecided(nodes: Nodes, order: seq<Id>, init: Context, inj: map<nat, Value>, k: nat, v: Value, j: nat)
    requires j <= k <= |order|
    ensures j < k ==> Reference(nodes, order, init, inj[k := v], j) == Reference(nodes, order, init, inj, j)
    ensures j == k ==> Reference(nodes, order, init, inj[k := v], j)
                       == Reference(nodes, order, init, inj, j)[HUMAN_DECISION := v]
  {
    if j > 0 { ReferenceDecided(nodes, order, init, inj, k, v, j - 1); }
  }

  // ---------------------------------------------------------------------------------------------
  // Histories of calls
  // ---------------------------------------------------------------------------------------------

  // What a workflow is: its id, its nodes and its order, with the initial context of the first run.
  datatype Flow = Flow(id: Id, nodes: Nodes, order: seq<Id>, init: Context) {
    function At(inj: map<nat, Value>, k: nat): Context
      requires k <= |order|
    {
      Reference(nodes, order, init, inj, k)
    }

    ghost predicate WellBehaved() {
      && T.NoDup(order) && "" !in order
      && JsonNodes(nodes) && JsonContext(init)
    }
  }

  // The saved record stands at node k: the nodes before it are completed, the context is the
  // reference context, and the next run resumes at node k.
  ghost predicate FrozenAt(f: Flow, inj: map<nat, Value>, store: Store, k: nat) {
    && k < |f.order| && f.id in store
    && store[f.id].completed == f.order[..k]
    && store[f.id].state == f.At(inj, k)
    && (|| (store[f.id].failedAt == Some(f.order[k]) && store[f.id].suspendedAt == None)
        || (store[f.id].failedAt == None && store[f.id].suspendedAt == Some(f.order[k])))
    && (forall j :: j in inj ==> j <= k)
  }

  // Attempts end in success, failure or suspension, and callbacks do not raise; the process may die
  // only before the first node of the call, the one at `from`.
  ghost predicate Ordinary(order: seq<Id>, verdict: Id -> Verdict, from: nat) {
    forall i :: from <= i < |order| ==> !verdict(order[i]).CallbackRaises? && (verdict(order[i]).Killed? ==> i == from)
  }

  ghost predicate FollowsReference(f: Flow, inj: map<nat, Value>, from: nat, call: Call)
    requires from <= |f.order|
  {
    match call.outcome
    case Done(c) => c == f.At(inj, |f.order|) && f.id !in call.store && call.ran == f.order[from..]
    case _ => exists k: nat :: from <= k < |f.order| && FrozenAt(f, inj, call.store, k) && call.ran == f.order[from..k]
  }

  lemma InterruptedIsFrozen(f: Flow, inj: map<nat, Value>, k: nat, store: Store)
    requires f.WellBehaved() && JsonChoices(inj) && k < |f.order| && forall j :: j in inj ==> j <= k
    ensures FrozenAt(f, inj, store[f.id := FailureRecord(f.order[..k], f.At(inj, k), f.order[k])], k)
    ensures FrozenAt(f, inj, store[f.id := SuspensionRecord(f.order[..k], f.At(inj, k), f.order[k])], k)
  {
    assert f.order[k] in f.order;
    ReferenceIsJson(f.nodes, f.order, f.init, inj, k);
    SanitizeAllFaithful(f.At(inj, k));
  }

  lemma Grow(order: seq<Id>, from: nat, k: nat)
    requires from <= k < |order|
    ensures order[from..k] + [order[k]] == order[from..k + 1]
    ensures order[k..][0] == order[k] && order[k..][1..] == order[k + 1..]
  {
  }

  // A run from the k-th node on, in the reference context.
  function RunFrom(f: Flow, inj: map<nat, Value>, verdict: Id -> Verdict, from: nat, k: nat, store: Store): Call
    requires from <= k <= |f.order|
  {
    RunNodes(f.id, f.id, f.nodes, verdict, f.order[k..], f.At(inj, k), f.order[..k], store, f.order[from..k])
  }

  lemma NodeSucceeds(f: Flow, inj: map<nat, Value>, verdict: Id -> Verdict, from: nat, k: nat, store: Store)
    requires from <= k < |f.order| && verdict(f.order[k]).Succeeds? && forall j :: j in inj ==> j <= k
    ensures RunFrom(f, inj, verdict, from, k, store)
            == RunFrom(f, inj, verdict, from, k + 1, store[f.id := ProgressRecord(f.order[..k + 1], f.At(inj, k + 1))])
  {
    Grow(f.order, from, k);
    Grow(f.order, 0, k);
    assert f.At(inj, k + 1) == f.At(inj, k) + Updates(f.nodes, f.order[k], f.At(inj, k));
  }

  lemma NodeInterrupts(f: Flow, inj: map<nat, Value>, verdict: Id -> Verdict, from: nat, k: nat, store: Store)
    requires f.WellBehaved() && JsonChoices(inj) && forall j :: j in inj ==> j <= k
    requires from <= k < |f.order| && (verdict(f.order[k]).Suspends? || verdict(f.order[k]).Fails?)
    ensures FollowsReference(f, inj, from, RunFrom(f, inj, verdict, from, k, store))
  {
    Grow(f.order, from, k);
    InterruptedIsFrozen(f, inj, k, store);
  }

  lemma {:induction false} NodesFollowReference(f: Flow, inj: map<nat, Value>, verdict: Id -> Verdict, from: nat, k: nat, store: Store)
    requires f.WellBehaved() && JsonChoices(inj) && Ordinary(f.order, verdict, from)
    requires from <= k <= |f.order| && forall j :: j in inj ==> j <= k
    requires k < |f.order| ==> !verdict(f.order[k]).Killed?
    ensures FollowsReference(f, inj, from, RunFrom(f, inj, verdict, from, k, store))
    decreases |f.order| - k
  {
    if k == |f.order| {
      assert f.order[from..k] == f.order[from..];
    } else {
      var n := f.order[k];
      assert verdict(n) != CallbackRaises;
      if verdict(n).Succeeds? {
        NodeSucceeds(f, inj, verdict, from, k, store);
        NodesFollowReference(f, inj, verdict, from, k + 1,
                             store[f.id := ProgressRecord(f.order[..k + 1], f.At(inj, k + 1))]);
      } else {
        NodeInterrupts(f, inj, verdict, from, k, store);
      }
    }
  }

  lemma {:induction false} IndexOfNode(order: seq<Id>, k: nat)
    requires T.NoDup(order) && k < |order|
    ensures IndexOf(order, order[k]) == k
  {
  }

  // Whatever initial context the next call brings along, it starts from the frozen one.
  lemma ResumeStarts(f: Flow, inj: map<nat, Value>, store: Store, k: nat, c0: Context)
    requires f.WellBehaved() && FrozenAt(f, inj, store, k) && c0.Keys <= f.init.Keys
    ensures StartOf(store, f.id, f.order, c0) == (f.At(inj, k), f.order[..k], k)
  {
    IndexOfNode(f.order, k);
    assert f.order[k] in f.order && f.order[k] != "";
    ReferenceKeepsKeys(f.nodes, f.order, f.init, inj, k);
    assert c0 + f.At(inj, k) == f.At(inj, k);
  }

  lemma ResumeFollowsReference(f: Flow, inj: map<nat, Value>, verdict: Id -> Verdict, store: Store, k: nat, c0: Context)
    requires f.WellBehaved() && JsonChoices(inj) && Ordinary(f.order, verdict, k)
    requires FrozenAt(f, inj, store, k) && c0.Keys <= f.init.Keys
    ensures FollowsReference(f, inj, k, Run(f.id, f.id, f.nodes, f.order, verdict, store, c0))
  {
    ResumeStarts(f, inj, store, k, c0);
    assert f.order[k..k] == [] && f.order[k..][0] == f.order[k];
    if !verdict(f.order[k]).Killed? {
      NodesFollowReference(f, inj, verdict, k, k, store);
    }
  }

  // `Again` is run() or resume(); `Decide` is inject_human_decision_and_resume().
  datatype Request = Again(c0: Context, verdict: Id -> Verdict) | Decide(choice: Value, verdict: Id -> Verdict)

  // All that happened so far: the store, the nodes executed successfully over all calls, the
  // decisions by position, and the result once a call has completed the workflow.
  datatype Progress = Progress(store: Store, ran: seq<Id>, inj: map<nat, Value>, result: Option<Context>)

  function Perform(f: Flow, p: Progress, q: Request): Progress {
    if p.result.Some? then p
    else
      match q
      case Again(c0, verdict) => Account(p, p.inj, Run(f.id, f.id, f.nodes, f.order, verdict, p.store, c0))
      case Decide(choice, verdict) =>
        var inj := if f.id in p.store && p.store[f.id].suspendedAt.Some? && Storable(choice)
                   then p.inj[IndexOf(f.order, p.store[f.id].suspendedAt.value) := Sanitize(choice)] else p.inj;
        Account(p, inj, Inject(f.id, f.id, f.nodes, f.order, verdict, p.store, choice))
  }

  function Account(p: Progress, inj: map<nat, Value>, call: Call): Progress {
    Progress(call.store, p.ran + call.ran, inj, if call.outcome.Done? then Some(call.outcome.context) else None)
  }

  function PerformAll(f: Flow, p: Progress, qs: seq<Request>): Progress
    decreases |qs|
  {
    if qs == [] then p else PerformAll(f, Perform(f, p, qs[0]), qs[1..])
  }

  // The index of the node a call begins with.
  function FirstNode(f: Flow, store: Store): nat { StartOf(store, f.id, f.order, map[]).2 }

  // No record of this workflow asks for a human or tells of a failure: the next run begins anew.
  predicate Unbegun(f: Flow, store: Store) {
    f.id in store ==> store[f.id].failedAt.None? && store[f.id].suspendedAt.None?
  }

  // A run that begins anew gets the initial context; a later one brings no new keys along.
  ghost predicate Admissible(f: Flow, p: Progress, q: Request) {
    && Ordinary(f.order, q.verdict, FirstNode(f, p.store))
    && (q.Again? ==> if Unbegun(f, p.store) then q.c0 == f.init else q.c0.Keys <= f.init.Keys)
  }

  ghost predicate AllAdmissible(f: Flow, p: Progress, qs: seq<Request>)
    decreases |qs|
  {
    qs == [] ||
    ((p.result.None? ==> Admissible(f, p, qs[0])) && AllAdmissible(f, Perform(f, p, qs[0]), qs[1..]))
  }

  // Finished with the reference result, every node executed exactly once, in order, and no record
  // left; or not begun, nothing executed; or frozen at some node with exactly the nodes before it
  // executed, once each.
  ghost predicate OnTrack(f: Flow, p: Progress) {
    && JsonChoices(p.inj)
    && (p.result.Some? ==>
          && p.result.value == f.At(p.inj, |f.order|)
          && p.ran == f.order && (f.order != [] ==> f.id !in p.store))
    && (p.result.None? ==>
          || (Unbegun(f, p.store) && p.ran == [] && p.inj == map[])
          || exists k: nat :: FrozenAt(f, p.inj, p.store, k) && p.ran == f.order[..k])
  }

  lemma AccountOnTrack(f: Flow, p: Progress, inj: map<nat, Value>, from: nat, call: Call)
    requires from <= |f.order| && p.ran == f.order[..from] && JsonChoices(inj)
    requires FollowsReference(f, inj, from, call)
    ensures OnTrack(f, Account(p, inj, call))
  {
    if call.outcome.Done? {
      SliceJoin(f.order, from, |f.order|);
    } else {
      var k: nat :| from <= k < |f.order| && FrozenAt(f, inj, call.store, k) && call.ran == f.order[from..k];
      SliceJoin(f.order, from, k);
      FrozenIsOnTrack(f, Account(p, inj, call), k);
    }
  }

  lemma SliceJoin(order: seq<Id>, a: nat, b: nat)
    requires a <= b <= |order|
    ensures order[..a] + order[a..b] == order[..b]
    ensures b == |order| ==> order[..a] + order[a..] == order
  {
  }

  lemma FrozenIsOnTrack(f: Flow, p: Progress, k: nat)
    requires p.result.None? && JsonChoices(p.inj) && FrozenAt(f, p.inj, p.store, k) && p.ran == f.order[..k]
    ensures OnTrack(f, p)
  {
  }

  // A run without a failed or suspended record starts at the first node.
  lemma FreshRun(f: Flow, store: Store, verdict: Id -> Verdict)
    requires Unbegun(f, store) && f.order != []
    ensures Run(f.id, f.id, f.nodes, f.order, verdict, store, f.init) == RunFrom(f, map[], verdict, 0, 0, store)
    ensures FirstNode(f, store) == 0
  {
    assert f.order[0..] == f.order && f.order[..0] == [] && f.order[0..0] == [];
  }

  lemma FirstRunOnTrack(f: Flow, p: Progress, verdict: Id -> Verdict)
    requires f.WellBehaved() && Unbegun(f, p.store) && p.ran == [] && p.inj == map[] && p.result.None?
    requires Ordinary(f.order, verdict, 0)
    ensures OnTrack(f, Perform(f, p, Again(f.init, verdict)))
  {
    if f.order == [] {
      assert f.At(map[], |f.order|) == f.init;
    } else {
      FreshRun(f, p.store, verdict);
      if !verdict(f.order[0]).Killed? {
        NodesFollowReference(f, map[], verdict, 0, 0, p.store);
        AccountOnTrack(f, p, map[], 0, Run(f.id, f.id, f.nodes, f.order, verdict, p.store, f.init));
      } else {
        assert p.ran + [] == p.ran;
      }
    }
  }

  lemma DecidedIsFrozen(f: Flow, inj: map<nat, Value>, store: Store, k: nat, choice: Value)
    requires f.WellBehaved() && FrozenAt(f, inj, store, k) && store[f.id].suspendedAt.Some?
    ensures FrozenAt(f, inj[k := choice], store[f.id := Decided(store[f.id], choice)], k)
  {
    ReferenceDecided(f.nodes, f.order, f.init, inj, k, choice, k);
  }

  lemma FrozenStart(f: Flow, inj: map<nat, Value>, store: Store, k: nat)
    requires f.WellBehaved() && FrozenAt(f, inj, store, k)
    ensures FirstNode(f, store) == k && !Unbegun(f, store)
  {
    ResumeStarts(f, inj, store, k, map[]);
  }

  lemma AgainKeepsOnTrack(f: Flow, p: Progress, k: nat, c0: Context, verdict: Id -> Verdict)
    requires f.WellBehaved() && JsonChoices(p.inj) && Ordinary(f.order, verdict, k) && c0.Keys <= f.init.Keys
    requires p.result.None? && FrozenAt(f, p.inj, p.store, k) && p.ran == f.order[..k]
    ensures OnTrack(f, Perform(f, p, Again(c0, verdict)))
  {
    ResumeFollowsReference(f, p.inj, verdict, p.store, k, c0);
    AccountOnTrack(f, p, p.inj, k, Run(f.id, f.id, f.nodes, f.order, verdict, p.store, c0));
  }

  lemma DecideKeepsOnTrack(f: Flow, p: Progress, k: nat, choice: Value, verdict: Id -> Verdict)
    requires f.WellBehaved() && JsonChoices(p.inj) && Ordinary(f.order, verdict, k)
    requires p.result.None? && FrozenAt(f, p.inj, p.store, k) && p.ran == f.order[..k]
    ensures OnTrack(f, Perform(f, p, Decide(choice, verdict)))
  {
    if p.store[f.id].suspendedAt.None? {
      assert p.ran + [] == p.ran;
    } else if Storable(choice) {
      DecisionKeepsOnTrack(f, p, k, choice, verdict);
    } else {
      ResumeFollowsReference(f, p.inj, verdict, p.store, k, map[]);
      AccountOnTrack(f, p, p.inj, k, Run(f.id, f.id, f.nodes, f.order, verdict, p.store, map[]));
    }
  }

  lemma DecisionKeepsOnTrack(f: Flow, p: Progress, k: nat, choice: Value, verdict: Id -> Verdict)
    requires f.WellBehaved() && JsonChoices(p.inj) && Ordinary(f.order, verdict, k) && Storable(choice)
    requires p.result.None? && FrozenAt(f, p.inj, p.store, k) && p.ran == f.order[..k]
    requires p.store[f.id].suspendedAt.Some?
    ensures OnTrack(f, Perform(f, p, Decide(choice, verdict)))
  {
    var v := Sanitize(choice);
    var inj, store := p.inj[k := v], p.store[f.id := Decided(p.store[f.id], v)];
    IndexOfNode(f.order, k);
    SanitizeFaithful(choice);
    DecidedIsFrozen(f, p.inj, p.store, k, v);
    ResumeFollowsReference(f, inj, verdict, store, k, map[]);
    AccountOnTrack(f, p, inj, k, Run(f.id, f.id, f.nodes, f.order, verdict, store, map[]));
  }

  lemma UnbegunKeepsOnTrack(f: Flow, p: Progress, q: Request)
    requires f.WellBehaved() && Unbegun(f, p.store) && p.ran == [] && p.inj == map[] && p.result.None?
    requires Admissible(f, p, q)
    ensures OnTrack(f, Perform(f, p, q))
  {
    match q
    case Again(c0, verdict) => FirstRunOnTrack(f, p, verdict);
    case Decide(choice, verdict) => assert p.ran + [] == p.ran;
  }

  lemma PerformKeepsOnTrack(f: Flow, p: Progress, q: Request)
    requires f.WellBehaved() && OnTrack(f, p) && (p.result.None? ==> Admissible(f, p, q))
    ensures OnTrack(f, Perform(f, p, q))
  {
    if p.result.None? {
      if k: nat :| FrozenAt(f, p.inj, p.store, k) && p.ran == f.order[..k] {
        FrozenStart(f, p.inj, p.store, k);
        match q
        case Again(c0, verdict) => AgainKeepsOnTrack(f, p, k, c0, verdict);
        case Decide(choice, verdict) => DecideKeepsOnTrack(f, p, k, choice, verdict);
      } else {
        UnbegunKeepsOnTrack(f, p, q);
      }
    }
  }

  lemma {:induction false} PerformAllKeepsOnTrack(f: Flow, p: Progress, qs: seq<Request>)
    requires f.WellBehaved() && OnTrack(f, p) && AllAdmissible(f, p, qs)
    ensures OnTrack(f, PerformAll(f, p, qs))
    decreases |qs|
  {
    if qs != [] {
      PerformKeepsOnTrack(f, p, qs[0]);
      PerformAllKeepsOnTrack(f, Perform(f, p, qs[0]), qs[1..]);
    }
  }

  function Start(store: Store): Progress { Progress(store, [], map[], None) }

  // Main result: however often the runs fail, are suspended, or die before their first node, and
  // whatever decisions are injected, the workflow ends in the context of one uninterrupted run with
  // the decisions (as JSON keeps them) put in just before their nodes; no node succeeds twice or out
  // of order on the way.
  lemma ResumesAmountToOneRun(g: T.Graph, f: Flow, store: Store, qs: seq<Request>)
    requires g.Valid() && f.order == T.Order(g) && f.WellBehaved()
    requires Unbegun(f, store) && AllAdmissible(f, Start(store), qs)
    ensures OnTrack(f, PerformAll(f, Start(store), qs))
  {
    PerformAllKeepsOnTrack(f, Start(store), qs);
  }

  // ---------------------------------------------------------------------------------------------
  // The contexts the nodes are given
  // ---------------------------------------------------------------------------------------------

  // The k-th node is given cs[k], and what it returns is merged into that; cs[|order|] is the result.
  ghost predicate Contexts(nodes: Nodes, order: seq<Id>, init: Context, cs: seq<Context>) {
    && |cs| == |order| + 1 && cs[0] == init
    && forall k :: 0 <= k < |order| ==>
         cs[k + 1] == if order[k] in nodes then cs[k] + nodes[order[k]](cs[k]) else cs[k]
  }

  // Main result on a single call: when every attempt succeeds, each node is given the running context
  // and the outcome is the last one; every node is executed once, in order.  Whatever is stored, under
  // whatever id, unless a failed or suspended record asks for a resume.
  lemma UninterruptedRun(self: Id, wid: Id, nodes: Nodes, order: seq<Id>, verdict: Id -> Verdict, store: Store, init: Context)
    returns (cs: seq<Context>)
    requires wid in store ==> !Truthy(store[wid].failedAt) && !Truthy(store[wid].suspendedAt)
    requires forall n :: n in order ==> verdict(n).Succeeds?
    ensures Contexts(nodes, order, init, cs)
    ensures var call := Run(self, wid, nodes, order, verdict, store, init);
            call.outcome == Done(cs[|order|]) && call.ran == order
  {
    cs := SuccessesFinish(self, wid, nodes, verdict, order, init, [], store, []);
    assert order[0..] == order && [] + order == order;
  }

  lemma {:induction false} SuccessesFinish(self: Id, wid: Id, nodes: Nodes, verdict: Id -> Verdict, todo: seq<Id>,
                                           c: Context, completed: seq<Id>, store: Store, ran: seq<Id>)
    returns (cs: seq<Context>)
    requires forall n :: n in todo ==> verdict(n).Succeeds?
    ensures Contexts(nodes, todo, c, cs)
    ensures var call := RunNodes(self, wid, nodes, verdict, todo, c, completed, store, ran);
            call.outcome == Done(cs[|todo|]) && call.ran == ran + todo
    decreases |todo|
  {
    if todo == [] {
      cs := [c];
      assert ran + todo == ran;
    } else {
      var n := todo[0];
      assert n in todo;
      var c' := c + Updates(nodes, n, c);
      assert n !in nodes ==> c' == c;
      var rest := SuccessesFinish(self, wid, nodes, verdict, todo[1..], c', completed + [n],
                                  store[self := ProgressRecord(completed + [n], c')], ran + [n]);
      cs := ContextsCons(nodes, todo, c, rest);
      assert (ran + [n]) + todo[1..] == ran + todo;
    }
  }

  lemma ContextsCons(nodes: Nodes, todo: seq<Id>, c: Context, rest: seq<Context>) returns (cs: seq<Context>)
    requires todo != []
    requires Contexts(nodes, todo[1..], if todo[0] in nodes then c + nodes[todo[0]](c) else c, rest)
    ensures Contexts(nodes, todo, c, cs) && cs[|todo|] == rest[|todo| - 1]
  {
    cs := [c] + rest;
    forall k | 0 <= k < |todo|
      ensures cs[k + 1] == if todo[k] in nodes then cs[k] + nodes[todo[k]](cs[k]) else cs[k]
    {
      if k > 0 { assert todo[1..][k - 1] == todo[k] && rest[(k - 1) + 1] == cs[k + 1]; }
    }
  }

  // The same with human decisions: what node k leaves, with the decision for the next node put in.
  ghost predicate Follows(f: Flow, inj: map<nat, Value>, k: nat, p: Context, c: Context)
    requires k < |f.order|
  {
    var left := if f.order[k] in f.nodes then p + f.nodes[f.order[k]](p) else p;
    c == if k + 1 in inj then left["_human_decision" := inj[k + 1]] else left
  }

  ghost predicate DecidedContexts(f: Flow, inj: map<nat, Value>, cs: seq<Context>) {
    && |cs| == |f.order| + 1
    && cs[0] == (if 0 in inj then f.init["_human_decision" := inj[0]] else f.init)
    && forall k: nat :: k < |f.order| ==> Follows(f, inj, k, cs[k], cs[k + 1])
  }

  lemma ReferenceFollows(f: Flow, inj: map<nat, Value>, k: nat)
    requires k < |f.order|
    ensures Follows(f, inj, k, f.At(inj, k), f.At(inj, k + 1))
  {
    var p := f.At(inj, k);
    assert f.order[k] !in f.nodes ==> p + Updates(f.nodes, f.order[k], p) == p;
  }

  lemma ReferenceContexts(f: Flow, inj: map<nat, Value>) returns (cs: seq<Context>)
    ensures DecidedContexts(f, inj, cs)
    ensures forall k: nat :: k <= |f.order| ==> cs[k] == f.At(inj, k)
  {
    cs := seq(|f.order| + 1, k requires 0 <= k <= |f.order| => f.At(inj, k));
    forall k: nat | k < |f.order|
      ensures Follows(f, inj, k, cs[k], cs[k + 1])
    {
      ReferenceFollows(f, inj, k);
    }
  }

  // Main result on histories, in those terms: a finished history has the last of the contexts as its
  // result, and an interrupted one has saved the context the next node is to be given, with exactly
  // the nodes executed so far as completed.
  lemma HistoryFollowsContexts(g: T.Graph, f: Flow, store: Store, qs: seq<Request>) returns (cs: seq<Context>)
    requires g.Valid() && f.order == T.Order(g) && f.WellBehaved()
    requires Unbegun(f, store) && AllAdmissible(f, Start(store), qs)
    ensures var p := PerformAll(f, Start(store), qs);
            && DecidedContexts(f, p.inj, cs)
            && (p.result.Some? ==> p.result.value == cs[|f.order|] && p.ran == f.order)
            && (p.result.None? && !Unbegun(f, p.store) ==>
                  && p.ran < f.order && p.store[f.id].completed == p.ran
                  && p.store[f.id].state == cs[|p.ran|]
                  && Some(f.order[|p.ran|]) in {p.store[f.id].failedAt, p.store[f.id].suspendedAt})
  {
    var p := PerformAll(f, Start(store), qs);
    ResumesAmountToOneRun(g, f, store, qs);
    cs := ReferenceContexts(f, p.inj);
  }

  // ---------------------------------------------------------------------------------------------
  // What an interrupted call leaves, and who may decide
  // ---------------------------------------------------------------------------------------------

  lemma {:induction false} InterruptedNodes(id: Id, nodes: Nodes, verdict: Id -> Verdict, todo: seq<Id>, c: Context,
                                            completed: seq<Id>, store: Store, ran: seq<Id>)
    ensures var call := RunNodes(id, id, nodes, verdict, todo, c, completed, store, ran);
            && !call.outcome.NotSuspended?
            && (call.outcome.WaitsForHuman? || call.outcome.NodeRaised? ==>
                  && call.outcome.at in todo && id in call.store
                  && var r := call.store[id];
                     if call.outcome.WaitsForHuman? then
                       && r.failedAt == None && r.suspendedAt == (if call.outcome.at == "" then None else Some(call.outcome.at))
                       && r.state == SanitizeAll(call.outcome.context)
                     else r.failedAt == Some(call.outcome.at) && r.suspendedAt == None)
    decreases |todo|
  {
    if todo != [] && verdict(todo[0]).Succeeds? {
      var n := todo[0];
      var c' := c + Updates(nodes, n, c);
      InterruptedNodes(id, nodes, verdict, todo[1..], c', completed + [n],
                       store[id := ProgressRecord(completed + [n], c')], ran + [n]);
    }
  }

  // After an interrupted call a decision is accepted exactly if that call is waiting for one (at a node
  // whose id is not empty), and then the record names the waiting node and holds the context it saw.
  lemma WaitingTakesDecisions(id: Id, nodes: Nodes, order: seq<Id>, verdict: Id -> Verdict, store: Store, c0: Context,
                              verdict': Id -> Verdict, choice: Value)
    requires Run(id, id, nodes, order, verdict, store, c0).outcome.WaitsForHuman?
             || Run(id, id, nodes, order, verdict, store, c0).outcome.NodeRaised?
    ensures var call := Run(id, id, nodes, order, verdict, store, c0);
            var waiting := call.outcome.WaitsForHuman? && call.outcome.at != "";
            && (Inject(id, id, nodes, order, verdict', call.store, choice).outcome != NotSuspended <==> waiting)
            && (waiting ==> id in call.store && call.store[id].suspendedAt == Some(call.outcome.at)
                            && call.store[id].state == SanitizeAll(call.outcome.context))
            && (call.outcome.NodeRaised? ==> id in call.store && call.store[id].failedAt == Some(call.outcome.at))
  {
    var (c, completed, k) := StartOf(store, id, order, c0);
    InterruptedNodes(id, nodes, verdict, order[k..], c, completed, store, []);
    var call := Run(id, id, nodes, order, verdict, store, c0);
    if call.store[id].suspendedAt.Some? {
      var next := DecisionSaved(call.store, id, choice);
      var (d, completed', j) := StartOf(next, id, order, map[]);
      if j <= |order| { InterruptedNodes(id, nodes, verdict', order[j..], d, completed', next, []); }
    }
  }

  // ---------------------------------------------------------------------------------------------
  // Every record saved on the way
  // ---------------------------------------------------------------------------------------------

  // The record of a prefix of the order, with the context as it is there, naming no node or the next.
  ghost predicate PrefixRecord(f: Flow, inj: map<nat, Value>, r: Record, j: nat) {
    && j <= |f.order| && r.completed == f.order[..j] && r.state == f.At(inj, j)
    && (r.failedAt.Some? ==> j < |f.order| && r.failedAt == Some(f.order[j]))
    && (r.suspendedAt.Some? ==> j < |f.order| && r.suspendedAt == Some(f.order[j]))
  }

  ghost predicate GoodSave(f: Flow, inj: map<nat, Value>, s: Save) {
    s.id == f.id && exists j: nat :: PrefixRecord(f, inj, s.record, j)
  }

  ghost predicate GoodSaves(f: Flow, inj: map<nat, Value>, saves: seq<Save>) {
    forall i :: 0 <= i < |saves| ==> GoodSave(f, inj, saves[i])
  }

  lemma GoodAt(f: Flow, inj: map<nat, Value>, r: Record, j: nat)
    requires PrefixRecord(f, inj, r, j)
    ensures GoodSave(f, inj, Save(f.id, r))
  {
  }

  lemma GoodCons(f: Flow, inj: map<nat, Value>, s: Save, saves: seq<Save>)
    requires GoodSave(f, inj, s) && GoodSaves(f, inj, saves)
    ensures GoodSaves(f, inj, [s] + saves)
  {
  }

  lemma NodeSaveIsGood(f: Flow, inj: map<nat, Value>, k: nat)
    requires f.WellBehaved() && JsonChoices(inj) && k < |f.order| && forall j :: j in inj ==> j <= k
    ensures PrefixRecord(f, inj, FailureRecord(f.order[..k], f.At(inj, k), f.order[k]), k)
    ensures PrefixRecord(f, inj, SuspensionRecord(f.order[..k], f.At(inj, k), f.order[k]), k)
    ensures PrefixRecord(f, inj, ProgressRecord(f.order[..k + 1], f.At(inj, k + 1)), k + 1)
    ensures f.At(inj, k + 1) == f.At(inj, k) + Updates(f.nodes, f.order[k], f.At(inj, k))
  {
    ReferenceIsJson(f.nodes, f.order, f.init, inj, k);
    ReferenceIsJson(f.nodes, f.order, f.init, inj, k + 1);
    SanitizeAllFaithful(f.At(inj, k));
    SanitizeAllFaithful(f.At(inj, k + 1));
  }

  lemma {:induction false} NodeSavesAreGood(f: Flow, inj: map<nat, Value>, verdict: Id -> Verdict, from: nat, k: nat)
    requires f.WellBehaved() && JsonChoices(inj) && Ordinary(f.order, verdict, from)
    requires from <= k <= |f.order| && forall j :: j in inj ==> j <= k
    ensures GoodSaves(f, inj, SavesOfNodes(f.id, f.nodes, verdict, f.order[k..], f.At(inj, k), f.order[..k]))
    decreases |f.order| - k
  {
    if k < |f.order| {
      var n := f.order[k];
      NodeSaveIsGood(f, inj, k);
      Grow(f.order, 0, k);
      if verdict(n).Succeeds? {
        NodeSavesAreGood(f, inj, verdict, from, k + 1);
        var r := ProgressRecord(f.order[..k + 1], f.At(inj, k + 1));
        GoodAt(f, inj, r, k + 1);
        GoodCons(f, inj, Save(f.id, r), SavesOfNodes(f.id, f.nodes, verdict, f.order[k + 1..], f.At(inj, k + 1), f.order[..k + 1]));
      } else if verdict(n).Suspends? {
        GoodAt(f, inj, SuspensionRecord(f.order[..k], f.At(inj, k), n), k);
      } else if verdict(n).Fails? {
        GoodAt(f, inj, FailureRecord(f.order[..k], f.At(inj, k), n), k);
      }
    }
  }

  // The saves of one request.
  function SavesOf(f: Flow, p: Progress, q: Request): seq<Save> {
    if p.result.Some? then []
    else
      match q
      case Again(c0, verdict) => SavesOfRun(f.id, f.id, f.nodes, f.order, verdict, p.store, c0)
      case Decide(choice, verdict) => SavesOfInject(f.id, f.id, f.nodes, f.order, verdict, p.store, choice)
  }

  lemma RunSavesAreGood(f: Flow, inj: map<nat, Value>, store: Store, k: nat, c0: Context, verdict: Id -> Verdict)
    requires f.WellBehaved() && JsonChoices(inj) && Ordinary(f.order, verdict, k)
    requires FrozenAt(f, inj, store, k) && c0.Keys <= f.init.Keys
    ensures GoodSaves(f, inj, SavesOfRun(f.id, f.id, f.nodes, f.order, verdict, store, c0))
  {
    ResumeStarts(f, inj, store, k, c0);
    NodeSavesAreGood(f, inj, verdict, k, k);
  }

  lemma FirstSavesAreGood(f: Flow, store: Store, verdict: Id -> Verdict)
    requires f.WellBehaved() && Unbegun(f, store) && Ordinary(f.order, verdict, 0)
    ensures GoodSaves(f, map[], SavesOfRun(f.id, f.id, f.nodes, f.order, verdict, store, f.init))
  {
    NodeSavesAreGood(f, map[], verdict, 0, 0);
    assert f.order[0..] == f.order && f.order[..0] == [];
  }

  lemma DecideSavesAreGood(f: Flow, p: Progress, k: nat, choice: Value, verdict: Id -> Verdict)
    requires f.WellBehaved() && JsonChoices(p.inj) && Ordinary(f.order, verdict, k)
    requires p.result.None? && FrozenAt(f, p.inj, p.store, k) && p.store[f.id].suspendedAt.Some?
    ensures GoodSaves(f, Perform(f, p, Decide(choice, verdict)).inj, SavesOf(f, p, Decide(choice, verdict)))
  {
    if Storable(choice) {
      var v := Sanitize(choice);
      var inj, store := p.inj[k := v], p.store[f.id := Decided(p.store[f.id], v)];
      IndexOfNode(f.order, k);
      SanitizeFaithful(choice);
      DecidedIsFrozen(f, p.inj, p.store, k, v);
      RunSavesAreGood(f, inj, store, k, map[], verdict);
      GoodAt(f, inj, store[f.id], k);
      GoodCons(f, inj, Save(f.id, store[f.id]), SavesOfRun(f.id, f.id, f.nodes, f.order, verdict, store, map[]));
    } else {
      RunSavesAreGood(f, p.inj, p.store, k, map[], verdict);
      var saves := SavesOfRun(f.id, f.id, f.nodes, f.order, verdict, p.store, map[]);
      assert [] + saves == saves;
    }
  }

  lemma SavesAreGood(f: Flow, p: Progress, q: Request)
    requires f.WellBehaved() && OnTrack(f, p) && (p.result.None? ==> Admissible(f, p, q))
    ensures GoodSaves(f, Perform(f, p, q).inj, SavesOf(f, p, q))
  {
    if p.result.None? {
      if k: nat :| FrozenAt(f, p.inj, p.store, k) && p.ran == f.order[..k] {
        FrozenStart(f, p.inj, p.store, k);
        match q
        case Again(c0, verdict) => RunSavesAreGood(f, p.inj, p.store, k, c0, verdict);
        case Decide(choice, verdict) =>
          if p.store[f.id].suspendedAt.Some? { DecideSavesAreGood(f, p, k, choice, verdict); }
      } else if q.Again? {
        FirstStart(f, p.store);
        FirstSavesAreGood(f, p.store, q.verdict);
      }
    }
  }

  lemma FirstStart(f: Flow, store: Store)
    requires Unbegun(f, store)
    ensures FirstNode(f, store) == 0
  {
  }

  // Every call of a history saves only good records, judged by the decisions made so far.
  ghost predicate AllSavesGood(f: Flow, p: Progress, qs: seq<Request>)
    decreases |qs|
  {
    qs == [] || (GoodSaves(f, Perform(f, p, qs[0]).inj, SavesOf(f, p, qs[0])) && AllSavesGood(f, Perform(f, p, qs[0]), qs[1..]))
  }

  lemma {:induction false} HistorySavesAreGood(f: Flow, p: Progress, qs: seq<Request>)
    requires f.WellBehaved() && OnTrack(f, p) && AllAdmissible(f, p, qs)
    ensures AllSavesGood(f, p, qs)
    decreases |qs|
  {
    if qs != [] {
      SavesAreGood(f, p, qs[0]);
      PerformKeepsOnTrack(f, p, qs[0]);
      HistorySavesAreGood(f, Perform(f, p, qs[0]), qs[1..]);
    }
  }

  // Main result on records: whatever is saved at any moment of any history names a prefix of the order
  // as completed, holds the reference context there, and if it names a node, the next one.
  lemma EveryRecordIsAPrefix(g: T.Graph, f: Flow, store: Store, qs: seq<Request>)
    requires g.Valid() && f.order == T.Order(g) && f.WellBehaved()
    requires Unbegun(f, store) && AllAdmissible(f, Start(store), qs)
    ensures AllSavesGood(f, Start(store), qs)
  {
    HistorySavesAreGood(f, Start(store), qs);
  }

  // ---------------------------------------------------------------------------------------------
  // Where resuming does not continue
  // ---------------------------------------------------------------------------------------------

  // The frozen context survives saving exactly when it is JSON already.
  lemma ResumeContextExact(id: Id, order: seq<Id>, store: Store, completed: seq<Id>, c: Context, at: Id)
    requires at != ""
    ensures StartOf(store[id := FailureRecord(completed, c, at)], id, order, map[]).0 == c <==> JsonContext(c)
  {
    SanitizeAllFaithful(c);
    assert map[] + SanitizeAll(c) == SanitizeAll(c);
  }

  // The node resumes with the decision exactly when JSON has a form for it; any other is dropped
  // without an error, and the node runs again as if nobody had answered, or under the answer to an
  // earlier suspension.
  lemma DecisionArrives(id: Id, order: seq<Id>, store: Store, choice: Value)
    requires id in store && store[id].failedAt.None? && Truthy(store[id].suspendedAt)
    ensures var r, (c, completed, k) := store[id], StartOf(DecisionSaved(store, id, choice), id, order, map[]);
            && c == (if Storable(choice) then r.state["_human_decision" := Sanitize(choice)] else r.state)
            && completed == r.completed
            && (r.suspendedAt.value in order ==> order[k..] != [] && order[k] == r.suspendedAt.value)
  {
    var r := store[id];
    assert map[] + r.state == r.state;
    var put := r.state[HUMAN_DECISION := Sanitize(choice)];
    assert map[] + put == put;
  }

  lemma {:induction false} KilledNodes(id: Id, nodes: Nodes, verdict: Id -> Verdict, todo: seq<Id>, c: Context,
                                       completed: seq<Id>, store: Store, ran: seq<Id>)
    ensures var call := RunNodes(id, id, nodes, verdict, todo, c, completed, store, ran);
            call.outcome.Died? ==>
              && ran <= call.ran
              && (call.ran == ran ==> call.store == store)
              && (call.ran != ran ==>
                    id in call.store && call.store[id].failedAt == None && call.store[id].suspendedAt == None)
    decreases |todo|
  {
    if todo != [] && verdict(todo[0]).Succeeds? {
      var n := todo[0];
      var c' := c + Updates(nodes, n, c);
      KilledNodes(id, nodes, verdict, todo[1..], c', completed + [n],
                  store[id := ProgressRecord(completed + [n], c')], ran + [n]);
    }
  }

  // A process that dies leaves the record alone exactly as long as no node of the call has succeeded:
  // then the next call starts where this one did, and otherwise at the first node, with nothing
  // completed, running every completed node again.
  lemma KilledRunStartsOver(id: Id, nodes: Nodes, order: seq<Id>, verdict: Id -> Verdict, store: Store, c0: Context, c1: Context)
    requires Run(id, id, nodes, order, verdict, store, c0).outcome.Died?
    ensures var call := Run(id, id, nodes, order, verdict, store, c0);
            var here, next := StartOf(store, id, order, c1), StartOf(call.store, id, order, c1);
            && (call.ran == [] ==> call.store == store)
            && next == (if call.ran == [] then here else (c1, [], 0))
            && (next == here <==> call.ran == [] || here == (c1, [], 0))
  {
    var (c, completed, k) := StartOf(store, id, order, c0);
    if order != [] && k <= |order| {
      KilledNodes(id, nodes, verdict, order[k..], c, completed, store, []);
    }
  }

  // A raising on_node_done leaves its node both completed and failed: the next run executes it a
  // second time.
  lemma CallbackFailureRepeatsNode(id: Id, nodes: Nodes, verdict: Id -> Verdict, order: seq<Id>, k: nat,
                                   c: Context, store: Store, c0: Context)
    requires T.NoDup(order) && k < |order| && order[k] != "" && verdict(order[k]).CallbackRaises?
    ensures var call := RunNodes(id, id, nodes, verdict, order[k..], c, order[..k], store, []);
            && call.ran == [order[k]]
            && StartOf(call.store, id, order, c0).1 == order[..k + 1]
            && StartOf(call.store, id, order, c0).2 == k
  {
  }

  // A failure at a node whose id is the empty string is not recognised as one.
  lemma EmptyIdStartsOver(id: Id, order: seq<Id>, store: Store, completed: seq<Id>, c: Context, c0: Context)
    ensures StartOf(store[id := FailureRecord(completed, c, "")], id, order, c0) == (c0, [], 0)
    ensures StartOf(store[id := SuspensionRecord(completed, c, "")], id, order, c0) == (c0, [], 0)
  {
  }

  ghost predicate SameRecord(a: Store, b: Store, id: Id) {
    (id in a <==> id in b) && (id in a ==> a[id] == b[id])
  }

  lemma {:induction false} OtherIdUntouched(self: Id, wid: Id, nodes: Nodes, verdict: Id -> Verdict, todo: seq<Id>, c: Context,
                                            completed: seq<Id>, store: Store, ran: seq<Id>)
    requires wid != self
    ensures var call := RunNodes(self, wid, nodes, verdict, todo, c, completed, store, ran);
            if call.outcome.Done? then wid !in call.store else SameRecord(call.store, store, wid)
    decreases |todo|
  {
    if todo != [] && verdict(todo[0]).Succeeds? {
      var n := todo[0];
      var c' := c + Updates(nodes, n, c);
      OtherIdUntouched(self, wid, nodes, verdict, todo[1..], c', completed + [n],
                       store[self := ProgressRecord(completed + [n], c')], ran + [n]);
    }
  }

  // Records are saved under the workflow's own id: called with another id, a call that does not finish
  // leaves the record of that id, or its absence, as it was, so the next call starts where this one
  // did; one that finishes deletes it.
  lemma OtherIdStartsOver(self: Id, wid: Id, nodes: Nodes, verdict: Id -> Verdict, todo: seq<Id>, c: Context,
                          completed: seq<Id>, store: Store, ran: seq<Id>, order: seq<Id>, c0: Context)
    requires wid != self
    ensures var call := RunNodes(self, wid, nodes, verdict, todo, c, completed, store, ran);
            && (call.outcome.Done? ==> wid !in call.store && StartOf(call.store, wid, order, c0) == (c0, [], 0))
            && (!call.outcome.Done? ==>
                  && SameRecord(call.store, store, wid)
                  && StartOf(call.store, wid, order, c0) == StartOf(store, wid, order, c0))
  {
    OtherIdUntouched(self, wid, nodes, verdict, todo, c, completed, store, ran);
  }
}
