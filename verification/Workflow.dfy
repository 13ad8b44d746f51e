// The DAG workflow with checkpoint and resume (core/workflow_engine.py).
//
// A run executes the nodes in topological order, merging each node's updates into the context and
// saving a record after every node.  A node that raises freezes the record at that node; a node
// that asks for a human suspends it there; `resume` continues from the record, and
// `inject_human_decision_and_resume` first puts the decision into the saved context.
module Workflow {
  import opened Wrappers
  import T = Topology

  type Id = T.Id

  // ---------------------------------------------------------------------------------------------
  // Contexts and what saving does to them
  // ---------------------------------------------------------------------------------------------

  // A dictionary lists its (string) keys and their values in insertion order.  `Opaque` stands for
  // any object JSON has no form for; saving replaces it by its text.
  datatype Value =
    | Null | Bool(b: bool) | Int(n: int) | Str(s: string)
    | List(items: seq<Value>) | Tuple(items: seq<Value>) | Dict(keys: seq<string>, items: seq<Value>)
    | Opaque(text: string)

  type Context = map<string, Value>

  function Sanitize(v: Value): Value {
    match v
    case List(xs) => List(seq(|xs|, i requires 0 <= i < |xs| => Sanitize(xs[i])))
    case Dict(ks, xs) => Dict(ks, seq(|xs|, i requires 0 <= i < |xs| => Sanitize(xs[i])))
    case Tuple(xs) => List(seq(|xs|, i requires 0 <= i < |xs| => Sanitize(xs[i])))
    case Opaque(t) => Str(t)
    case _ => v
  }

  function SanitizeAll(c: Context): Context {
    map k | k in c :: Sanitize(c[k])
  }

  // JSON already: no tuples, no foreign objects, at any depth.
  predicate IsJson(v: Value) {
    match v
    case List(xs) => forall i :: 0 <= i < |xs| ==> IsJson(xs[i])
    case Dict(_, xs) => forall i :: 0 <= i < |xs| ==> IsJson(xs[i])
    case Tuple(_) => false
    case Opaque(_) => false
    case _ => true
  }

  // Saving keeps a value exactly when it is JSON already; a tuple becomes the list of its items, a
  // foreign object its text.
  lemma {:induction false} SanitizeFaithful(v: Value)
    ensures Sanitize(v) == v <==> IsJson(v)
    ensures IsJson(Sanitize(v))
    ensures (v.Tuple? ==> Sanitize(v) == Sanitize(List(v.items))) && (v.Opaque? ==> Sanitize(v) == Str(v.text))
  {
    match v
    case List(xs) => SanitizeItems(xs);
    case Dict(_, xs) => SanitizeItems(xs);
    case Tuple(xs) => SanitizeItems(xs);
    case _ =>
  }

  lemma {:induction false} SanitizeItems(xs: seq<Value>)
    ensures var ys := seq(|xs|, i requires 0 <= i < |xs| => Sanitize(xs[i]));
            && (ys == xs <==> forall i :: 0 <= i < |xs| ==> IsJson(xs[i]))
            && forall i :: 0 <= i < |ys| ==> IsJson(ys[i])
  {
    var ys := seq(|xs|, i requires 0 <= i < |xs| => Sanitize(xs[i]));
    forall i | 0 <= i < |xs| { SanitizeFaithful(xs[i]); }
    if ys == xs {
      forall i | 0 <= i < |xs|
        ensures IsJson(xs[i])
      {
        assert ys[i] == xs[i];
      }
    }
  }

  // What json.dumps takes without a word: everything but foreign objects.
  predicate Storable(v: Value) {
    match v
    case List(xs) => forall i :: 0 <= i < |xs| ==> Storable(xs[i])
    case Dict(_, xs) => forall i :: 0 <= i < |xs| ==> Storable(xs[i])
    case Tuple(xs) => forall i :: 0 <= i < |xs| ==> Storable(xs[i])
    case Opaque(_) => false
    case _ => true
  }

  // The value reached by going down along positions of items, if there is one.
  function Inside(v: Value, path: seq<nat>): Option<Value>
    decreases |path|
  {
    if path == [] then Some(v)
    else if (v.List? || v.Tuple? || v.Dict?) && path[0] < |v.items| then Inside(v.items[path[0]], path[1..])
    else None
  }

  // What saving makes of one value, its items aside.
  ghost predicate SavedAs(x: Value, y: Value) {
    match x
    case List(xs) => y.List? && |y.items| == |xs|
    case Tuple(xs) => y.List? && |y.items| == |xs|
    case Dict(ks, xs) => y.Dict? && y.keys == ks && |y.items| == |xs|
    case Opaque(t) => y == Str(t)
    case _ => y == x
  }

  // At every depth a tuple becomes a list, a foreign object its text, and everything else stays.
  lemma {:induction false} SavedAtEveryDepth(v: Value, path: seq<nat>)
    ensures Inside(v, path).Some? <==> Inside(Sanitize(v), path).Some?
    ensures Inside(v, path).Some? ==> SavedAs(Inside(v, path).value, Inside(Sanitize(v), path).value)
    decreases |path|
  {
    if path != [] && (v.List? || v.Tuple? || v.Dict?) && path[0] < |v.items| {
      SavedAtEveryDepth(v.items[path[0]], path[1..]);
    }
  }

  // A value can be stored as it is exactly when no foreign object is anywhere inside it.
  lemma {:induction false} StorableExactly(v: Value)
    ensures Storable(v) <==> forall path :: Inside(v, path).Some? ==> !Inside(v, path).value.Opaque?
  {
    if Storable(v) {
      forall path | Inside(v, path).Some?
        ensures !Inside(v, path).value.Opaque?
      {
        NothingForeign(v, path);
      }
    } else {
      var path := ForeignInside(v);
    }
  }

  lemma {:induction false} NothingForeign(v: Value, path: seq<nat>)
    requires Storable(v) && Inside(v, path).Some?
    ensures !Inside(v, path).value.Opaque?
    decreases |path|
  {
    if path != [] { NothingForeign(v.items[path[0]], path[1..]); }
  }

  lemma {:induction false} ForeignInside(v: Value) returns (path: seq<nat>)
    requires !Storable(v)
    ensures Inside(v, path).Some? && Inside(v, path).value.Opaque?
  {
    if v.Opaque? {
      path := [];
    } else {
      var i: nat :| i < |v.items| && !Storable(v.items[i]);
      var rest := ForeignInside(v.items[i]);
      path := [i] + rest;
    }
  }

  predicate JsonContext(c: Context) {
    forall k :: k in c ==> IsJson(c[k])
  }

  lemma SanitizeAllFaithful(c: Context)
    ensures SanitizeAll(c) == c <==> JsonContext(c)
  {
    forall k | k in c { SanitizeFaithful(c[k]); }
    if SanitizeAll(c) == c {
      forall k | k in c
        ensures IsJson(c[k])
      {
        assert SanitizeAll(c)[k] == c[k];
      }
    }
  }

  // ---------------------------------------------------------------------------------------------
  // One call of run / resume / inject on values
  // ---------------------------------------------------------------------------------------------

  // The updates a node returns for a context.
  type Behaviour = Context -> Context

  type Nodes = map<Id, Behaviour>

  // How an attempt of a node ends in one call.  `CallbackRaises`: the node succeeds and is saved,
  // then on_node_done raises.  `Killed`: the process dies instead of executing the node.
  datatype Verdict = Succeeds | Suspends | Fails | CallbackRaises | Killed

  datatype Record = Record(completed: seq<Id>, state: Context, failedAt: Option<Id>, suspendedAt: Option<Id>)

  type Store = map<Id, Record>

  datatype Outcome =
    | Done(context: Context)
    | WaitsForHuman(at: Id, context: Context)
    | NodeRaised(at: Id)
    | Died
    | NotSuspended

  // `ran` lists the nodes executed successfully in the call.
  datatype Call = Call(store: Store, outcome: Outcome, ran: seq<Id>)

  const HUMAN_DECISION := "_human_decision"

  function Updates(nodes: Nodes, n: Id, c: Context): Context {
    if n in nodes then nodes[n](c) else map[]
  }

  // Python truthiness of an optional id.
  predicate Truthy(o: Option<Id>) { o.Some? && o.value != "" }

  function FailureRecord(completed: seq<Id>, c: Context, at: Id): Record {
    Record(completed, SanitizeAll(c), Some(at), None)
  }

  // The suspension fields are only written for a non-empty node id.
  function SuspensionRecord(completed: seq<Id>, c: Context, at: Id): Record {
    Record(completed, SanitizeAll(c), None, if at != "" then Some(at) else None)
  }

  function ProgressRecord(completed: seq<Id>, c: Context): Record {
    Record(completed, SanitizeAll(c), None, None)
  }

  function RunNodes(self: Id, wid: Id, nodes: Nodes, verdict: Id -> Verdict,
                    todo: seq<Id>, c: Context, completed: seq<Id>, store: Store, ran: seq<Id>): Call
    decreases |todo|
  {
    if todo == [] then Call(store - {wid}, Done(c), ran)
    else
      var n := todo[0];
      var c' := c + Updates(nodes, n, c);
      match verdict(n)
      case Succeeds =>
        RunNodes(self, wid, nodes, verdict, todo[1..], c', completed + [n],
                 store[self := ProgressRecord(completed + [n], c')], ran + [n])
      case Suspends => Call(store[self := SuspensionRecord(completed, c, n)], WaitsForHuman(n, c), ran)
      case Fails => Call(store[self := FailureRecord(completed, c, n)], NodeRaised(n), ran)
      case CallbackRaises =>
        Call(store[self := FailureRecord(completed + [n], c', n)], NodeRaised(n), ran + [n])
      case Killed => Call(store, Died, ran)
  }

  // One save of a record under an id.
  datatype Save = Save(id: Id, record: Record)

  // The saves of the same node loop, in order.
  function SavesOfNodes(self: Id, nodes: Nodes, verdict: Id -> Verdict, todo: seq<Id>, c: Context, completed: seq<Id>): seq<Save>
    decreases |todo|
  {
    if todo == [] then []
    else
      var n := todo[0];
      var c' := c + Updates(nodes, n, c);
      match verdict(n)
      case Succeeds =>
        [Save(self, ProgressRecord(completed + [n], c'))] + SavesOfNodes(self, nodes, verdict, todo[1..], c', completed + [n])
      case Suspends => [Save(self, SuspensionRecord(completed, c, n))]
      case Fails => [Save(self, FailureRecord(completed, c, n))]
      case CallbackRaises =>
        [Save(self, ProgressRecord(completed + [n], c')), Save(self, FailureRecord(completed + [n], c', n))]
      case Killed => []
  }

  function IndexOf(s: seq<Id>, x: Id): (k: nat)
    ensures x in s ==> k < |s| && s[k] == x
    ensures x !in s ==> k == |s|
  {
    if s == [] then 0 else if s[0] == x then 0 else 1 + IndexOf(s[1..], x)
  }

  // Where a call starts: context, completed nodes, index into the order.
  function StartOf(store: Store, wid: Id, order: seq<Id>, c0: Context): (Context, seq<Id>, nat)
  {
    if wid in store && (Truthy(store[wid].failedAt) || Truthy(store[wid].suspendedAt)) then
      var r := store[wid];
      var at := if Truthy(r.failedAt) then r.failedAt.value else r.suspendedAt.value;
      (c0 + r.state, r.completed, if at in order then IndexOf(order, at) else 0)
    else (c0, [], 0)
  }

  function Run(self: Id, wid: Id, nodes: Nodes, order: seq<Id>, verdict: Id -> Verdict, store: Store, c0: Context): Call
  {
    if order == [] then Call(store, Done(c0), [])
    else
      var (c, completed, k) := StartOf(store, wid, order, c0);
      if k <= |order| then RunNodes(self, wid, nodes, verdict, order[k..], c, completed, store, [])
      else Call(store, Done(c0), [])
  }

  function SavesOfRun(self: Id, wid: Id, nodes: Nodes, order: seq<Id>, verdict: Id -> Verdict, store: Store, c0: Context): seq<Save>
  {
    var (c, completed, k) := StartOf(store, wid, order, c0);
    if k <= |order| then SavesOfNodes(self, nodes, verdict, order[k..], c, completed) else []
  }

  // The record with the decision in it, marked as failed so that the next run resumes there.  The
  // decision goes to JSON as it is: one that JSON has no form for fails the save, which is only
  // logged, so the record stays as it was.
  function Decided(r: Record, choice: Value): Record
    requires r.suspendedAt.Some?
  {
    Record(r.completed, r.state[HUMAN_DECISION := choice], r.suspendedAt, None)
  }

  function Inject(self: Id, wid: Id, nodes: Nodes, order: seq<Id>, verdict: Id -> Verdict, store: Store, choice: Value): Call
  {
    if wid !in store || store[wid].suspendedAt.None? then Call(store, NotSuspended, [])
    else Run(self, wid, nodes, order, verdict, DecisionSaved(store, wid, choice), map[])
  }

  function DecisionSaved(store: Store, wid: Id, choice: Value): Store
    requires wid in store && store[wid].suspendedAt.Some?
  {
    if Storable(choice) then store[wid := Decided(store[wid], Sanitize(choice))] else store
  }

  function SavesOfInject(self: Id, wid: Id, nodes: Nodes, order: seq<Id>, verdict: Id -> Verdict, store: Store, choice: Value): seq<Save>
  {
    if wid !in store || store[wid].suspendedAt.None? then []
    else
      (if Storable(choice) then [Save(wid, Decided(store[wid], Sanitize(choice)))] else [])
      + SavesOfRun(self, wid, nodes, order, verdict, DecisionSaved(store, wid, choice), map[])
  }

  // ---------------------------------------------------------------------------------------------
  // The program's own form
  // ---------------------------------------------------------------------------------------------

  // The saved records, shared by all workflows, and the history of saves.
  class StateStore {
    var records: Store
    ghost var history: seq<Save>

    constructor ()
      ensures records == map[] && history == []
    {
      records, history := map[], [];
    }

    method SaveState(id: Id, r: Record)
      modifies this
      ensures records == old(records)[id := r] && history == old(history) + [Save(id, r)]
    {
      records := records[id := r];
      history := history + [Save(id, r)];
    }
  }

  class DAGWorkflow {
    const workflowId: Id
    const store: StateStore
    var nodes: Nodes
    var ids: seq<Id>
    var inEdges: map<Id, seq<Id>>
    var outEdges: map<Id, seq<Id>>

    constructor (workflowId: Id, store: StateStore)
      ensures Valid() && Graph() == T.Graph([], map[], map[])
      ensures this.workflowId == workflowId && this.store == store
    {
      this.workflowId, this.store := workflowId, store;
      nodes, ids, inEdges, outEdges := map[], [], map[], map[];
      new;
      NoEdges();
    }

    function Graph(): T.Graph
      reads this
    {
      T.Graph(ids, inEdges, outEdges)
    }

    ghost predicate Valid()
      reads this
    {
      && Graph().Valid()
      && nodes.Keys == T.Elems(ids)
      && (forall v :: v in inEdges ==> v in ids)
      && (forall v :: v in outEdges ==> v in ids)
    }

    lemma NoEdges()
      requires ids == [] && inEdges == map[] && outEdges == map[] && nodes == map[]
      ensures Valid()
    {
    }

    method AddNode(id: Id, behaviour: Behaviour)
      requires Valid()
      modifies this
      ensures Valid()
      ensures nodes == old(nodes)[id := behaviour]
      ensures ids == if id in old(ids) then old(ids) else old(ids) + [id]
      ensures inEdges == old(inEdges) && outEdges == old(outEdges)
    {
      nodes := nodes[id := behaviour];
      if id !in ids { ids := ids + [id]; }
      NodeKeepsValid(old(Graph()), Graph(), id);
    }

    method AddEdge(source: Id, target: Id) returns (ok: bool)
      requires Valid()
      modifies this
      ensures Valid()
      ensures ok <==> source in old(ids) && target in old(ids)
      ensures ids == old(ids) && nodes == old(nodes)
      ensures forall u :: Graph().Out(u) == old(Graph()).Out(u) + if ok && u == source then [target] else []
      ensures forall v :: Graph().In(v) == old(Graph()).In(v) + if ok && v == target then [source] else []
    {
      if source !in ids || target !in ids { return false; }
      outEdges := outEdges[source := (if source in outEdges then outEdges[source] else []) + [target]];
      inEdges := inEdges[target := (if target in inEdges then inEdges[target] else []) + [source]];
      EdgeKeepsValid(old(Graph()), Graph(), source, target);
      ok := true;
    }

    method TopologicalOrder() returns (order: seq<Id>)
      requires Valid()
      ensures order == T.Order(Graph())
    {
      var inDegree := CountInEdges();
      var queue := ReadyNodes(inDegree);
      order := [];
      while queue != []
        invariant order + T.Kahn(Graph(), queue, inDegree) == T.Order(Graph())
        decreases |queue| + |T.Positive(inDegree)|
      {
        var n, rest := queue[0], queue[1..];
        var succs := if n in outEdges then outEdges[n] else [];
        T.RelaxBalance(succs, rest, inDegree);
        ghost var before := inDegree;
        queue, inDegree := RelaxAll(succs, rest, inDegree);
        T.Shift(order, n, T.Kahn(Graph(), queue, inDegree));
        order := order + [n];
      }
      assert order + [] == order;
    }

    method ReadyNodes(inDegree: map<Id, int>) returns (queue: seq<Id>)
      requires inDegree == T.Degrees(Graph())
      ensures queue == T.Sources(Graph(), ids)
    {
      queue := [];
      for k := 0 to |ids|
        invariant queue + T.Sources(Graph(), ids[k..]) == T.Sources(Graph(), ids)
      {
        var n := ids[k];
        assert ids[k..][0] == n && ids[k..][1..] == ids[k + 1..];
        if inDegree[n] == 0 {
          T.Shift(queue, n, T.Sources(Graph(), ids[k + 1..]));
          queue := queue + [n];
        }
      }
      assert queue + [] == queue;
    }

    method CountInEdges() returns (inDegree: map<Id, int>)
      requires Valid()
      ensures inDegree == T.Degrees(Graph())
    {
      inDegree := map v | v in ids :: 0;
      var targets := inEdges.Keys;
      while targets != {}
        invariant targets <= inEdges.Keys
        invariant inDegree.Keys == T.Elems(ids)
        invariant forall v :: v in inDegree ==> inDegree[v] == if v in targets then 0 else |Graph().In(v)|
        decreases |targets|
      {
        var v :| v in targets;
        for j := 0 to |inEdges[v]|
          invariant inDegree.Keys == T.Elems(ids) && v in inDegree && inDegree[v] == j
          invariant forall w :: w in inDegree && w != v ==> inDegree[w] == if w in targets then 0 else |Graph().In(w)|
        {
          inDegree := inDegree[v := inDegree[v] + 1];
        }
        targets := targets - {v};
      }
    }

    static method RelaxAll(succs: seq<Id>, start: seq<Id>, degrees: map<Id, int>) returns (queue: seq<Id>, d: map<Id, int>)
      ensures (queue, d) == T.Relax(succs, start, degrees)
    {
      queue, d := start, degrees;
      for j := 0 to |succs|
        invariant T.Relax(succs[j..], queue, d) == T.Relax(succs, start, degrees)
      {
        assert succs[j..][0] == succs[j] && succs[j..][1..] == succs[j + 1..];
        d := d[succs[j] := T.Degree(d, succs[j]) - 1];
        if d[succs[j]] == 0 { queue := queue + [succs[j]]; }
      }
    }

    // run(); resume() is run without an initial context.
    method RunWorkflow(wid: Id, initial: Context, verdict: Id -> Verdict) returns (out: Outcome, ran: seq<Id>)
      requires Valid()
      modifies store
      ensures Call(store.records, out, ran)
              == Run(workflowId, wid, nodes, T.Order(Graph()), verdict, old(store.records), initial)
      ensures store.history
              == old(store.history) + SavesOfRun(workflowId, wid, nodes, T.Order(Graph()), verdict, old(store.records), initial)
    {
      ran := [];
      var context := initial;
      var order := TopologicalOrder();
      if order == [] {
        assert store.history + [] == store.history;
        return Done(context), [];
      }
      var completed: seq<Id> := [];
      var first := 0;
      if wid in store.records && (Truthy(store.records[wid].failedAt) || Truthy(store.records[wid].suspendedAt)) {
        var saved := store.records[wid];
        completed := saved.completed;
        context := context + saved.state;
        var at := if Truthy(saved.failedAt) then saved.failedAt.value else saved.suspendedAt.value;
        first := if at in order then IndexOf(order, at) else 0;
      }
      out, ran := ExecuteNodes(wid, order[first..], context, completed, verdict);
    }

    // The node loop of run().
    method ExecuteNodes(wid: Id, todo: seq<Id>, start: Context, done: seq<Id>, verdict: Id -> Verdict)
      returns (out: Outcome, ran: seq<Id>)
      modifies store
      ensures Call(store.records, out, ran)
              == RunNodes(workflowId, wid, nodes, verdict, todo, start, done, old(store.records), [])
      ensures store.history == old(store.history) + SavesOfNodes(workflowId, nodes, verdict, todo, start, done)
    {
      var context, completed := start, done;
      ran := [];
      ghost var goal := RunNodes(workflowId, wid, nodes, verdict, todo, start, done, store.records, []);
      ghost var saves := store.history + SavesOfNodes(workflowId, nodes, verdict, todo, start, done);
      for k := 0 to |todo|
        invariant RunNodes(workflowId, wid, nodes, verdict, todo[k..], context, completed, store.records, ran) == goal
        invariant store.history + SavesOfNodes(workflowId, nodes, verdict, todo[k..], context, completed) == saves
      {
        var n := todo[k];
        assert todo[k..][0] == n && todo[k..][1..] == todo[k + 1..];
        if verdict(n).Killed? {
          assert store.history + [] == store.history;
          return Died, ran;
        }
        if verdict(n).Suspends? {
          Persist(completed, context, None, Some(n));
          return WaitsForHuman(n, context), ran;
        }
        if verdict(n).Fails? {
          Persist(completed, context, Some(n), None);
          return NodeRaised(n), ran;
        }
        ghost var before, was := store.records, store.history;
        ghost var next := context + Updates(nodes, n, context);
        if n in nodes { context := context + nodes[n](context); }
        assert context == next;
        completed := completed + [n];
        ran := ran + [n];
        Persist(completed, context, None, None);
        if verdict(n).CallbackRaises? {
          Persist(completed, context, Some(n), None);
          assert store.records == before[workflowId := FailureRecord(completed, context, n)];
          SaveTwo(was, Save(workflowId, ProgressRecord(completed, context)), Save(workflowId, FailureRecord(completed, context, n)));
          return NodeRaised(n), ran;
        }
        SaveOne(was, Save(workflowId, ProgressRecord(completed, context)),
                SavesOfNodes(workflowId, nodes, verdict, todo[k + 1..], context, completed));
      }
      assert store.history + [] == store.history;
      store.records := store.records - {wid};
      out := Done(context);
    }

    // The record goes under the workflow's own id, whatever id the call was made with; a suspension is
    // only noted for a non-empty node id.
    method Persist(completed: seq<Id>, context: Context, failedAt: Option<Id>, suspendedAt: Option<Id>)
      modifies store
      ensures var r := Record(completed, SanitizeAll(context), failedAt, if suspendedAt == Some("") then None else suspendedAt);
              && store.records == old(store.records)[workflowId := r]
              && store.history == old(store.history) + [Save(workflowId, r)]
    {
      var suspended: Option<Id> := None;
      if suspendedAt.Some? && suspendedAt.value != "" { suspended := suspendedAt; }
      store.SaveState(workflowId, Record(completed, SanitizeAll(context), failedAt, suspended));
    }

    method InjectAndResume(wid: Id, choice: Value, verdict: Id -> Verdict) returns (out: Outcome, ran: seq<Id>)
      requires Valid()
      modifies store
      ensures Call(store.records, out, ran)
              == Inject(workflowId, wid, nodes, T.Order(Graph()), verdict, old(store.records), choice)
      ensures store.history
              == old(store.history) + SavesOfInject(workflowId, wid, nodes, T.Order(Graph()), verdict, old(store.records), choice)
    {
      if wid !in store.records || store.records[wid].suspendedAt.None? {
        assert store.history + [] == store.history;
        return NotSuspended, [];
      }
      ghost var was, records := store.history, store.records;
      var saved := store.records[wid];
      if Storable(choice) {
        store.SaveState(wid, Record(saved.completed, saved.state[HUMAN_DECISION := Sanitize(choice)], saved.suspendedAt, None));
      }
      out, ran := RunWorkflow(wid, map[], verdict);
      ghost var saves := SavesOfRun(workflowId, wid, nodes, T.Order(Graph()), verdict, DecisionSaved(records, wid, choice), map[]);
      if Storable(choice) {
        SaveOne(was, Save(wid, Decided(records[wid], Sanitize(choice))), saves);
      } else {
        assert [] + saves == saves;
      }
    }
  }

  lemma SaveOne(h: seq<Save>, x: Save, rest: seq<Save>)
    ensures (h + [x]) + rest == h + ([x] + rest)
  {
  }

  lemma SaveTwo(h: seq<Save>, x: Save, y: Save)
    ensures (h + [x]) + [y] == h + [x, y]
  {
  }

  // One end of an edge list grows by one entry or stays.
  lemma CountGrows(before: seq<Id>, x: Id, here: bool, after: seq<Id>, y: Id)
    requires after == before + if here then [x] else []
    ensures T.Count(after, y) == T.Count(before, y) + if here && x == y then 1 else 0
  {
  }

  lemma EdgeKeepsValid(g: T.Graph, g': T.Graph, s: Id, t: Id)
    requires g.Valid() && g'.nodes == g.nodes && s in g.nodes && t in g.nodes
    requires forall u :: g'.Out(u) == g.Out(u) + if u == s then [t] else []
    requires forall v :: g'.In(v) == g.In(v) + if v == t then [s] else []
    ensures g'.Valid()
  {
    forall u, v
      ensures T.Count(g'.Out(u), v) == T.Count(g'.In(v), u)
    {
      assert T.Count(g.Out(u), v) == T.Count(g.In(v), u);
      CountGrows(g.Out(u), t, u == s, g'.Out(u), v);
      CountGrows(g.In(v), s, v == t, g'.In(v), u);
    }
    EdgeEndsAreNodes(g, g', s, t);
  }

  lemma EdgeEndsAreNodes(g: T.Graph, g': T.Graph, s: Id, t: Id)
    requires g.Valid() && g'.nodes == g.nodes && s in g.nodes && t in g.nodes
    requires forall u :: g'.Out(u) == g.Out(u) + if u == s then [t] else []
    ensures forall u :: g'.Out(u) != [] ==> u in g'.nodes
    ensures forall u, v :: v in g'.Out(u) ==> v in g'.nodes
  {
  }

  lemma NodeKeepsValid(g: T.Graph, g': T.Graph, id: Id)
    requires g.Valid() && g'.ins == g.ins && g'.outs == g.outs
    requires g'.nodes == if id in g.nodes then g.nodes else g.nodes + [id]
    ensures g'.Valid()
  {
    assert forall v :: g'.Out(v) == g.Out(v) && g'.In(v) == g.In(v);
    forall u, v
      ensures T.Count(g'.Out(u), v) == T.Count(g'.In(v), u)
    {
      assert T.Count(g.Out(u), v) == T.Count(g.In(v), u);
    }
    forall u | g'.Out(u) != []
      ensures u in g'.nodes
    {
      assert g.Out(u) != [];
    }
  }
}
