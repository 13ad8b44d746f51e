// The order in which a workflow runs its nodes (core/workflow_engine.py, _topological_order).
//
// The graph keeps its nodes in insertion order and every edge twice, in the out-list of its source
// and in the in-list of its target; parallel edges are kept.  The order is Kahn's: whatever the
// graph, cyclic or not, it lists exactly the nodes that no cycle leads to, each after all its
// predecessors.
module Topology {

  type Id = string

  datatype Graph = Graph(nodes: seq<Id>, ins: map<Id, seq<Id>>, outs: map<Id, seq<Id>>) {
    function In(v: Id): seq<Id> { if v in ins then ins[v] else [] }

    function Out(u: Id): seq<Id> { if u in outs then outs[u] else [] }

    // What add_node and add_edge maintain: distinct nodes, edges between nodes, both lists agree.
    ghost predicate Valid() {
      && NoDup(nodes)
      && (forall u :: Out(u) != [] ==> u in nodes)
      && (forall u, v :: v in Out(u) ==> v in nodes)
      && (forall u, v :: Count(Out(u), v) == Count(In(v), u))
    }

    predicate Edge(u: Id, v: Id) { u in In(v) }
  }

  ghost predicate NoDup(s: seq<Id>) {
    forall i, j :: 0 <= i < j < |s| ==> s[i] != s[j]
  }

  function Count(s: seq<Id>, x: Id): nat {
    if s == [] then 0 else (if s[0] == x then 1 else 0) + Count(s[1..], x)
  }

  lemma {:induction false} CountPositive(s: seq<Id>, x: Id)
    ensures Count(s, x) > 0 <==> x in s
  {
    if s != [] {
      assert s == [s[0]] + s[1..];
      CountPositive(s[1..], x);
    }
  }

  // Occurrences in `s` of ids outside `gone`.
  function Pending(s: seq<Id>, gone: set<Id>): nat {
    if s == [] then 0 else (if s[0] in gone then 0 else 1) + Pending(s[1..], gone)
  }

  lemma {:induction false} PendingDrops(s: seq<Id>, gone: set<Id>, u: Id)
    requires u !in gone
    ensures Pending(s, gone) == Pending(s, gone + {u}) + Count(s, u)
  {
    if s != [] {
      PendingDrops(s[1..], gone, u);
    }
  }

  lemma {:induction false} PendingZero(s: seq<Id>, gone: set<Id>)
    ensures Pending(s, gone) == 0 <==> forall u :: u in s ==> u in gone
  {
    if s != [] {
      assert s == [s[0]] + s[1..];
      PendingZero(s[1..], gone);
    }
  }

  lemma {:induction false} PendingAll(s: seq<Id>)
    ensures Pending(s, {}) == |s|
  {
    if s != [] { PendingAll(s[1..]); }
  }

  // ---------------------------------------------------------------------------------------------
  // The algorithm on values
  // ---------------------------------------------------------------------------------------------

  function Degree(d: map<Id, int>, v: Id): int { if v in d then d[v] else 0 }

  // One pass over the successors of a node: decrement, and queue those that reach zero.
  function Relax(succs: seq<Id>, queue: seq<Id>, d: map<Id, int>): (seq<Id>, map<Id, int>)
    decreases |succs|
  {
    if succs == [] then (queue, d)
    else
      var v := succs[0];
      var d' := d[v := Degree(d, v) - 1];
      Relax(succs[1..], if d'[v] == 0 then queue + [v] else queue, d')
  }

  function Positive(d: map<Id, int>): set<Id> {
    set v | v in d && d[v] > 0
  }

  // Each queued id was taken from the ids of positive degree: their number together never changes.
  lemma {:induction false} RelaxBalance(succs: seq<Id>, queue: seq<Id>, d: map<Id, int>)
    ensures var r := Relax(succs, queue, d);
            |r.0| + |Positive(r.1)| == |queue| + |Positive(d)|
    decreases |succs|
  {
    if succs != [] {
      var v := succs[0];
      var d' := d[v := Degree(d, v) - 1];
      if Degree(d, v) == 1 {
        assert Positive(d') == Positive(d) - {v};
      } else {
        assert Positive(d') == Positive(d);
      }
      RelaxBalance(succs[1..], if d'[v] == 0 then queue + [v] else queue, d');
    }
  }

  function Kahn(g: Graph, queue: seq<Id>, d: map<Id, int>): seq<Id>
    decreases |queue| + |Positive(d)|
  {
    if queue == [] then []
    else
      RelaxBalance(g.Out(queue[0]), queue[1..], d);
      var (queue', d') := Relax(g.Out(queue[0]), queue[1..], d);
      [queue[0]] + Kahn(g, queue', d')
  }

  function Degrees(g: Graph): map<Id, int> {
    map v | v in g.nodes :: |g.In(v)|
  }

  function Sources(g: Graph, nodes: seq<Id>): seq<Id> {
    if nodes == [] then []
    else if g.In(nodes[0]) == [] then [nodes[0]] + Sources(g, nodes[1..])
    else Sources(g, nodes[1..])
  }

  function Order(g: Graph): seq<Id> {
    Kahn(g, Sources(g, g.nodes), Degrees(g))
  }

  // ---------------------------------------------------------------------------------------------
  // What every step keeps
  // ---------------------------------------------------------------------------------------------

  function Elems(s: seq<Id>): set<Id> { set x | x in s }

  // `todo` is what remains to be taken off the degrees while a node is being relaxed.
  ghost predicate DegreesRight(g: Graph, done: seq<Id>, d: map<Id, int>, todo: seq<Id>) {
    forall v :: v in g.nodes ==> v in d && d[v] == Pending(g.In(v), Elems(done)) + Count(todo, v)
  }

  ghost predicate QueueRight(g: Graph, done: seq<Id>, queue: seq<Id>, d: map<Id, int>) {
    && NoDup(done + queue)
    && (forall v :: v in done + queue ==> v in g.nodes)
    && (forall v :: v in g.nodes && v in d ==> (v in done + queue <==> d[v] == 0))
  }

  // Every listed node comes after all its predecessors.
  ghost predicate Ordered(g: Graph, done: seq<Id>) {
    forall i, u :: 0 <= i < |done| && g.Edge(u, done[i]) ==> u in done[..i]
  }

  lemma RelaxOne(g: Graph, done: seq<Id>, v: Id, rest: seq<Id>, queue: seq<Id>, d: map<Id, int>, d': map<Id, int>, queue': seq<Id>)
    requires v in g.nodes && DegreesRight(g, done, d, [v] + rest) && QueueRight(g, done, queue, d)
    requires d' == d[v := d[v] - 1] && queue' == if d'[v] == 0 then queue + [v] else queue
    ensures DegreesRight(g, done, d', rest) && QueueRight(g, done, queue', d')
  {
    assert ([v] + rest)[1..] == rest;
    assert d[v] > 0 && v !in done + queue;
    if d'[v] == 0 {
      assert done + queue' == (done + queue) + [v];
    }
  }

  lemma {:induction false} RelaxKeeps(g: Graph, done: seq<Id>, succs: seq<Id>, queue: seq<Id>, d: map<Id, int>)
    requires forall v :: v in succs ==> v in g.nodes
    requires DegreesRight(g, done, d, succs) && QueueRight(g, done, queue, d)
    ensures var r := Relax(succs, queue, d);
            DegreesRight(g, done, r.1, []) && QueueRight(g, done, r.0, r.1)
    decreases |succs|
  {
    if succs != [] {
      var v := succs[0];
      assert succs == [v] + succs[1..];
      var d' := d[v := Degree(d, v) - 1];
      var queue' := if d'[v] == 0 then queue + [v] else queue;
      RelaxOne(g, done, v, succs[1..], queue, d, d', queue');
      RelaxKeeps(g, done, succs[1..], queue', d');
    }
  }

  // Taking the head off the queue: its out-list is exactly what its targets still have to lose.
  lemma HeadTaken(g: Graph, done: seq<Id>, queue: seq<Id>, d: map<Id, int>)
    requires g.Valid() && queue != []
    requires DegreesRight(g, done, d, []) && QueueRight(g, done, queue, d)
    ensures DegreesRight(g, done + [queue[0]], d, g.Out(queue[0]))
    ensures QueueRight(g, done + [queue[0]], queue[1..], d)
    ensures forall v :: v in g.Out(queue[0]) ==> v in g.nodes
  {
    var u := queue[0];
    assert done + queue == (done + [u]) + queue[1..];
    assert u !in Elems(done) by {
      assert (done + queue)[|done|] == u;
      assert forall i :: 0 <= i < |done| ==> (done + queue)[i] == done[i];
    }
    assert Elems(done + [u]) == Elems(done) + {u};
    forall v | v in g.nodes
      ensures d[v] == Pending(g.In(v), Elems(done + [u])) + Count(g.Out(u), v)
    {
      PendingDrops(g.In(v), Elems(done), u);
    }
  }

  lemma HeadIsReady(g: Graph, done: seq<Id>, queue: seq<Id>, d: map<Id, int>)
    requires queue != [] && Ordered(g, done)
    requires DegreesRight(g, done, d, []) && QueueRight(g, done, queue, d)
    ensures Ordered(g, done + [queue[0]])
  {
    var u, done' := queue[0], done + [queue[0]];
    assert u in done + queue && d[u] == 0;
    PendingZero(g.In(u), Elems(done));
    forall i, w | 0 <= i < |done'| && g.Edge(w, done'[i])
      ensures w in done'[..i]
    {
      if i < |done| {
        assert done'[..i] == done[..i];
      } else {
        assert done'[..i] == done && w in Elems(done);
      }
    }
  }

  ghost predicate Inv(g: Graph, done: seq<Id>, queue: seq<Id>, d: map<Id, int>) {
    Ordered(g, done) && DegreesRight(g, done, d, []) && QueueRight(g, done, queue, d)
  }

  // What the finished order must be: distinct nodes, predecessors first, and a missing predecessor
  // for every node left out.
  ghost predicate Complete(g: Graph, order: seq<Id>) {
    && NoDup(order) && Ordered(g, order)
    && (forall v :: v in order ==> v in g.nodes)
    && (forall v :: v in g.nodes && v !in order ==> exists u :: g.Edge(u, v) && u !in order)
  }

  lemma {:induction false} KahnStep(g: Graph, done: seq<Id>, queue: seq<Id>, d: map<Id, int>)
    requires g.Valid() && Inv(g, done, queue, d) && queue != []
    ensures var r := Relax(g.Out(queue[0]), queue[1..], d);
            Inv(g, done + [queue[0]], r.0, r.1)
  {
    HeadTaken(g, done, queue, d);
    HeadIsReady(g, done, queue, d);
    RelaxKeeps(g, done + [queue[0]], g.Out(queue[0]), queue[1..], d);
  }

  lemma KahnStops(g: Graph, done: seq<Id>, d: map<Id, int>)
    requires Inv(g, done, [], d)
    ensures Complete(g, done)
  {
    assert done + [] == done;
    forall v | v in g.nodes && v !in done
      ensures exists u :: g.Edge(u, v) && u !in done
    {
      PendingZero(g.In(v), Elems(done));
    }
  }

  lemma Shift(a: seq<Id>, u: Id, b: seq<Id>)
    ensures a + ([u] + b) == (a + [u]) + b
  {
  }

  lemma {:induction false} KahnRuns(g: Graph, done: seq<Id>, queue: seq<Id>, d: map<Id, int>)
    requires g.Valid() && Inv(g, done, queue, d)
    ensures Complete(g, done + Kahn(g, queue, d))
    decreases |queue| + |Positive(d)|
  {
    if queue == [] {
      KahnStops(g, done, d);
      assert done + Kahn(g, queue, d) == done;
    } else {
      var u, succs, rest := queue[0], g.Out(queue[0]), queue[1..];
      RelaxBalance(succs, rest, d);
      var r := Relax(succs, rest, d);
      Shift(done, u, Kahn(g, r.0, r.1));
      KahnStep(g, done, queue, d);
      KahnRuns(g, done + [u], r.0, r.1);
    }
  }

  lemma {:induction false} SourcesRight(g: Graph, nodes: seq<Id>)
    requires NoDup(nodes)
    ensures NoDup(Sources(g, nodes))
    ensures forall v :: v in Sources(g, nodes) <==> v in nodes && g.In(v) == []
  {
    if nodes != [] {
      assert nodes == [nodes[0]] + nodes[1..];
      SourcesRight(g, nodes[1..]);
      assert nodes[0] !in nodes[1..];
    }
  }

  lemma {:induction false} StartRight(g: Graph)
    requires g.Valid()
    ensures Inv(g, [], Sources(g, g.nodes), Degrees(g))
  {
    SourcesRight(g, g.nodes);
    assert [] + Sources(g, g.nodes) == Sources(g, g.nodes);
    assert Elems([]) == {};
    forall v | v in g.nodes
      ensures Degrees(g)[v] == Pending(g.In(v), Elems([]))
    {
      PendingAll(g.In(v));
    }
  }

  lemma {:induction false} RelaxKeepsQueue(succs: seq<Id>, queue: seq<Id>, d: map<Id, int>)
    ensures queue <= Relax(succs, queue, d).0
    decreases |succs|
  {
    if succs != [] {
      var v := succs[0];
      var d' := d[v := Degree(d, v) - 1];
      RelaxKeepsQueue(succs[1..], if d'[v] == 0 then queue + [v] else queue, d');
    }
  }

  lemma {:induction false} QueueComesFirst(g: Graph, queue: seq<Id>, d: map<Id, int>)
    ensures queue <= Kahn(g, queue, d)
    decreases |queue| + |Positive(d)|
  {
    if queue != [] {
      var r := Relax(g.Out(queue[0]), queue[1..], d);
      RelaxKeepsQueue(g.Out(queue[0]), queue[1..], d);
      RelaxBalance(g.Out(queue[0]), queue[1..], d);
      QueueComesFirst(g, r.0, r.1);
      PrefixThrough(queue, r.0, Kahn(g, r.0, r.1));
    }
  }

  lemma PrefixThrough(queue: seq<Id>, next: seq<Id>, rest: seq<Id>)
    requires queue != [] && queue[1..] <= next <= rest
    ensures queue <= [queue[0]] + rest
  {
  }

  // ---------------------------------------------------------------------------------------------
  // Main results on the order
  // ---------------------------------------------------------------------------------------------

  // A walk along edges.
  ghost predicate Walk(g: Graph, w: seq<Id>) {
    w != [] && forall i :: 0 <= i < |w| - 1 ==> g.Edge(w[i], w[i + 1])
  }

  // v lies on a cycle or can be reached from one: some walk into v meets a node twice.
  ghost predicate FedByCycle(g: Graph, v: Id) {
    exists w :: Walk(g, w) && w[|w| - 1] == v && !NoDup(w)
  }

  // The order has no repeats and lists every node after all its predecessors.
  lemma OrderSound(g: Graph)
    requires g.Valid()
    ensures Complete(g, Order(g))
  {
    StartRight(g);
    KahnRuns(g, [], Sources(g, g.nodes), Degrees(g));
    assert [] + Order(g) == Order(g);
  }

  // Nodes without predecessors come first, in the order in which they were added.
  lemma {:induction false} SourcesComeFirst(g: Graph)
    requires g.Valid()
    ensures Sources(g, g.nodes) <= Order(g)
    ensures forall v :: v in Sources(g, g.nodes) <==> v in g.nodes && forall u :: !g.Edge(u, v)
  {
    QueueComesFirst(g, Sources(g, g.nodes), Degrees(g));
    SourcesRight(g, g.nodes);
    forall v | v in g.nodes && g.In(v) != []
      ensures exists u :: g.Edge(u, v)
    {
      assert g.Edge(g.In(v)[0], v);
    }
  }

  // Walking into a listed node goes strictly forward in the order.
  lemma {:induction false} WalkGoesForward(g: Graph, order: seq<Id>, w: seq<Id>, k: nat)
    requires NoDup(order) && Ordered(g, order)
    requires Walk(g, w) && k < |order| && w[|w| - 1] == order[k]
    ensures NoDup(w) && forall i :: 0 <= i < |w| ==> w[i] in order[..k + 1]
    decreases |w|
  {
    if |w| > 1 {
      var n := |w| - 1;
      var w' := w[..n];
      assert g.Edge(w[n - 1], w[n - 1 + 1]);
      assert w[n - 1] in order[..k];
      var j :| 0 <= j < k && order[j] == w[n - 1];
      assert Walk(g, w') by {
        forall i | 0 <= i < |w'| - 1
          ensures g.Edge(w'[i], w'[i + 1])
        {
          assert g.Edge(w[i], w[i + 1]);
        }
      }
      WalkGoesForward(g, order, w', j);
      forall i | 0 <= i < n
        ensures w[i] in order[..k] && w[i] != w[n]
      {
        assert w[i] == w'[i] && w'[i] in order[..j + 1];
        var m :| 0 <= m < j + 1 && order[m] == w[i];
      }
    }
  }

  lemma EdgeFromNode(g: Graph, u: Id, v: Id)
    requires g.Valid() && g.Edge(u, v)
    ensures u in g.nodes
  {
    CountPositive(g.In(v), u);
    CountPositive(g.Out(u), v);
    assert Count(g.Out(u), v) == Count(g.In(v), u);
  }

  lemma WalkExtends(g: Graph, w: seq<Id>, v: Id)
    requires Walk(g, w) && g.Edge(w[|w| - 1], v)
    ensures Walk(g, w + [v])
  {
  }

  // From an omitted node one can walk back through omitted nodes for ever.
  lemma {:induction false} WalkBack(g: Graph, order: seq<Id>, v: Id, n: nat) returns (w: seq<Id>)
    requires g.Valid() && v in g.nodes && v !in order
    requires forall x :: x in g.nodes && x !in order ==> exists u :: g.Edge(u, x) && u !in order
    ensures |w| == n + 1 && Walk(g, w) && w[n] == v
    ensures forall i :: 0 <= i < |w| ==> w[i] in g.nodes
    decreases n
  {
    if n == 0 {
      w := [v];
    } else {
      var u :| g.Edge(u, v) && u !in order;
      EdgeFromNode(g, u, v);
      var w' := WalkBack(g, order, u, n - 1);
      WalkExtends(g, w', v);
      w := w' + [v];
    }
  }

  lemma {:induction false} Pigeonhole(w: seq<Id>, s: set<Id>)
    requires forall i :: 0 <= i < |w| ==> w[i] in s
    requires NoDup(w)
    ensures |w| <= |s|
  {
    if w != [] {
      var n := |w| - 1;
      Pigeonhole(w[..n], s - {w[n]});
    }
  }

  // The order omits a node exactly when a cycle leads to it; in particular it lists every node of
  // the graph exactly when the graph has no cycle.
  lemma OmittedExactlyBehindCycles(g: Graph, v: Id)
    requires g.Valid() && v in g.nodes
    ensures v !in Order(g) <==> FedByCycle(g, v)
  {
    OrderSound(g);
    if v in Order(g) {
      var k :| 0 <= k < |Order(g)| && Order(g)[k] == v;
      forall w | Walk(g, w) && w[|w| - 1] == v
        ensures NoDup(w)
      {
        WalkGoesForward(g, Order(g), w, k);
      }
    } else {
      var s := Elems(g.nodes);
      var w := WalkBack(g, Order(g), v, |s|);
      if NoDup(w) { Pigeonhole(w, s); }
    }
  }

  lemma AcyclicListsEveryNode(g: Graph)
    requires g.Valid()
    ensures (forall v :: v in g.nodes ==> v in Order(g)) <==> (forall w :: Walk(g, w) && w[|w| - 1] in g.nodes ==> NoDup(w))
  {
    forall v | v in g.nodes
      ensures v !in Order(g) <==> FedByCycle(g, v)
    {
      OmittedExactlyBehindCycles(g, v);
    }
    if forall v :: v in g.nodes ==> v in Order(g) {
      forall w | Walk(g, w) && w[|w| - 1] in g.nodes
        ensures NoDup(w)
      {
        assert !FedByCycle(g, w[|w| - 1]);
      }
    }
  }
}
