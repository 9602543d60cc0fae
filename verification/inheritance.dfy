/** `InheritanceAnalyzer` in codegen.py: a directed graph with an edge from each
    subtype to its supertype, an emission order and a parent lookup.

    The graph is modelled as networkx keeps one: nodes in insertion order, each
    node's successors in the order their first edge was added, a repeated edge
    added once. The topological sort is networkx's: Kahn's algorithm that emits
    the nodes without predecessors in node order and then, taking emitted nodes
    in turn, emits each successor whose last predecessor has just been emitted;
    it fails when a cycle leaves nodes unemitted. */
module Inheritance {
  import opened Wrappers
  import opened PyStrings
  import opened Grammar

  datatype Graph = Graph(nodes: seq<string>, edges: seq<(string, string)>)

  predicate WellFormed(g: Graph) {
    Distinct(g.nodes) &&
    forall e :: e in g.edges ==> e.0 in g.nodes && e.1 in g.nodes
  }

  /** The edges for one supertype entry: one per listed subtype that is itself
      a key of the table. */
  function SubtypeEdges(keys: seq<string>, sup: string, subtypes: seq<string>): (r: seq<(string, string)>)
    ensures forall e :: e in r <==> e.1 == sup && e.0 in subtypes && e.0 in keys
    decreases |subtypes|
  {
    if |subtypes| == 0 then []
    else
      var rest := SubtypeEdges(keys, sup, subtypes[1..]);
      assert forall x :: x in subtypes <==> x == subtypes[0] || x in subtypes[1..];
      if subtypes[0] in keys then [(subtypes[0], sup)] + rest else rest
  }

  /** The edges added while walking the table's values in key order. */
  function EdgesFrom(specs: seq<NodeSpec>, keys: seq<string>, todo: seq<string>): (r: seq<(string, string)>)
    requires forall t :: t in todo ==> t in Types(specs)
    ensures forall e :: e in r ==> e.1 in todo && e.0 in keys
    decreases |todo|
  {
    if |todo| == 0 then []
    else
      var sup := todo[0];
      var spec := SpecFor(specs, sup);
      var mine := match spec.subtypes
        case None => []
        case Some(subs) => SubtypeEdges(keys, sup, subs);
      var rest := EdgesFrom(specs, keys, todo[1..]);
      assert forall x :: x in todo <==> x == todo[0] || x in todo[1..];
      mine + rest
  }

  /** An edge is added exactly for a listed subtype of a walked entry that is
      itself a key. */
  lemma {:induction false} EdgesFromMembers(specs: seq<NodeSpec>, keys: seq<string>, todo: seq<string>)
    requires forall t :: t in todo ==> t in Types(specs)
    ensures forall e :: e in EdgesFrom(specs, keys, todo) <==>
      (e.1 in todo && SpecFor(specs, e.1).subtypes.Some? &&
       e.0 in SpecFor(specs, e.1).subtypes.value && e.0 in keys)
    decreases |todo|
  {
    if |todo| > 0 {
      var sup := todo[0];
      EdgesFromMembers(specs, keys, todo[1..]);
      assert forall x :: x in todo <==> x == sup || x in todo[1..];
    }
  }

  /** The analyzer's graph: one node per table key, an edge sub -> sup exactly
      when entry `sup` lists `sub` among its subtypes and `sub` is a key. */
  function BuildGraph(specs: seq<NodeSpec>): (g: Graph)
    ensures WellFormed(g)
    ensures g.nodes == SpecKeys(specs)
  {
    var keys := SpecKeys(specs);
    Graph(keys, EdgesFrom(specs, keys, keys))
  }

  /** The graph's edges, entry by entry. */
  lemma BuildGraphEdges(specs: seq<NodeSpec>)
    ensures var g := BuildGraph(specs);
      forall sub, sup :: (sub, sup) in g.edges <==>
        (sup in g.nodes && sub in g.nodes && SpecFor(specs, sup).subtypes.Some? &&
         sub in SpecFor(specs, sup).subtypes.value)
  {
    var keys := SpecKeys(specs);
    EdgesFromMembers(specs, keys, keys);
  }

  /** Targets of the edges leaving `a`, in insertion order, repeats included. */
  function Targets(edges: seq<(string, string)>, a: string): (r: seq<string>)
    ensures forall x :: x in r <==> (a, x) in edges
    decreases |edges|
  {
    if |edges| == 0 then []
    else
      var rest := Targets(edges[1..], a);
      assert forall e :: e in edges <==> e == edges[0] || e in edges[1..];
      if edges[0].0 == a then [edges[0].1] + rest else rest
  }

  /** `graph.successors(a)`: each target once, in the order first added. */
  function Successors(g: Graph, a: string): (r: seq<string>)
    ensures Distinct(r)
    ensures forall x :: x in r <==> (a, x) in g.edges
  {
    Dedup(Targets(g.edges, a))
  }

  /** `get_parent`: the first successor, if any. */
  function GetParent(g: Graph, a: string): (r: Option<string>)
    ensures r.None? <==> forall x :: (a, x) !in g.edges
    ensures r.Some? ==> (a, r.value) in g.edges
    ensures r.Some? ==> r.value == Targets(g.edges, a)[0]
  {
    var s := Successors(g, a);
    if |s| == 0 then None
    else
      assert (a, s[0]) in g.edges;
      Some(s[0])
  }

  // ---------------------------------------------------------------------
  // Topological order and cycles
  // ---------------------------------------------------------------------

  /** Every predecessor of `c` is among `done`. */
  predicate Ready(g: Graph, c: string, done: seq<string>) {
    forall e :: e in g.edges && e.1 == c ==> e.0 in done
  }

  /** A non-empty set of nodes each of which has a predecessor in the set. */
  ghost predicate Cyclic(g: Graph, s: set<string>) {
    s != {} &&
    (forall v :: v in s ==> v in g.nodes) &&
    (forall v :: v in s ==> exists p :: p in s && (p, v) in g.edges)
  }

  ghost predicate HasCycle(g: Graph) {
    exists s :: Cyclic(g, s)
  }

  /** Every node exactly once, each after all its predecessors. */
  ghost predicate IsTopoOrder(g: Graph, o: seq<string>) {
    Distinct(o) &&
    (forall x :: x in o <==> x in g.nodes) &&
    (forall i, j :: 0 <= i <= j < |o| ==> (o[j], o[i]) !in g.edges)
  }

  lemma FirstIn(o: seq<string>, s: set<string>) returns (k: nat)
    requires exists x :: x in s && x in o
    ensures k < |o| && o[k] in s
    ensures forall m :: 0 <= m < k ==> o[m] !in s
  {
    var x :| x in s && x in o;
    var m0 :| 0 <= m0 < |o| && o[m0] == x;
    k := 0;
    while o[k] !in s
      invariant k <= m0
      invariant forall m :: 0 <= m < k ==> o[m] !in s
      decreases m0 - k
    {
      k := k + 1;
    }
  }

  ghost predicate NodeSet(g: Graph, s: set<string>) {
    s != {} && forall v :: v in s ==> v in g.nodes
  }

  /** The earliest member of a node set, in a topological order, has no
      predecessor in the set. */
  lemma EarliestHasNoPred(g: Graph, o: seq<string>, s: set<string>)
    requires IsTopoOrder(g, o) && NodeSet(g, s)
    ensures !Cyclic(g, s)
  {
    var x :| x in s;
    var k := FirstIn(o, s);
    forall p | p in s
      ensures (p, o[k]) !in g.edges
    {
      var m :| 0 <= m < |o| && o[m] == p;
      assert k <= m;
    }
  }

  /** A graph with a topological order has no cycle. */
  lemma TopoOrderAcyclic(g: Graph, o: seq<string>)
    requires IsTopoOrder(g, o)
    ensures !HasCycle(g)
  {
    forall s
      ensures !Cyclic(g, s)
    {
      if NodeSet(g, s) {
        EarliestHasNoPred(g, o, s);
      }
    }
  }

  /** Every emitted node comes after all of its predecessors. */
  ghost predicate PredsBefore(g: Graph, out: seq<string>) {
    forall k, e :: 0 <= k < |out| && e in g.edges && e.1 == out[k] ==> e.0 in out[..k]
  }

  /** Every node queued behind position `i` is ready once `out[..i]` is done. */
  ghost predicate QueuedReady(g: Graph, out: seq<string>, i: nat)
    requires i <= |out|
  {
    forall k :: i <= k < |out| ==> Ready(g, out[k], out[..i])
  }

  /** Every node not yet emitted still waits for a predecessor outside `done`. */
  ghost predicate Blocked(g: Graph, out: seq<string>, done: seq<string>) {
    forall v {:trigger Ready(g, v, done)} :: v in g.nodes && v !in out ==> !Ready(g, v, done)
  }

  /** What holds of the emitted sequence before processing position `i`. */
  ghost predicate KahnInv(g: Graph, out: seq<string>, i: nat) {
    i <= |out| && Distinct(out) && (forall x :: x in out ==> x in g.nodes) &&
    PredsBefore(g, out) && QueuedReady(g, out, i) && Blocked(g, out, out[..i])
  }

  /** A successor of the node being processed is not emitted yet. */
  lemma SuccessorNotEmitted(g: Graph, out: seq<string>, i: nat, c: string)
    requires i < |out| && Distinct(out)
    requires PredsBefore(g, out) && QueuedReady(g, out, i)
    requires (out[i], c) in g.edges
    ensures c !in out
  {
    forall k | 0 <= k < |out|
      ensures out[k] != c
    {
      if k <= i {
        assert out[i] !in out[..k];
      } else {
        assert Ready(g, out[k], out[..i]);
        assert out[i] !in out[..i];
      }
    }
  }

  /** Emitting a node whose predecessors all lie in a prefix keeps them before it. */
  lemma PredsAppend(g: Graph, out: seq<string>, n: nat, c: string)
    requires n <= |out| && PredsBefore(g, out) && Ready(g, c, out[..n])
    ensures PredsBefore(g, out + [c])
  {
    var o := out + [c];
    forall k, e | 0 <= k < |o| && e in g.edges && e.1 == o[k]
      ensures e.0 in o[..k]
    {
      if k < |out| {
        assert o[..k] == out[..k];
      } else {
        assert e.0 in out[..n];
        assert o[..k] == out;
      }
    }
  }

  /** The nodes without predecessors, in node order. */
  method Sources(g: Graph) returns (out: seq<string>)
    requires WellFormed(g)
    ensures Distinct(out)
    ensures forall x :: x in out <==> x in g.nodes && Ready(g, x, [])
  {
    out := [];
    var n := 0;
    while n < |g.nodes|
      invariant 0 <= n <= |g.nodes|
      invariant Distinct(out)
      invariant forall x :: x in out <==> x in g.nodes[..n] && Ready(g, x, [])
    {
      var v := g.nodes[n];
      assert forall x :: x in g.nodes[..n + 1] <==> x in g.nodes[..n] || x == v;
      if Ready(g, v, []) {
        assert v !in g.nodes[..n];
        out := out + [v];
      }
      n := n + 1;
    }
    assert g.nodes[..n] == g.nodes;
  }

  /** The nodes blocked at the start of processing `out[i]` stay blocked after
      it, unless they are successors of `out[i]`. */
  lemma BlockedStep(g: Graph, out: seq<string>, i: nat, succ: seq<string>)
    requires i < |out| && Blocked(g, out, out[..i])
    requires forall x :: x in succ <==> (out[i], x) in g.edges
    ensures forall v :: v in g.nodes && v !in out && v !in succ ==> !Ready(g, v, out[..i + 1])
  {
    assert out[..i + 1] == out[..i] + [out[i]];
    forall v | v in g.nodes && v !in out && v !in succ
      ensures !Ready(g, v, out[..i + 1])
    {
      assert !Ready(g, v, out[..i]);
      var e :| e in g.edges && e.1 == v && e.0 !in out[..i];
      assert e.0 != out[i];
    }
  }

  /** What holds after the first `j` successors of `out[i]` were considered:
      `res` extends `out`, and every node that stays unemitted and is not a later
      successor still waits on a node outside `out[..i + 1]`. */
  ghost predicate VisitInv(g: Graph, out: seq<string>, i: nat, succ: seq<string>, j: nat, res: seq<string>) {
    i < |out| && j <= |succ| && |out| <= |res| && res[..|out|] == out &&
    Distinct(res) && (forall x :: x in res ==> x in g.nodes) && PredsBefore(g, res) &&
    (forall k :: i + 1 <= k < |res| ==> Ready(g, res[k], out[..i + 1])) &&
    (forall m :: j <= m < |succ| ==> succ[m] !in res) &&
    (forall m :: 0 <= m < j ==> succ[m] in res || !Ready(g, succ[m], out[..i + 1])) &&
    (forall v :: v in g.nodes && v !in res && v !in succ ==> !Ready(g, v, out[..i + 1]))
  }

  lemma VisitInit(g: Graph, out: seq<string>, i: nat, succ: seq<string>)
    requires KahnInv(g, out, i) && i < |out|
    requires forall x :: x in succ <==> (out[i], x) in g.edges
    ensures VisitInv(g, out, i, succ, 0, out)
  {
    forall c | c in succ ensures c !in out {
      SuccessorNotEmitted(g, out, i, c);
    }
    BlockedStep(g, out, i, succ);
    forall k | i + 1 <= k < |out| ensures Ready(g, out[k], out[..i + 1]) {
      assert Ready(g, out[k], out[..i]);
      assert forall x :: x in out[..i] ==> x in out[..i + 1];
    }
  }

  lemma VisitEmit(g: Graph, out: seq<string>, i: nat, succ: seq<string>, j: nat, res: seq<string>)
    requires WellFormed(g) && Distinct(succ)
    requires VisitInv(g, out, i, succ, j, res) && j < |succ|
    requires forall x :: x in succ ==> (out[i], x) in g.edges
    requires Ready(g, succ[j], out[..i + 1])
    ensures VisitInv(g, out, i, succ, j + 1, res + [succ[j]])
  {
    var c := succ[j];
    assert res[..i + 1] == out[..i + 1];
    PredsAppend(g, res, i + 1, c);
    assert (res + [c])[..|out|] == res[..|out|];
    assert c in g.nodes;
  }

  lemma VisitSkip(g: Graph, out: seq<string>, i: nat, succ: seq<string>, j: nat, res: seq<string>)
    requires VisitInv(g, out, i, succ, j, res) && j < |succ|
    requires !Ready(g, succ[j], out[..i + 1])
    ensures VisitInv(g, out, i, succ, j + 1, res)
  {
  }

  lemma VisitDone(g: Graph, out: seq<string>, i: nat, succ: seq<string>, res: seq<string>)
    requires VisitInv(g, out, i, succ, |succ|, res)
    ensures KahnInv(g, res, i + 1)
  {
    assert res[..i + 1] == out[..i + 1];
    forall v | v in g.nodes && v !in res
      ensures !Ready(g, v, res[..i + 1])
    {
      if v in succ {
        var m :| 0 <= m < |succ| && succ[m] == v;
      }
    }
  }

  /** One round of Kahn's algorithm: emit each successor of `out[i]` whose
      predecessors are all among `out[..i + 1]`. */
  method Visit(g: Graph, out: seq<string>, i: nat) returns (res: seq<string>)
    requires WellFormed(g) && KahnInv(g, out, i) && i < |out|
    ensures KahnInv(g, res, i + 1)
    ensures |out| <= |res| && res[..|out|] == out
  {
    var succ := Successors(g, out[i]);
    var done := out[..i + 1];
    VisitInit(g, out, i, succ);
    res := out;
    var j := 0;
    while j < |succ|
      invariant VisitInv(g, out, i, succ, j, res)
    {
      if Ready(g, succ[j], done) {
        VisitEmit(g, out, i, succ, j, res);
        res := res + [succ[j]];
      } else {
        VisitSkip(g, out, i, succ, j, res);
      }
      j := j + 1;
    }
    VisitDone(g, out, i, succ, res);
  }

  /** A complete emission is a topological order. */
  lemma CompleteIsTopo(g: Graph, out: seq<string>)
    requires WellFormed(g) && Distinct(out) && |out| == |g.nodes|
    requires forall x :: x in out ==> x in g.nodes
    requires PredsBefore(g, out)
    ensures IsTopoOrder(g, out)
  {
    DistinctSubset(out, g.nodes);
    forall a, b | 0 <= a <= b < |out|
      ensures (out[b], out[a]) !in g.edges
    {
      assert out[b] !in out[..a];
    }
  }

  /** The nodes left unemitted, when each of them waits on another, form a cycle. */
  lemma StuckCyclic(g: Graph, out: seq<string>, stuck: set<string>)
    requires WellFormed(g) && Blocked(g, out, out) && stuck != {}
    requires forall v :: v in stuck <==> v in g.nodes && v !in out
    ensures Cyclic(g, stuck)
  {
    forall v | v in stuck
      ensures exists p :: p in stuck && (p, v) in g.edges
    {
      assert !Ready(g, v, out);
      var e :| e in g.edges && e.1 == v && e.0 !in out;
      assert e.0 in stuck;
    }
  }

  lemma KahnStart(g: Graph, out: seq<string>)
    requires Distinct(out)
    requires forall x :: x in out <==> x in g.nodes && Ready(g, x, [])
    ensures KahnInv(g, out, 0)
  {
    assert out[..0] == [];
    forall k | 0 <= k < |out| ensures Ready(g, out[k], []) {
      assert out[k] in out;
    }
  }

  /** When the queue runs dry, the emission is complete exactly when the graph
      has no cycle, and a complete emission is a topological order. */
  lemma KahnEnd(g: Graph, out: seq<string>)
    requires WellFormed(g) && KahnInv(g, out, |out|)
    ensures |out| == |g.nodes| ==> IsTopoOrder(g, out)
    ensures |out| == |g.nodes| <==> !HasCycle(g)
  {
    assert out[..|out|] == out;
    DistinctSubset(out, g.nodes);
    if |out| == |g.nodes| {
      CompleteIsTopo(g, out);
      TopoOrderAcyclic(g, out);
    } else {
      DistinctMissing(out, g.nodes);
      var w :| w in g.nodes && w !in out;
      var stuck := set v | v in g.nodes && v !in out;
      assert w in stuck;
      StuckCyclic(g, out, stuck);
    }
  }

  /** networkx's `topological_sort`: `Some` order exactly when the graph has
      no cycle. */
  method TopologicalSort(g: Graph) returns (r: Option<seq<string>>)
    requires WellFormed(g)
    ensures r.Some? ==> IsTopoOrder(g, r.value)
    ensures r.Some? <==> !HasCycle(g)
  {
    var out := Sources(g);
    KahnStart(g, out);
    var i := 0;
    while i < |out|
      invariant KahnInv(g, out, i)
      decreases |g.nodes| - i
    {
      DistinctSubset(out, g.nodes);
      out := Visit(g, out, i);
      i := i + 1;
    }
    KahnEnd(g, out);
    if |out| == |g.nodes| {
      r := Some(out);
    } else {
      r := None;
    }
  }

  /** No type in `order` sits at or before one of its supertypes. */
  predicate SupertypesFirst(g: Graph, order: seq<string>) {
    forall i, j :: 0 <= i <= j < |order| ==> (order[i], order[j]) !in g.edges
  }

  /** Reversing a topological order puts every supertype before its subtypes. */
  lemma ReverseTopo(g: Graph, o: seq<string>)
    requires IsTopoOrder(g, o)
    ensures Distinct(Reverse(o))
    ensures forall t :: t in Reverse(o) <==> t in g.nodes
    ensures SupertypesFirst(g, Reverse(o))
  {
    var order := Reverse(o);
    forall i, j | 0 <= i < j < |order| ensures order[i] != order[j] {
      assert order[i] == o[|o| - 1 - i] && order[j] == o[|o| - 1 - j];
    }
    forall t | t in o ensures t in order {
      var k :| 0 <= k < |o| && o[k] == t;
      assert order[|o| - 1 - k] == t;
    }
    forall i, j | 0 <= i <= j < |order| ensures (order[i], order[j]) !in g.edges {
      assert order[i] == o[|o| - 1 - i] && order[j] == o[|o| - 1 - j];
    }
  }

  /** `get_inheritance_order`: the reversed topological order, so every
      supertype comes before all of its subtypes; on a cycle, the table's key
      order. */
  method InheritanceOrder(specs: seq<NodeSpec>) returns (order: seq<string>)
    ensures Distinct(order)
    ensures forall t :: t in order <==> t in Types(specs)
    ensures !HasCycle(BuildGraph(specs)) ==> SupertypesFirst(BuildGraph(specs), order)
    ensures HasCycle(BuildGraph(specs)) ==> order == SpecKeys(specs)
  {
    var g := BuildGraph(specs);
    var sorted := TopologicalSort(g);
    match sorted {
      case Some(o) =>
        ReverseTopo(g, o);
        order := Reverse(o);
      case None =>
        order := g.nodes;
    }
  }
}
