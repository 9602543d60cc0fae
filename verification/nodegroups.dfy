/** nodegroup.py: selectors over nodes and `NodeGroup`, a set of nodes with a
    list of pending selectors. Every query first materialises the group (the
    nodes that pass every pending selector); the set operations return a
    fresh group with no pending selectors. */
module NodeGroups {
  import opened Wrappers
  import opened Errors
  import opened PyStrings
  import opened Nodes

  /** The selector classes and the three combinators `&`, `|` and `~`. A
      `ClassSelector` tests `isinstance`, so it carries the names of the
      class and all its subclasses; the Python class hierarchy itself is not
      part of the model. */
  datatype Selector =
    | AndSel(left: Selector, right: Selector)
    | OrSel(left: Selector, right: Selector)
    | NotSel(inner: Selector)
    | TypeSel(typeName: string)
    | ClassSel(classes: set<string>)
    | PredicateSel(pred: Node -> bool)
    | TextSel(text: string, exact: bool)

  /** `selector.matches(node)` */
  function Matches(s: Selector, n: Node): (r: bool)
    ensures s.TextSel? ==> (r <==> if s.exact then n.text == s.text else IsSubstring(s.text, n.text))
    ensures s.NotSel? ==> r == !Matches(s.inner, n)
  {
    ContainsIsSubstring(n.text, if s.TextSel? then s.text else "");
    match s
    case AndSel(l, r) => Matches(l, n) && Matches(r, n)
    case OrSel(l, r) => Matches(l, n) || Matches(r, n)
    case NotSel(i) => !Matches(i, n)
    case TypeSel(t) => n.typeName == t
    case ClassSel(cs) => n.cls in cs
    case PredicateSel(p) => p(n)
    case TextSel(t, exact) => if exact then n.text == t else Contains(n.text, t)
  }

  /** A non-exact text selector matches exactly the nodes whose text holds
      the selector's text somewhere. */
  lemma TextSelSubstring(t: string, n: Node)
    ensures Matches(TextSel(t, false), n) <==> IsSubstring(t, n.text)
    ensures Matches(TextSel(t, true), n) ==> Matches(TextSel(t, false), n)
  {
    ContainsIsSubstring(n.text, t);
    if n.text == t {
      SubstringSelf(t);
    }
  }

  datatype NodeGroup = NodeGroup(nodes: set<Node>, selectors: seq<Selector>)

  /** `_apply_selectors`: the selectors are applied one after another, each
      keeping the nodes it matches. */
  function ApplySelectors(nodes: set<Node>, sels: seq<Selector>): (r: set<Node>)
    ensures forall n :: n in r <==> n in nodes && forall i :: 0 <= i < |sels| ==> Matches(sels[i], n)
    decreases |sels|
  {
    if |sels| == 0 then nodes
    else
      assert forall i :: 1 <= i < |sels| ==> sels[1..][i - 1] == sels[i];
      ApplySelectors((set n | n in nodes && Matches(sels[0], n)), sels[1..])
  }

  /** `_materialize` */
  function Materialize(g: NodeGroup): (r: set<Node>)
    ensures r <= g.nodes
    ensures g.selectors == [] ==> r == g.nodes
    ensures forall n :: n in g.nodes && (forall i :: 0 <= i < |g.selectors| ==> Matches(g.selectors[i], n)) ==> n in r
  {
    ApplySelectors(g.nodes, g.selectors)
  }

  /** `__contains__`, `__len__` and `__bool__` all look at the materialised set. */
  predicate Has(g: NodeGroup, n: Node) {
    n in Materialize(g)
  }

  function Size(g: NodeGroup): nat {
    |Materialize(g)|
  }

  predicate NonEmpty(g: NodeGroup) {
    Size(g) > 0
  }

  // ---------------------------------------------------------------------
  // construction
  // ---------------------------------------------------------------------

  /** A group over the given nodes with no pending selector: what
      `NodeGroup(nodes)`, `nodes(*nodes)` and `empty()` build. */
  function Of(input: seq<Node>): (g: NodeGroup)
    ensures g.selectors == []
    ensures forall n :: Has(g, n) <==> n in input
  {
    NodeGroup((set n | n in input), [])
  }

  /** `NodeGroup(input_nodes, **data)` as written: `selectors` is passed to the
      base initialiser both by name and inside `**data`, so a call that gives
      `selectors` raises `TypeError`; without it the group has none. */
  function NewGroupAsWritten(input: seq<Node>, selectors: Option<seq<Selector>>): (r: Result<NodeGroup, Error>)
    ensures r.Err? <==> selectors.Some?
    ensures r.Err? ==> r.error == TypeError
    ensures r.Ok? ==> r.value == Of(input)
  {
    if selectors.Some? then Err(TypeError) else Ok(Of(input))
  }

  /** The initialiser as it is evidently meant: the selectors given, or none. */
  function NewGroup(input: seq<Node>, selectors: Option<seq<Selector>>): (g: NodeGroup)
    ensures g.nodes == set n | n in input
    ensures g.selectors == selectors.GetOr([])
  {
    NodeGroup((set n | n in input), selectors.GetOr([]))
  }

  /** Passing selectors to the initialiser always fails as written; the
      corrected initialiser agrees with it on every other call. */
  lemma NewGroupSelectorsRejected(input: seq<Node>, sels: seq<Selector>)
    ensures NewGroupAsWritten(input, Some(sels)) == Err(TypeError)
    ensures NewGroupAsWritten(input, None) == Ok(NewGroup(input, None))
    ensures forall n :: Has(NewGroup(input, Some(sels)), n) <==>
      n in input && forall i :: 0 <= i < |sels| ==> Matches(sels[i], n)
  {
  }

  // ---------------------------------------------------------------------
  // lazy filters
  // ---------------------------------------------------------------------

  /** `filter(selector)`: the node set is kept and one selector appended. */
  function Filter(g: NodeGroup, s: Selector): (r: NodeGroup)
    ensures r.nodes == g.nodes && r.selectors == g.selectors + [s]
  {
    g.(selectors := g.selectors + [s])
  }

  /** Filtering narrows the materialised set to the nodes the new selector
      matches. */
  lemma FilterMaterialize(g: NodeGroup, s: Selector)
    ensures forall n :: Has(Filter(g, s), n) <==> Has(g, n) && Matches(s, n)
  {
    var sels := g.selectors + [s];
    assert forall i :: 0 <= i < |g.selectors| ==> sels[i] == g.selectors[i];
    assert sels[|g.selectors|] == s;
  }

  /** Two filters in a row are one filter with `&`, in either order. */
  lemma FilterAnd(g: NodeGroup, a: Selector, b: Selector)
    ensures Materialize(Filter(Filter(g, a), b)) == Materialize(Filter(g, AndSel(a, b)))
    ensures Materialize(Filter(Filter(g, a), b)) == Materialize(Filter(Filter(g, b), a))
  {
    FilterMaterialize(g, a);
    FilterMaterialize(g, b);
    FilterMaterialize(Filter(g, a), b);
    FilterMaterialize(Filter(g, b), a);
    FilterMaterialize(g, AndSel(a, b));
    forall n ensures n in Materialize(Filter(Filter(g, a), b)) <==> n in Materialize(Filter(g, AndSel(a, b))) {
      assert Has(Filter(Filter(g, a), b), n) <==> Has(Filter(g, AndSel(a, b)), n);
    }
    forall n ensures n in Materialize(Filter(Filter(g, a), b)) <==> n in Materialize(Filter(Filter(g, b), a)) {
      assert Has(Filter(Filter(g, a), b), n) <==> Has(Filter(Filter(g, b), a), n);
    }
  }

  /** A filter with `|` keeps the union of the two filtered groups, and one
      with `~` keeps what the plain filter drops. */
  lemma FilterOrNot(g: NodeGroup, a: Selector, b: Selector)
    ensures Materialize(Filter(g, OrSel(a, b))) == Materialize(Filter(g, a)) + Materialize(Filter(g, b))
    ensures Materialize(Filter(g, NotSel(a))) == Materialize(g) - Materialize(Filter(g, a))
  {
    FilterMaterialize(g, a);
    FilterMaterialize(g, b);
    FilterMaterialize(g, OrSel(a, b));
    FilterMaterialize(g, NotSel(a));
    forall n ensures n in Materialize(Filter(g, OrSel(a, b))) <==> n in Materialize(Filter(g, a)) + Materialize(Filter(g, b)) {
      assert Has(Filter(g, OrSel(a, b)), n) <==> Has(Filter(g, a), n) || Has(Filter(g, b), n);
    }
    forall n ensures n in Materialize(Filter(g, NotSel(a))) <==> n in Materialize(g) - Materialize(Filter(g, a)) {
      assert Has(Filter(g, NotSel(a)), n) <==> Has(g, n) && !Has(Filter(g, a), n);
    }
  }

  /** `filter_type`, `filter_class`, `filter_text` and `where` are `filter`
      with the matching selector. */
  /** The named filters keep exactly the nodes of that type, class, text or
      predicate. */
  function FilterType(g: NodeGroup, t: string): (r: NodeGroup)
    ensures r.nodes == g.nodes
    ensures forall n :: Has(r, n) <==> Has(g, n) && n.typeName == t
  {
    FilterMaterialize(g, TypeSel(t));
    Filter(g, TypeSel(t))
  }

  function FilterClass(g: NodeGroup, classes: set<string>): (r: NodeGroup)
    ensures r.nodes == g.nodes
    ensures forall n :: Has(r, n) <==> Has(g, n) && n.cls in classes
  {
    FilterMaterialize(g, ClassSel(classes));
    Filter(g, ClassSel(classes))
  }

  function FilterText(g: NodeGroup, t: string, exact: bool): (r: NodeGroup)
    ensures r.nodes == g.nodes
    ensures exact ==> forall n :: Has(r, n) <==> Has(g, n) && n.text == t
    ensures !exact ==> forall n :: Has(r, n) <==> Has(g, n) && IsSubstring(t, n.text)
  {
    FilterMaterialize(g, TextSel(t, exact));
    Filter(g, TextSel(t, exact))
  }

  function Where(g: NodeGroup, p: Node -> bool): (r: NodeGroup)
    ensures r.nodes == g.nodes
    ensures forall n :: Has(r, n) <==> Has(g, n) && p(n)
  {
    FilterMaterialize(g, PredicateSel(p));
    Filter(g, PredicateSel(p))
  }

  // ---------------------------------------------------------------------
  // set algebra
  // ---------------------------------------------------------------------

  function Union(a: NodeGroup, b: NodeGroup): (r: NodeGroup)
    ensures r.selectors == []
    ensures forall n :: Has(r, n) <==> Has(a, n) || Has(b, n)
  {
    NodeGroup(Materialize(a) + Materialize(b), [])
  }

  function Intersection(a: NodeGroup, b: NodeGroup): (r: NodeGroup)
    ensures r.selectors == []
    ensures forall n :: Has(r, n) <==> Has(a, n) && Has(b, n)
  {
    NodeGroup(Materialize(a) * Materialize(b), [])
  }

  function Difference(a: NodeGroup, b: NodeGroup): (r: NodeGroup)
    ensures r.selectors == []
    ensures forall n :: Has(r, n) <==> Has(a, n) && !Has(b, n)
  {
    NodeGroup(Materialize(a) - Materialize(b), [])
  }

  function SymmetricDifference(a: NodeGroup, b: NodeGroup): (r: NodeGroup)
    ensures r.selectors == []
    ensures forall n :: Has(r, n) <==> (Has(a, n) <==> !Has(b, n))
  {
    NodeGroup((Materialize(a) - Materialize(b)) + (Materialize(b) - Materialize(a)), [])
  }

  /** The symmetric difference is the union of the two differences, and it
      and the intersection split the union. */
  lemma SymmetricDifferenceSplit(a: NodeGroup, b: NodeGroup)
    ensures SymmetricDifference(a, b) == Union(Difference(a, b), Difference(b, a))
    ensures Materialize(Union(a, b)) == Materialize(SymmetricDifference(a, b)) + Materialize(Intersection(a, b))
    ensures Materialize(SymmetricDifference(a, b)) !! Materialize(Intersection(a, b))
  {
  }

  /** A group combined with itself: union and intersection keep its
      materialised set, difference and symmetric difference are empty. */
  lemma SelfAlgebra(a: NodeGroup)
    ensures Materialize(Union(a, a)) == Materialize(a)
    ensures Materialize(Intersection(a, a)) == Materialize(a)
    ensures Size(Difference(a, a)) == 0 && Size(SymmetricDifference(a, a)) == 0
  {
  }

  // ---------------------------------------------------------------------
  // bulk operations
  // ---------------------------------------------------------------------

  /** `map(func)`: the image of the materialised set. */
  function MapNodes(g: NodeGroup, f: Node -> Node): (r: NodeGroup)
    ensures r.selectors == []
    ensures forall n :: Has(g, n) ==> Has(r, f(n))
    ensures forall m :: Has(r, m) ==> exists n :: Has(g, n) && f(n) == m
  {
    NodeGroup((set n | n in Materialize(g) :: f(n)), [])
  }

  /** `transform(transformer)`: the images, with `None` results dropped. */
  function Transform(g: NodeGroup, t: Node -> Option<Node>): (r: NodeGroup)
    ensures r.selectors == []
    ensures forall n :: Has(g, n) && t(n).Some? ==> Has(r, t(n).value)
    ensures forall m :: Has(r, m) ==> exists n :: Has(g, n) && t(n) == Some(m)
  {
    NodeGroup((set n | n in Materialize(g) && t(n).Some? :: t(n).value), [])
  }

  /** A transformer that never returns `None` is a map. */
  lemma TransformTotal(g: NodeGroup, f: Node -> Node, t: Node -> Option<Node>)
    requires forall n :: t(n) == Some(f(n))
    ensures Transform(g, t) == MapNodes(g, f)
  {
    var m := Materialize(g);
    assert (set n | n in m && t(n).Some? :: t(n).value) == (set n | n in m :: f(n));
  }

  // ---------------------------------------------------------------------
  // queries
  // ---------------------------------------------------------------------

  /** The nodes a query looks at: the materialised set, further filtered by
      the optional selector. */
  function Selected(g: NodeGroup, sel: Option<Selector>): (r: set<Node>)
    ensures sel.None? ==> r == Materialize(g)
    ensures sel.Some? ==> r == Materialize(Filter(g, sel.value))
  {
    match sel
    case None => Materialize(g)
    case Some(s) =>
      FilterMaterialize(g, s);
      var r := set n | n in Materialize(g) && Matches(s, n);
      assert forall n :: n in r <==> Has(Filter(g, s), n);
      r
  }

  /** `count(selector)` */
  function Count(g: NodeGroup, sel: Option<Selector>): (k: nat)
    ensures k <= Size(g)
    ensures sel.None? ==> k == Size(g)
  {
    SubsetSize(Selected(g, sel), Materialize(g));
    |Selected(g, sel)|
  }

  /** `find_first(selector)`: some selected node (set iteration order is not
      fixed), or `None` when there is none. */
  method FindFirst(g: NodeGroup, sel: Option<Selector>) returns (r: Option<Node>)
    ensures r.None? <==> Count(g, sel) == 0
    ensures r.Some? ==> r.value in Selected(g, sel)
  {
    var s := Selected(g, sel);
    if s == {} {
      r := None;
    } else {
      var n :| n in s;
      r := Some(n);
    }
  }

  /** `find_all(selector)`: the selected nodes as a list, each once, in the
      order the set yields them. */
  method FindAll(g: NodeGroup, sel: Option<Selector>) returns (r: seq<Node>)
    ensures Distinct(r)
    ensures forall n :: n in r <==> n in Selected(g, sel)
    ensures |r| == Count(g, sel)
  {
    var all := Selected(g, sel);
    var rest := all;
    r := [];
    while rest != {}
      invariant rest <= all
      invariant forall n :: n in r <==> n in all && n !in rest
      invariant Distinct(r)
      invariant |r| + |rest| == |all|
      decreases |rest|
    {
      var n :| n in rest;
      r := r + [n];
      rest := rest - {n};
    }
  }

  /** `groupby(key)`: one group per key value found, each holding the
      materialised nodes with that key. */
  function GroupBy<K(==)>(g: NodeGroup, key: Node -> K): (r: map<K, NodeGroup>)
    ensures forall n :: Has(g, n) ==> key(n) in r && n in r[key(n)].nodes
    ensures forall k :: k in r ==>
      (r[k].selectors == [] && r[k].nodes != {} && forall n :: n in r[k].nodes ==> Has(g, n) && key(n) == k)
  {
    var m := Materialize(g);
    var keys := set n | n in m :: key(n);
    map k | k in keys :: NodeGroup((set n | n in m && key(n) == k), [])
  }

  /** The groups partition the materialised set: distinct keys have disjoint
      groups, and together they hold every node. */
  lemma GroupByPartition<K>(g: NodeGroup, key: Node -> K, j: K, k: K)
    requires j in GroupBy(g, key) && k in GroupBy(g, key) && j != k
    ensures GroupBy(g, key)[j].nodes !! GroupBy(g, key)[k].nodes
    ensures GroupBy(g, key)[j].nodes <= Materialize(g)
  {
  }

  // ---------------------------------------------------------------------
  // traversal
  // ---------------------------------------------------------------------

  /** A node and everything below it: what the depth-first walk of
      `from_tree` yields. */
  function Subtree(n: Node): (r: set<Node>)
    ensures n in r
    ensures forall c :: c in n.children ==> c in r
    decreases n
  {
    {n} + Below(n)
  }

  /** Everything strictly below a node: each child, then what is below it,
      as `get_descendants` yields them. */
  function Below(n: Node): (r: set<Node>)
    ensures forall c :: c in n.children ==> c in r
    decreases n, 0
  {
    var r := set c, x | c in n.children && x in Subtree(c) :: x;
    assert forall c :: c in n.children ==> c in r by {
      forall c | c in n.children ensures c in r {
        assert c in Subtree(c);
      }
    }
    r
  }

  /** `from_tree(root)` */
  function FromTree(root: Node): (g: NodeGroup)
    ensures g.selectors == []
  {
    NodeGroup(Subtree(root), [])
  }

  /** `descendants()`: everything strictly below some member. */
  function Descendants(g: NodeGroup): (r: NodeGroup)
    ensures r.selectors == []
  {
    NodeGroup((set m, x | m in Materialize(g) && x in Below(m) :: x), [])
  }

  /** `siblings(parent)`: the parent's children outside the group. */
  function Siblings(g: NodeGroup, parent: Node): (r: NodeGroup)
    ensures r.selectors == []
    ensures forall c :: Has(r, c) <==> c in parent.children && !Has(g, c)
  {
    NodeGroup((set c | c in parent.children && !Has(g, c)), [])
  }

  /** The siblings and the children inside the group split the children. */
  lemma SiblingsSplit(g: NodeGroup, parent: Node)
    ensures Materialize(Siblings(g, parent)) !! Materialize(g)
    ensures Materialize(Siblings(g, parent)) + (Materialize(g) * (set c | c in parent.children)) ==
      (set c | c in parent.children)
  {
  }

  /** The largest of a list of heights. */
  function MaxOf(s: seq<nat>): (m: nat)
    ensures forall i :: 0 <= i < |s| ==> s[i] <= m
  {
    if |s| == 0 then 0 else
      var rest := MaxOf(s[1..]);
      assert forall i :: 1 <= i < |s| ==> s[i] == s[1..][i - 1];
      if s[0] > rest then s[0] else rest
  }

  function Height(n: Node): (h: nat)
    ensures h >= 1
    decreases n
  {
    1 + MaxOf(seq(|n.children|, i requires 0 <= i < |n.children| => Height(n.children[i])))
  }

  lemma HeightChild(n: Node, c: Node)
    requires c in n.children
    ensures Height(c) < Height(n)
  {
    var i :| 0 <= i < |n.children| && n.children[i] == c;
    var hs := seq(|n.children|, i requires 0 <= i < |n.children| => Height(n.children[i]));
    assert hs[i] == Height(c);
  }

  lemma {:induction false} SubtreeHeight(n: Node, x: Node)
    requires x in Subtree(n)
    ensures Height(x) <= Height(n)
    decreases n
  {
    if x != n {
      var c :| c in n.children && x in Subtree(c);
      SubtreeHeight(c, x);
      HeightChild(n, c);
    }
  }

  /** No node lies strictly below itself, so the group built from a tree is
      its root plus the root's descendants, the root not among them. */
  lemma NotBelowItself(n: Node)
    ensures n !in Below(n)
  {
    if n in Below(n) {
      var c :| c in n.children && n in Subtree(c);
      SubtreeHeight(c, n);
      HeightChild(n, c);
    }
  }

  lemma FromTreeIsRootAndDescendants(root: Node)
    ensures Materialize(Descendants(Of([root]))) == Materialize(FromTree(root)) - {root}
    ensures Has(FromTree(root), root)
  {
    NotBelowItself(root);
    assert Materialize(Of([root])) == {root};
  }

  /** `from_tree` holds every child of each of its members. */
  lemma {:induction false} SubtreeClosed(n: Node, x: Node, c: Node)
    requires x in Subtree(n) && c in x.children
    ensures c in Subtree(n)
    decreases n
  {
    if x == n {
      assert c in Subtree(c);
    } else {
      var d :| d in n.children && x in Subtree(d);
      SubtreeClosed(d, x, c);
    }
  }

  /** ... and nothing else: it lies inside every set that holds the root
      and each member's children. */
  lemma {:induction false} SubtreeLeast(n: Node, s: set<Node>)
    requires n in s
    requires forall x, c :: x in s && c in x.children ==> c in s
    ensures Subtree(n) <= s
    decreases n
  {
    forall c | c in n.children
      ensures Subtree(c) <= s
    {
      SubtreeLeast(c, s);
    }
  }
}
