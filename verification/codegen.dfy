/** codegen.py's `CodeGenerator`: class names for every node type, one class
    record per type with its parent, `__match_args__`, typed field properties
    and edit helpers, and the `NODE_MAP` table, emitted in inheritance order.
    The generated module is modelled as a list of structured items rather than
    Python text. */
module CodeGen {
  import opened Wrappers
  import opened Errors
  import opened PyStrings
  import opened Naming
  import opened Grammar
  import opened Inheritance
  import opened GeneratedNodes

  /** The state of a `CodeGenerator`: the spec table, the name resolver it
      owns, the base class and the class names resolved so far. */
  datatype Generator = Generator(
    specs: seq<NodeSpec>,
    resolver: Resolver,
    baseClass: string,
    classNames: map<string, string>)

  /** `CodeGenerator(node_specs, token_suffix, base_class)` with the
      inheritance graph built as a string-keyed directed graph. */
  function NewGenerator(specs: seq<NodeSpec>, tokenSuffix: string, baseClass: string): (g: Generator)
    ensures g.resolver.seen == {} && g.resolver.tokenSuffix == tokenSuffix
    ensures g.classNames == map[]
  {
    Generator(specs, NewResolver(tokenSuffix), baseClass, map[])
  }

  /** The constructor as written: the analyser it builds asks the rustworkx
      module for a `DiGraph`, a name that module does not define (its class
      is `PyDiGraph`), so construction raises before any name is resolved;
      and were it to get past that, the order it computes calls `nx`, a name
      the module never imports. */
  function NewGeneratorAsWritten(specs: seq<NodeSpec>, tokenSuffix: string, baseClass: string): (r: Result<Generator, Error>)
    ensures r.Err? && r.error == AttributeError
  {
    Err(AttributeError)
  }

  /** Whatever the grammar, the generator as written never gets as far as a
      module; the generator the rest of this model uses always does: once its
      names are resolved, emitting in an order that lists every spec type
      once, as `InheritanceOrder` returns, gives a well-emitted module. */
  lemma AsWrittenNeverGenerates(specs: seq<NodeSpec>, tokenSuffix: string, baseClass: string,
                                order: seq<string>)
    requires Distinct(order) && forall t :: t in order <==> t in Types(specs)
    ensures NewGeneratorAsWritten(specs, tokenSuffix, baseClass).Err?
    ensures var r := ResolveAllNames(NewGenerator(specs, tokenSuffix, baseClass));
      WellEmitted(r, ModuleFor(r, order))
  {
    EmittedModule(ResolveAllNames(NewGenerator(specs, tokenSuffix, baseClass)), order);
  }

  // ---------------------------------------------------------------------
  // class names
  // ---------------------------------------------------------------------

  /** The `(type, named)` pairs `_resolve_all_names` walks: the table's keys in
      first-occurrence order, each with the `named` flag of the entry stored
      under it. */
  function NamedKeys(specs: seq<NodeSpec>): (r: seq<(string, bool)>)
    ensures |r| == |SpecKeys(specs)|
    ensures forall i :: 0 <= i < |r| ==> r[i].0 == SpecKeys(specs)[i]
  {
    var keys := SpecKeys(specs);
    seq(|keys|, i requires 0 <= i < |keys| => (keys[i], IsNamed(SpecFor(specs, keys[i]))))
  }

  /** Assigning `names[i]` to `keys[i]` in order; a later key wins. */
  function NameTable(keys: seq<string>, names: seq<string>): (m: map<string, string>)
    requires |keys| == |names|
    ensures forall k :: k in m <==> k in keys
    ensures Distinct(keys) ==> forall i :: 0 <= i < |keys| ==> m[keys[i]] == names[i]
    decreases |keys|
  {
    if |keys| == 0 then map[]
    else
      var n := |keys| - 1;
      var m := NameTable(keys[..n], names[..n]);
      assert forall k :: k in keys <==> k in keys[..n] || k == keys[n];
      assert Distinct(keys) ==> keys[n] !in keys[..n];
      m[keys[n] := names[n]]
  }

  /** `_resolve_all_names`: every spec type gets a class name from the shared
      resolver, and the table keeps any names it held. */
  function ResolveAllNames(g: Generator): (r: Generator)
    ensures r.specs == g.specs && r.baseClass == g.baseClass
    ensures r.resolver.tokenSuffix == g.resolver.tokenSuffix
    ensures forall t :: t in r.classNames <==> t in g.classNames || t in Types(g.specs)
  {
    var keys := SpecKeys(g.specs);
    var res := ResolveAll(g.resolver, NamedKeys(g.specs));
    Generator(g.specs, res.1, g.baseClass, g.classNames + NameTable(keys, res.0))
  }

  /** Where the class name of a spec type comes from: the resolver's answer
      at that type's position among the table's keys. */
  lemma ResolvedName(g: Generator, t: string) returns (i: nat)
    requires t in Types(g.specs)
    ensures i < |SpecKeys(g.specs)| && SpecKeys(g.specs)[i] == t
    ensures ResolveAllNames(g).classNames[t] == ResolveAll(g.resolver, NamedKeys(g.specs)).0[i]
  {
    var keys := SpecKeys(g.specs);
    var names := ResolveAll(g.resolver, NamedKeys(g.specs)).0;
    var k :| 0 <= k < |keys| && keys[k] == t;
    i := k;
    var tbl := NameTable(keys, names);
    assert tbl[t] == names[i];
    assert (g.classNames + tbl)[t] == tbl[t];
  }

  /** The names resolved for different types differ, none was issued by the
      resolver before, and all of them are issued afterwards. */
  lemma ResolvedNamesDistinct(g: Generator)
    ensures var r := ResolveAllNames(g);
      (forall t :: t in Types(g.specs) ==> r.classNames[t] !in g.resolver.seen && r.classNames[t] in r.resolver.seen) &&
      (forall t, u :: t in Types(g.specs) && u in Types(g.specs) && t != u ==> r.classNames[t] != r.classNames[u])
  {
    var types := NamedKeys(g.specs);
    var names := ResolveAll(g.resolver, types).0;
    ResolveAllDistinct(g.resolver, types);
    ResolveAllSeen(g.resolver, types);
    var r := ResolveAllNames(g);
    forall t | t in Types(g.specs)
      ensures r.classNames[t] !in g.resolver.seen && r.classNames[t] in r.resolver.seen
    {
      var i := ResolvedName(g, t);
      assert names[i] in names;
    }
    forall t, u | t in Types(g.specs) && u in Types(g.specs) && t != u
      ensures r.classNames[t] != r.classNames[u]
    {
      var i := ResolvedName(g, t);
      var j := ResolvedName(g, u);
      assert i != j;
    }
  }

  /** Every type gets its base name, with no counter, when the resolver is
      fresh and the grammar's base names do not collide. */
  lemma FreshNamesAreBaseNames(g: Generator)
    requires g.resolver.seen == {}
    requires forall t, u :: t in Types(g.specs) && u in Types(g.specs) && t != u ==>
      BaseName(t, IsNamed(SpecFor(g.specs, t)), g.resolver.tokenSuffix) !=
      BaseName(u, IsNamed(SpecFor(g.specs, u)), g.resolver.tokenSuffix)
    ensures forall t :: t in Types(g.specs) ==>
      ResolveAllNames(g).classNames[t] == BaseName(t, IsNamed(SpecFor(g.specs, t)), g.resolver.tokenSuffix)
  {
    var keys := SpecKeys(g.specs);
    var types := NamedKeys(g.specs);
    forall i, j | 0 <= i < j < |types|
      ensures BaseName(types[i].0, types[i].1, g.resolver.tokenSuffix) != BaseName(types[j].0, types[j].1, g.resolver.tokenSuffix)
    {
      assert keys[i] != keys[j];
      assert keys[i] in keys && keys[j] in keys;
    }
    ResolveAllFresh(g.resolver, types);
    forall t | t in Types(g.specs)
      ensures ResolveAllNames(g).classNames[t] == BaseName(t, IsNamed(SpecFor(g.specs, t)), g.resolver.tokenSuffix)
    {
      var i :| 0 <= i < |keys| && keys[i] == t;
      assert types[i] == (t, IsNamed(SpecFor(g.specs, t)));
    }
  }

  /** A second `generate_module` on the same generator resolves every name
      again on the same resolver, so each type gets a name none of the first
      run's classes had. */
  lemma SecondRunRenames(g: Generator)
    ensures var r1 := ResolveAllNames(g);
      var r2 := ResolveAllNames(r1);
      forall t, u :: t in Types(g.specs) && u in Types(g.specs) ==> r2.classNames[t] != r1.classNames[u]
  {
    var r1 := ResolveAllNames(g);
    ResolvedNamesDistinct(g);
    ResolvedNamesDistinct(r1);
  }

  // ---------------------------------------------------------------------
  // one class
  // ---------------------------------------------------------------------

  /** The class name a field type refers to: its resolved class, or the
      literal `TSNode` for a type the table does not know. */
  function HintName(cn: map<string, string>, t: string): string {
    if t in cn then cn[t] else "TSNode"
  }

  function HintNames(cn: map<string, string>, types: seq<string>): (r: seq<string>)
    ensures |r| == |types|
    ensures forall i :: 0 <= i < |types| ==> r[i] == HintName(cn, types[i])
  {
    seq(|types|, i requires 0 <= i < |types| => HintName(cn, types[i]))
  }

  /** The return annotation of a field property: the alternatives joined by
      ` | ` (`TSNode` when none is listed), wrapped in `List[...]` for a
      multiple field and then in `Optional[...]` for one that is not
      required. */
  function TypeHint(cn: map<string, string>, f: FieldSpec): (r: string)
    ensures !IsRequired(f) ==> StartsWith(r, "Optional[") && EndsWith(r, "]")
    ensures IsRequired(f) && IsMultiple(f) ==> StartsWith(r, "List[") && EndsWith(r, "]")
    ensures IsRequired(f) && !IsMultiple(f) && |f.types| == 0 ==> r == "TSNode"
    ensures IsRequired(f) && !IsMultiple(f) && |f.types| == 1 ==> r == HintName(cn, f.types[0])
  {
    var names := HintNames(cn, f.types);
    var one := if |names| == 0 then "TSNode" else Join(" | ", names);
    var many := if IsMultiple(f) then "List[" + one + "]" else one;
    if IsRequired(f) then many else "Optional[" + many + "]"
  }

  /** The annotation names every listed alternative; an optional field's
      annotation is the required one's wrapped in `Optional[...]`, and a
      multiple field's is the single one's wrapped in `List[...]`. */
  lemma TypeHintShape(cn: map<string, string>, f: FieldSpec)
    ensures forall i :: 0 <= i < |f.types| ==> IsSubstring(HintName(cn, f.types[i]), TypeHint(cn, f))
    ensures |f.types| == 0 ==> IsSubstring("TSNode", TypeHint(cn, f))
    ensures !IsRequired(f) ==> TypeHint(cn, f) == "Optional[" + TypeHint(cn, f.(required := None)) + "]"
    ensures IsMultiple(f) && IsRequired(f) ==>
      TypeHint(cn, f) == "List[" + TypeHint(cn, f.(multiple := None)) + "]"
  {
    var names := HintNames(cn, f.types);
    var one := if |names| == 0 then "TSNode" else Join(" | ", names);
    var many := if IsMultiple(f) then "List[" + one + "]" else one;
    var r := TypeHint(cn, f);
    assert IsSubstring(one, r) by {
      SubstringSelf(one);
      if IsMultiple(f) {
        SubstringWithin(one, "List[", one, "]");
      }
      SubstringSelf(many);
      if !IsRequired(f) {
        SubstringWithin(many, "Optional[", many, "]");
      }
      SubstringTrans(one, many, r);
    }
    forall i | 0 <= i < |f.types| ensures IsSubstring(HintName(cn, f.types[i]), r) {
      JoinContains(" | ", names, i);
      SubstringTrans(names[i], one, r);
    }
  }

  /** One `@property` of a generated class. */
  datatype Property = Property(name: string, hint: string, kind: FieldKind)

  function FieldProperty(cn: map<string, string>, name: string, f: FieldSpec): (p: Property)
    ensures p.name == name
    ensures p.kind == KindOf(IsMultiple(f), IsRequired(f))
  {
    Property(name, TypeHint(cn, f), KindOf(IsMultiple(f), IsRequired(f)))
  }

  /** The statements of a class body, in order. */
  datatype Member =
    | Docstring(nodeType: string)
    | MatchArgs(names: seq<string>)
    | FieldAccessor(property: Property)
    | EditHelpers
    | Pass

  datatype ClassDef = ClassDef(name: string, parent: string, nodeType: string, body: seq<Member>)

  /** The parent class: the class of the type's first supertype when that type
      is a non-empty name with a resolved class, else the base class. */
  function ParentClass(g: Generator, graph: Graph, t: string): (r: string)
    ensures (GetParent(graph, t).Some? && GetParent(graph, t).value != "" && GetParent(graph, t).value in g.classNames) ==>
      r == g.classNames[GetParent(graph, t).value]
    ensures !(GetParent(graph, t).Some? && GetParent(graph, t).value != "" && GetParent(graph, t).value in g.classNames) ==>
      r == g.baseClass
  {
    match GetParent(graph, t)
    case Some(p) => if p != "" && p in g.classNames then g.classNames[p] else g.baseClass
    case None => g.baseClass
  }

  /** Once the names are resolved every graph node has a class, so a type
      with a supertype gets that supertype's class as parent, unless the
      supertype's name is the empty string; a type without one gets the base
      class. */
  lemma ParentAfterResolve(g: Generator, t: string)
    ensures var r := ResolveAllNames(g);
      var graph := BuildGraph(g.specs);
      match GetParent(graph, t)
      case Some(p) => ParentClass(r, graph, t) == (if p == "" then g.baseClass else r.classNames[p])
      case None => ParentClass(r, graph, t) == g.baseClass
  {
    var graph := BuildGraph(g.specs);
    if GetParent(graph, t).Some? {
      var p := GetParent(graph, t).value;
      assert (t, p) in graph.edges;
      assert p in graph.nodes;
    }
  }

  function Properties(cn: map<string, string>, fields: seq<(string, FieldSpec)>): (r: seq<Member>)
    ensures |r| == |fields|
    ensures forall i :: 0 <= i < |fields| ==> r[i] == FieldAccessor(FieldProperty(cn, fields[i].0, fields[i].1))
  {
    seq(|fields|, i requires 0 <= i < |fields| => FieldAccessor(FieldProperty(cn, fields[i].0, fields[i].1)))
  }

  function FieldNames(fields: seq<(string, FieldSpec)>): (r: seq<string>)
    ensures |r| == |fields|
    ensures forall i :: 0 <= i < |fields| ==> r[i] == fields[i].0
  {
    seq(|fields|, i requires 0 <= i < |fields| => fields[i].0)
  }

  /** `pass` is added only to a body holding nothing but its docstring. */
  function WithPass(body: seq<Member>): (r: seq<Member>)
    ensures |r| >= |body| && r[..|body|] == body
    ensures Pass in r <==> Pass in body || |body| == 1
    ensures |body| != 1 ==> r == body
  {
    if |body| == 1 then body + [Pass] else body
  }

  /** `_generate_class(node_type)` */
  function GenerateClass(g: Generator, graph: Graph, t: string): (c: ClassDef)
    requires t in Types(g.specs) && t in g.classNames
    ensures c.name == g.classNames[t] && c.nodeType == t
    ensures c.parent == ParentClass(g, graph, t)
  {
    var spec := SpecFor(g.specs, t);
    var matchArgs := if |spec.fields| > 0 then [MatchArgs(["type_name"] + FieldNames(spec.fields))] else [];
    var body := [Docstring(t)] + matchArgs + Properties(g.classNames, spec.fields) + [EditHelpers];
    ClassDef(g.classNames[t], ParentClass(g, graph, t), t, WithPass(body))
  }

  /** What a generated class holds: `__match_args__` is `type_name` followed by
      the field names, present exactly when the type has fields; one property
      per field, in field order; the edit helpers last. The body always holds
      the edit helpers, so the `pass` branch never fires. */
  lemma ClassBody(g: Generator, graph: Graph, t: string)
    requires t in Types(g.specs) && t in g.classNames
    ensures var c := GenerateClass(g, graph, t);
      var fields := SpecFor(g.specs, t).fields;
      var k := if |fields| > 0 then 2 else 1;
      |c.body| == k + |fields| + 1 &&
      c.body[0] == Docstring(t) &&
      (|fields| > 0 <==> MatchArgs(["type_name"] + FieldNames(fields)) in c.body) &&
      (forall i :: 0 <= i < |fields| ==> c.body[k + i] == FieldAccessor(FieldProperty(g.classNames, fields[i].0, fields[i].1))) &&
      c.body[|c.body| - 1] == EditHelpers &&
      Pass !in c.body
  {
    var fields := SpecFor(g.specs, t).fields;
    var m := if |fields| > 0 then [MatchArgs(["type_name"] + FieldNames(fields))] else [];
    var props := Properties(g.classNames, fields);
    var body := [Docstring(t)] + m + props + [EditHelpers];
    assert GenerateClass(g, graph, t).body == body by {
      assert WithPass(body) == body;
    }
    BodyLayout(Docstring(t), m, props);
  }

  /** The parts of a class body sit in order, and `pass` is not among them. */
  lemma BodyLayout(d: Member, m: seq<Member>, props: seq<Member>)
    requires !d.Pass? && !d.MatchArgs?
    requires |m| <= 1 && forall i :: 0 <= i < |m| ==> m[i].MatchArgs?
    requires forall i :: 0 <= i < |props| ==> props[i].FieldAccessor?
    ensures var body := [d] + m + props + [EditHelpers];
      |body| == |m| + |props| + 2 && body[0] == d && body[|body| - 1] == EditHelpers &&
      (forall i :: 0 <= i < |props| ==> body[1 + |m| + i] == props[i]) &&
      (forall x :: x in m ==> x in body) &&
      (forall x :: x in body && x.MatchArgs? ==> x in m) &&
      Pass !in body
  {
    var body := [d] + m + props + [EditHelpers];
    forall i | 0 <= i < |props| ensures body[1 + |m| + i] == props[i] {
    }
    forall x | x in body ensures (x.MatchArgs? ==> x in m) && x != Pass {
      var j :| 0 <= j < |body| && body[j] == x;
      if 1 <= j < 1 + |m| {
        assert x == m[j - 1];
      } else if 1 + |m| <= j < |body| - 1 {
        assert x == props[j - 1 - |m|];
      }
    }
    forall x | x in m ensures x in body {
      var j :| 0 <= j < |m| && m[j] == x;
      assert body[1 + j] == x;
    }
  }

  // ---------------------------------------------------------------------
  // the module
  // ---------------------------------------------------------------------

  /** One type's share of the module: its class, followed by the line
      `NODE_MAP[<type>] = <class>`. */
  datatype Entry = Entry(def: ClassDef, mapKey: string, mapValue: string)

  /** The generated module: the entries in order, then the closing
      `TSNode.register_subclasses(NODE_MAP)` call, which every module ends
      with. */
  datatype GeneratedModule = GeneratedModule(entries: seq<Entry>)

  /** The entry for type `t`. */
  function EntryFor(g: Generator, graph: Graph, t: string): (e: Entry)
    requires t in Types(g.specs) && t in g.classNames
    ensures e.mapKey == t == e.def.nodeType && e.mapValue == e.def.name
  {
    var c := GenerateClass(g, graph, t);
    Entry(c, t, c.name)
  }

  function MapKeys(entries: seq<Entry>): (r: seq<string>)
    ensures |r| == |entries|
    ensures forall i :: 0 <= i < |entries| ==> r[i] == entries[i].mapKey
  {
    seq(|entries|, i requires 0 <= i < |entries| => entries[i].mapKey)
  }

  /** The `NODE_MAP` the module builds, as a map from type to class name;
      the module never assigns one key twice. */
  function NodeMap(entries: seq<Entry>): (m: map<string, string>)
    requires Distinct(MapKeys(entries))
    ensures forall k :: k in m <==> k in MapKeys(entries)
    ensures forall i :: 0 <= i < |entries| ==> m[entries[i].mapKey] == entries[i].mapValue
  {
    map i | 0 <= i < |entries| :: entries[i].mapKey := entries[i].mapValue
  }

  /** The entries for `order`, one per type, in order. */
  function Entries(g: Generator, graph: Graph, order: seq<string>): (e: seq<Entry>)
    requires forall t :: t in order ==> t in Types(g.specs) && t in g.classNames
    ensures |e| == |order|
    ensures forall i :: 0 <= i < |order| ==> e[i] == EntryFor(g, graph, order[i])
    ensures MapKeys(e) == order
  {
    seq(|order|, i requires 0 <= i < |order| => EntryFor(g, graph, order[i]))
  }

  /** The module is a function of the emission order: the entries, in that
      order, for the types of the spec table. */
  function ModuleFor(r: Generator, order: seq<string>): (m: GeneratedModule)
    requires forall t :: t in order ==> t in Types(r.specs) && t in r.classNames
    ensures MapKeys(m.entries) == order
  {
    GeneratedModule(Entries(r, BuildGraph(r.specs), order))
  }

  /** Every type whose first supertype is in the graph comes after it. */
  predicate ParentsBefore(graph: Graph, order: seq<string>) {
    forall i :: 0 <= i < |order| && GetParent(graph, order[i]).Some? ==>
      exists j :: 0 <= j < i && order[j] == GetParent(graph, order[i]).value
  }

  /** Every supertype that is the parent of a type in `order` comes before it,
      when `order` puts no subtype at or before its supertype and holds every
      node of the graph. */
  lemma ParentsFirst(graph: Graph, order: seq<string>)
    requires WellFormed(graph)
    requires forall t :: t in graph.nodes ==> t in order
    requires SupertypesFirst(graph, order)
    ensures ParentsBefore(graph, order)
  {
    forall i | 0 <= i < |order| && GetParent(graph, order[i]).Some?
      ensures exists j :: 0 <= j < i && order[j] == GetParent(graph, order[i]).value
    {
      var p := GetParent(graph, order[i]).value;
      assert (order[i], p) in graph.edges;
      assert p in graph.nodes;
      var j :| 0 <= j < |order| && order[j] == p;
      assert (order[i], order[j]) in graph.edges;
    }
  }

  /** What a generated module holds for generator `r`: one entry per spec
      type and no type twice, each entry the class and `NODE_MAP` line built
      for its type, and a `NODE_MAP` sending every type to its class name. */
  ghost predicate WellEmitted(r: Generator, m: GeneratedModule) {
    (forall t :: t in Types(r.specs) ==> t in r.classNames) &&
    Distinct(MapKeys(m.entries)) &&
    (forall t :: t in Types(r.specs) <==> t in MapKeys(m.entries)) &&
    m == ModuleFor(r, MapKeys(m.entries)) &&
    (forall t :: t in Types(r.specs) ==> NodeMap(m.entries)[t] == r.classNames[t])
  }

  /** Only the order is left open: emitting in two orders that each list
      every spec type once gives the same entries and the same `NODE_MAP`.
      A well-emitted module is the module for its own key order, so this
      covers any two of them. */
  lemma WellEmittedOrderFree(r: Generator, o1: seq<string>, o2: seq<string>)
    requires forall t :: t in Types(r.specs) ==> t in r.classNames
    requires Distinct(o1) && forall t :: t in o1 <==> t in Types(r.specs)
    requires Distinct(o2) && forall t :: t in o2 <==> t in Types(r.specs)
    ensures forall e :: e in ModuleFor(r, o1).entries <==> e in ModuleFor(r, o2).entries
    ensures NodeMap(ModuleFor(r, o1).entries) == NodeMap(ModuleFor(r, o2).entries)
  {
    var m1, m2 := ModuleFor(r, o1), ModuleFor(r, o2);
    forall e | e in m1.entries ensures e in m2.entries {
      var i :| 0 <= i < |m1.entries| && m1.entries[i] == e;
      SameTypesSameEntry(r, o1, o2, i);
    }
    forall e | e in m2.entries ensures e in m1.entries {
      var i :| 0 <= i < |m2.entries| && m2.entries[i] == e;
      SameTypesSameEntry(r, o2, o1, i);
    }
    EmittedModule(r, o1);
    EmittedModule(r, o2);
    var n1, n2 := NodeMap(ModuleFor(r, o1).entries), NodeMap(ModuleFor(r, o2).entries);
    assert forall k :: k in n1 ==> n1[k] == r.classNames[k] == n2[k];
    SameMap(n1, n2);
  }

  /** The entry emitted for the `i`-th type of one order is emitted for any
      order with the same types. */
  lemma SameTypesSameEntry(r: Generator, o1: seq<string>, o2: seq<string>, i: nat)
    requires forall t :: t in Types(r.specs) ==> t in r.classNames
    requires forall t :: t in o1 ==> t in Types(r.specs)
    requires forall t :: t in o2 <==> t in Types(r.specs)
    requires i < |o1|
    ensures ModuleFor(r, o1).entries[i] in ModuleFor(r, o2).entries
  {
    var graph := BuildGraph(r.specs);
    var m1, m2 := ModuleFor(r, o1), ModuleFor(r, o2);
    var j :| 0 <= j < |o2| && o2[j] == o1[i];
    assert m1.entries[i] == EntryFor(r, graph, o1[i]);
    assert m2.entries[j] == EntryFor(r, graph, o1[i]);
  }

  lemma SameMap(a: map<string, string>, b: map<string, string>)
    requires forall k :: k in a <==> k in b
    requires forall k :: k in a ==> a[k] == b[k]
    ensures a == b
  {
  }

  /** Emitting in an order that lists each spec type once gives such a module. */
  lemma EmittedModule(r: Generator, order: seq<string>)
    requires forall t :: t in Types(r.specs) ==> t in r.classNames
    requires Distinct(order) && forall t :: t in order <==> t in Types(r.specs)
    ensures WellEmitted(r, ModuleFor(r, order))
  {
    var m := ModuleFor(r, order);
    forall t | t in Types(r.specs) ensures NodeMap(m.entries)[t] == r.classNames[t] {
      var i :| 0 <= i < |order| && order[i] == t;
      assert m.entries[i].mapKey == t;
    }
  }

  /** The emitting half of `generate_module()`, for a generator whose table
      names every spec type: one entry per type, in inheritance order, so that
      on an acyclic graph every class comes after its parent type's class. */
  method EmitModule(r: Generator) returns (m: GeneratedModule)
    requires forall t :: t in Types(r.specs) ==> t in r.classNames
    ensures WellEmitted(r, m)
    ensures !HasCycle(BuildGraph(r.specs)) ==> ParentsBefore(BuildGraph(r.specs), MapKeys(m.entries))
  {
    var order := InheritanceOrder(r.specs);
    EmittedModule(r, order);
    if !HasCycle(BuildGraph(r.specs)) {
      ParentsFirst(BuildGraph(r.specs), order);
    }
    m := ModuleFor(r, order);
  }

  /** `generate_module()`: names are resolved first, then one entry per spec
      type in inheritance order. The updated generator is returned alongside. */
  method GenerateModule(g: Generator) returns (m: GeneratedModule, r: Generator)
    ensures r == ResolveAllNames(g)
    ensures WellEmitted(r, m)
    ensures !HasCycle(BuildGraph(g.specs)) ==> ParentsBefore(BuildGraph(g.specs), MapKeys(m.entries))
  {
    r := ResolveAllNames(g);
    m := EmitModule(r);
  }
}
