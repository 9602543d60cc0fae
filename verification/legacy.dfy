/** generator.py, the older generator: every node type is renamed through an
    alias table and converted to a class name with no de-duplication, and one
    class per spec entry is emitted, in input order, always directly under
    `TSNode` and always with a `pass` body. */
module Legacy {
  import opened Wrappers
  import opened PyStrings
  import opened Naming
  import opened Grammar

  /** `LOOKUP`: aliases for punctuation, operators and keywords; `None` for a
      name the table does not hold. Every alias is a non-empty name, never
      the raw name it replaces. */
  function Alias(raw: string): (r: Option<string>)
    ensures r.Some? ==> |r.value| > 0 && r.value != raw
  {
    match raw
    case "(" => Some("left_paren")
    case ")" => Some("right_paren")
    case "[" => Some("left_bracket")
    case "]" => Some("right_bracket")
    case "{" => Some("left_brace")
    case "}" => Some("right_brace")
    case "<" => Some("less_than")
    case ">" => Some("greater_than")
    case "," => Some("comma")
    case "." => Some("dot")
    case ":" => Some("colon")
    case ";" => Some("semicolon")
    case "+" => Some("plus")
    case "-" => Some("minus")
    case "*" => Some("asterisk")
    case "/" => Some("slash")
    case "%" => Some("percent")
    case "&" => Some("ampersand")
    case "|" => Some("pipe")
    case "^" => Some("caret")
    case "~" => Some("tilde")
    case "@" => Some("at")
    case "\\" => Some("backslash")
    case "_" => Some("underscore")
    case "=" => Some("equals")
    case "==" => Some("equality")
    case "!=" => Some("not_equals")
    case "<=" => Some("less_equals")
    case ">=" => Some("greater_equals")
    case "+=" => Some("plus_equals")
    case "-=" => Some("minus_equals")
    case "*=" => Some("times_equals")
    case "/=" => Some("divide_equals")
    case "%=" => Some("mod_equals")
    case "&=" => Some("ampersand_equals")
    case "|=" => Some("pipe_equals")
    case "^=" => Some("caret_equals")
    case "@=" => Some("at_equals")
    case "//" => Some("floor_div")
    case "//=" => Some("floor_div_equals")
    case "**" => Some("power")
    case "**=" => Some("power_equals")
    case "<<" => Some("left_shift")
    case "<<=" => Some("left_shift_equals")
    case ">>" => Some("right_shift")
    case ">>=" => Some("right_shift_equals")
    case "->" => Some("arrow")
    case ":=" => Some("walrus")
    case "<>" => Some("not_equals_alt")
    case "is not" => Some("is_not")
    case "not in" => Some("not_in")
    case "except*" => Some("except_star")
    case "and" => Some("logical_and")
    case "or" => Some("logical_or")
    case "not" => Some("logical_not")
    case "in" => Some("in_operator")
    case "is" => Some("is_operator")
    case "lambda" => Some("lambda_function")
    case "yield" => Some("yield_expression")
    case "await" => Some("await_expression")
    case "return" => Some("return_statement")
    case "break" => Some("break_statement")
    case "continue" => Some("continue_statement")
    case "pass" => Some("pass_statement")
    case "del" => Some("delete_statement")
    case "global" => Some("global_statement")
    case "nonlocal" => Some("nonlocal_statement")
    case "assert" => Some("assert_statement")
    case "raise" => Some("raise_statement")
    case "try" => Some("try_statement")
    case "except" => Some("except_clause")
    case "finally" => Some("finally_clause")
    case "with" => Some("with_statement")
    case "class" => Some("class_definition")
    case "def" => Some("function_definition")
    case "if" => Some("if_statement")
    case "elif" => Some("elif_statement")
    case "else" => Some("else_statement")
    case "for" => Some("for_statement")
    case "while" => Some("while_statement")
    case "import" => Some("import_statement")
    case "from" => Some("from_statement")
    case "as" => Some("as_keyword")
    case "async" => Some("async_keyword")
    case "match" => Some("match_statement")
    case "case" => Some("case_clause")
    case "type" => Some("type_alias")
    case "true" => Some("true_literal")
    case "false" => Some("false_literal")
    case "none" => Some("none_literal")
    case _ => None
  }

  /** `_snake_to_camel(name)`: two names special-cased, everything else its
      PascalCase form followed by `Node`. */
  function SnakeToCamel(name: string): (r: string)
    ensures name != "_" && name != "except*" ==> r == PascalCase(name) + "Node"
  {
    if name == "_" then "Underscore"
    else if name == "except*" then "ExceptStar"
    else PascalCase(name) + "Node"
  }

  /** The identifier the resolver converts: the alias when there is one, the
      raw name otherwise; the table is applied once. */
  function Ident(raw: string): (r: string)
    ensures Alias(raw).None? ==> r == raw
    ensures Alias(raw).Some? ==> r != raw && |r| > 0
  {
    Alias(raw).GetOr(raw)
  }

  /** `NodeNameResolver(lookup=LOOKUP)(raw_name)`. No name is remembered, so
      nothing is de-duplicated. */
  function LegacyResolve(raw: string): (r: string)
    ensures r == PascalCase(Ident(raw)) + "Node"
    ensures Alias(raw).None? ==> r == PascalCase(raw) + "Node"
    ensures Alias(raw).Some? ==> r == PascalCase(Alias(raw).value) + "Node"
  {
    IdentNotSpecial(raw);
    SnakeToCamel(Ident(raw))
  }

  /** No alias is `_` or `except*`, and both are aliased themselves, so the
      identifier the resolver converts is never one of the two special
      cases of `_snake_to_camel`. */
  lemma IdentNotSpecial(raw: string)
    ensures Ident(raw) != "_" && Ident(raw) != "except*"
  {
  }

  /** The special cases are never reached from the resolver: every class
      name is a PascalCase form followed by `Node`. */
  lemma SpecialCasesUnreachable(raw: string)
    ensures Ident(raw) != "_" && Ident(raw) != "except*"
    ensures LegacyResolve(raw) == PascalCase(Ident(raw)) + "Node"
  {
    IdentNotSpecial(raw);
  }

  /** A type whose alias is itself a type name resolves to the same class as
      that name: `assert` and `assert_statement` both become one class name. */
  lemma AliasCollides(raw: string)
    requires Alias(raw).Some? && Alias(Alias(raw).value).None?
    ensures LegacyResolve(raw) == LegacyResolve(Alias(raw).value)
  {
  }

  lemma AssertCollides()
    ensures LegacyResolve("assert") == LegacyResolve("assert_statement")
    ensures LegacyResolve("assert") == PascalCase("assert_statement") + "Node"
  {
    assert Ident("assert") == "assert_statement";
    assert Ident("assert_statement") == "assert_statement";
    SpecialCasesUnreachable("assert");
  }

  /** One emitted class and its `NODE_MAP` line. */
  datatype LegacyEntry = LegacyEntry(
    typeName: string,
    className: string,
    parent: string,
    matchArgs: Option<seq<string>>,
    hasPass: bool)

  function FieldKeys(fields: seq<(string, FieldSpec)>): (r: seq<string>)
    ensures |r| == |fields|
    ensures forall i :: 0 <= i < |fields| ==> r[i] == fields[i].0
  {
    seq(|fields|, i requires 0 <= i < |fields| => fields[i].0)
  }

  /** The class emitted for one spec entry: under `TSNode`, with a `pass`
      line, named by the resolver, and with `__match_args__` exactly when
      the entry has fields. */
  function LegacyEntryFor(spec: NodeSpec): (e: LegacyEntry)
    ensures e.typeName == spec.typ && e.parent == "TSNode" && e.hasPass
    ensures e.className == PascalCase(Ident(spec.typ)) + "Node"
    ensures e.matchArgs.Some? <==> |spec.fields| > 0
    ensures e.matchArgs.Some? ==>
      (|e.matchArgs.value| == |spec.fields| + 1 && e.matchArgs.value[0] == "type_name" &&
       forall i :: 0 <= i < |spec.fields| ==> e.matchArgs.value[i + 1] == spec.fields[i].0)
  {
    SpecialCasesUnreachable(spec.typ);
    var matchArgs := if |spec.fields| > 0 then Some(["type_name"] + FieldKeys(spec.fields)) else None;
    LegacyEntry(spec.typ, LegacyResolve(spec.typ), "TSNode", matchArgs, true)
  }

  /** The per-spec loop of `generate_from_node_types`. The closing
      `TSNode.register_subclasses(NODE_MAP)` line follows the entries in every
      module and is not part of the list. */
  function LegacyGenerate(specs: seq<NodeSpec>): (out: seq<LegacyEntry>)
    ensures |out| == |specs|
  {
    seq(|specs|, i requires 0 <= i < |specs| => LegacyEntryFor(specs[i]))
  }

  /** One class per spec entry, in input order, duplicates included: each
      under `TSNode`, with a `pass` line, and with `__match_args__` exactly
      when the entry has fields. */
  lemma LegacyShape(specs: seq<NodeSpec>)
    ensures forall i :: 0 <= i < |specs| ==>
      var e := LegacyGenerate(specs)[i];
      e.typeName == specs[i].typ &&
      e.className == LegacyResolve(specs[i].typ) &&
      e.parent == "TSNode" && e.hasPass &&
      (e.matchArgs.Some? <==> |specs[i].fields| > 0) &&
      (e.matchArgs.Some? ==> e.matchArgs.value[0] == "type_name" && e.matchArgs.value[1..] == FieldKeys(specs[i].fields))
  {
  }

  /** The `named` flag plays no part: two spec lists that differ only there
      generate the same module. */
  lemma LegacyIgnoresNamed(a: seq<NodeSpec>, b: seq<NodeSpec>)
    requires |a| == |b|
    requires forall i :: 0 <= i < |a| ==> a[i].typ == b[i].typ && a[i].fields == b[i].fields
    ensures LegacyGenerate(a) == LegacyGenerate(b)
  {
  }

  /** The `NODE_MAP` after the module runs: assignments in order, so a later
      entry for the same type replaces an earlier one. */
  function LegacyNodeMap(out: seq<LegacyEntry>): (m: map<string, string>)
    ensures forall k :: k in m <==> exists i :: 0 <= i < |out| && out[i].typeName == k
    decreases |out|
  {
    if |out| == 0 then map[]
    else
      var n := |out| - 1;
      var m := LegacyNodeMap(out[..n]);
      assert forall i :: 0 <= i < n ==> out[..n][i] == out[i];
      m[out[n].typeName := out[n].className]
  }

  /** Since the class name depends on the type alone, repeated types agree and
      the map sends every type to its resolved name. */
  lemma {:induction false} LegacyNodeMapValues(specs: seq<NodeSpec>)
    ensures forall t :: t in LegacyNodeMap(LegacyGenerate(specs)) ==>
      LegacyNodeMap(LegacyGenerate(specs))[t] == LegacyResolve(t)
    decreases |specs|
  {
    if |specs| > 0 {
      var n := |specs| - 1;
      LegacyGeneratePrefix(specs);
      LegacyNodeMapValues(specs[..n]);
      LegacyNodeMapSnoc(LegacyGenerate(specs));
    }
  }

  lemma LegacyGeneratePrefix(specs: seq<NodeSpec>)
    requires |specs| > 0
    ensures LegacyGenerate(specs)[..|specs| - 1] == LegacyGenerate(specs[..|specs| - 1])
    ensures LegacyGenerate(specs)[|specs| - 1].className == LegacyResolve(LegacyGenerate(specs)[|specs| - 1].typeName)
  {
  }

  /** The last entry decides its own type; every other type keeps what the
      entries before gave it. */
  lemma LegacyNodeMapSnoc(out: seq<LegacyEntry>)
    requires |out| > 0
    ensures forall t :: t in LegacyNodeMap(out) ==>
      LegacyNodeMap(out)[t] ==
        if t == out[|out| - 1].typeName then out[|out| - 1].className else LegacyNodeMap(out[..|out| - 1])[t]
  {
  }

  // ---------------------------------------------------------------------
  // the de-duplication the resolver documents
  // ---------------------------------------------------------------------

  /** The resolver as its documentation describes it: the converted name,
      made unique with a counter against the names issued so far, as the
      newer generator does. */
  function LegacyResolveUnique(seen: set<string>, raw: string): (r: (string, set<string>))
    ensures r.0 !in seen && r.1 == seen + {r.0}
  {
    var b := LegacyResolve(raw);
    var name := Candidate(b, FirstFree(b, seen, 0));
    (name, seen + {name})
  }

  /** Resolving a list of raw names on one shared resolver. */
  function LegacyResolveAllUnique(seen: set<string>, raws: seq<string>): (r: (seq<string>, set<string>))
    ensures |r.0| == |raws|
    ensures forall i :: 0 <= i < |raws| ==> r.0[i] !in seen
    ensures Distinct(r.0)
    ensures forall x :: x in r.1 <==> x in seen || x in r.0
    decreases |raws|
  {
    if |raws| == 0 then ([], seen)
    else
      var one := LegacyResolveUnique(seen, raws[0]);
      var rest := LegacyResolveAllUnique(one.1, raws[1..]);
      var names := [one.0] + rest.0;
      assert forall i :: 1 <= i < |names| ==> names[i] == rest.0[i - 1];
      (names, rest.1)
  }

  /** With the counter in place, `assert` and `assert_statement` get different
      class names, the second one numbered. */
  lemma AssertKeptApart()
    ensures var r := LegacyResolveAllUnique({}, ["assert", "assert_statement"]).0;
      r[0] != r[1] && r[0] == LegacyResolve("assert") &&
      r[1] == LegacyResolve("assert_statement") + "1"
  {
    AssertCollides();
    var b := LegacyResolve("assert");
    var one := LegacyResolveUnique({}, "assert");
    assert FirstFree(b, {}, 0) == 0;
    assert one.0 == b;
    assert Candidate(b, 0) in {b};
    var k := FirstFree(b, {b}, 0);
    assert k == 1 by {
      assert Candidate(b, 0) in {b};
      assert |Candidate(b, 1)| > |b|;
    }
    assert NatToStr(1) == "1";
  }
}
