/** The entries of a Tree-sitter `node-types.json` file that the generators
    read, and the dictionary `{spec["type"]: spec for spec in node_specs}`
    that codegen.py builds from them. */
module Grammar {
  import opened Wrappers
  import opened PyStrings

  /** One entry of a node's `fields` object. Absent `multiple` means false,
      absent `required` means true; `types` lists the type names it allows. */
  datatype FieldSpec = FieldSpec(types: seq<string>, multiple: Option<bool>, required: Option<bool>)

  /** One element of the top-level list. Absent `named` means true; `fields`
      is the (possibly empty) fields object in its key order; `subtypes` is
      present only on supertype entries. */
  datatype NodeSpec = NodeSpec(
    typ: string,
    named: Option<bool>,
    fields: seq<(string, FieldSpec)>,
    subtypes: Option<seq<string>>)

  function IsMultiple(f: FieldSpec): bool { f.multiple.GetOr(false) }
  function IsRequired(f: FieldSpec): bool { f.required.GetOr(true) }
  function IsNamed(s: NodeSpec): bool { s.named.GetOr(true) }

  function Types(specs: seq<NodeSpec>): (r: seq<string>)
    ensures |r| == |specs|
    ensures forall i :: 0 <= i < |specs| ==> r[i] == specs[i].typ
  {
    seq(|specs|, i requires 0 <= i < |specs| => specs[i].typ)
  }

  /** The keys of the dictionary: every type once, in first-occurrence order. */
  function SpecKeys(specs: seq<NodeSpec>): (r: seq<string>)
    ensures Distinct(r)
    ensures forall t :: t in r <==> t in Types(specs)
  {
    Dedup(Types(specs))
  }

  /** The value stored under `t`: a later entry with the same type replaces an
      earlier one. */
  function SpecFor(specs: seq<NodeSpec>, t: string): (s: NodeSpec)
    requires t in Types(specs)
    ensures s.typ == t
    ensures exists i :: (0 <= i < |specs| && specs[i] == s &&
                         forall j :: i < j < |specs| ==> specs[j].typ != t)
    decreases |specs|
  {
    var last := specs[|specs| - 1];
    if last.typ == t then last
    else
      var init := specs[..|specs| - 1];
      assert t in Types(init) by {
        var k :| 0 <= k < |specs| && Types(specs)[k] == t;
        assert k < |init| && Types(init)[k] == t;
      }
      var s := SpecFor(init, t);
      assert exists i :: 0 <= i < |specs| && specs[i] == s && forall j :: i < j < |specs| ==> specs[j].typ != t by {
        var i :| 0 <= i < |init| && init[i] == s && forall j :: i < j < |init| ==> init[j].typ != t;
        assert specs[i] == s;
        assert forall j :: i < j < |specs| ==> specs[j].typ != t by {
          assert forall j :: i < j < |init| ==> specs[j] == init[j];
        }
      }
      s
  }

  /** Two entries with the same type string collapse into one key, whatever
      their `named` flags: the named `_` and the anonymous `_` share a class. */
  lemma SameTypeCollapses(a: NodeSpec, b: NodeSpec)
    requires a.typ == b.typ
    ensures SpecKeys([a, b]) == [a.typ]
    ensures SpecFor([a, b], a.typ) == b
  {
    assert Types([a, b]) == [a.typ, a.typ];
    assert Types([a, b])[..1] == [a.typ];
    assert Dedup([a.typ]) == [a.typ];
  }
}
