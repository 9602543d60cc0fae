/** What the classes emitted by codegen.py do at run time: the typed field
    accessors and the three edit helpers every class carries. A field is found
    through the children's field tags; an edit builds a copy of the node
    (`model_copy`) with a new child list and every other field unchanged. */
module GeneratedNodes {
  import opened Wrappers
  import opened Errors
  import opened PyStrings
  import opened Nodes

  predicate Tagged(c: Node, field: string) {
    c.fieldName == Some(field)
  }

  /** The children tagged with `field`, in order. */
  function TaggedChildren(cs: seq<Node>, field: string): (r: seq<Node>)
    ensures |r| <= |cs|
    ensures forall x :: x in r <==> x in cs && Tagged(x, field)
    decreases |cs|
  {
    if |cs| == 0 then []
    else
      var rest := TaggedChildren(cs[1..], field);
      assert forall x :: x in cs <==> x == cs[0] || x in cs[1..];
      if Tagged(cs[0], field) then [cs[0]] + rest else rest
  }

  /** The first child tagged with `field`, if any. */
  function FirstTagged(cs: seq<Node>, field: string): (r: Option<Node>)
    ensures r.None? <==> forall i :: 0 <= i < |cs| ==> !Tagged(cs[i], field)
    ensures r.Some? ==> exists i :: (0 <= i < |cs| && cs[i] == r.value && Tagged(cs[i], field) &&
                                     forall j :: 0 <= j < i ==> !Tagged(cs[j], field))
    decreases |cs|
  {
    if |cs| == 0 then None
    else if Tagged(cs[0], field) then Some(cs[0])
    else
      var r := FirstTagged(cs[1..], field);
      assert forall i :: 1 <= i < |cs| ==> cs[i] == cs[1..][i - 1];
      if r.Some? then
        var i :| 0 <= i < |cs[1..]| && cs[1..][i] == r.value && Tagged(cs[1..][i], field) &&
                 forall j :: 0 <= j < i ==> !Tagged(cs[1..][j], field);
        assert cs[i + 1] == r.value;
        r
      else r
  }

  /** The first tagged child is the head of the tagged list. */
  lemma {:induction false} FirstIsHeadOfTagged(cs: seq<Node>, field: string)
    ensures FirstTagged(cs, field).None? <==> |TaggedChildren(cs, field)| == 0
    ensures FirstTagged(cs, field).Some? ==> FirstTagged(cs, field).value == TaggedChildren(cs, field)[0]
    decreases |cs|
  {
    if |cs| > 0 && !Tagged(cs[0], field) {
      FirstIsHeadOfTagged(cs[1..], field);
    }
  }

  datatype FieldKind = AllTagged | FirstOrRaise | FirstOrNone

  /** How a field's accessor behaves: `multiple` (default false) returns a
      list; otherwise `required` (default true) raises when absent and an
      optional field returns None. */
  function KindOf(multiple: bool, required: bool): (k: FieldKind)
    ensures k == AllTagged <==> multiple
    ensures k == FirstOrRaise <==> !multiple && required
    ensures k == FirstOrNone <==> !multiple && !required
  {
    if multiple then AllTagged else if required then FirstOrRaise else FirstOrNone
  }

  datatype Accessed = Many(nodes: seq<Node>) | One(node: Option<Node>)

  /** The generated `@property` for field `field` of kind `kind`. */
  function Access(n: Node, field: string, kind: FieldKind): (r: Result<Accessed, Error>)
    ensures kind == AllTagged ==> r == Ok(Many(TaggedChildren(n.children, field)))
    ensures kind == FirstOrNone ==> r == Ok(One(FirstTagged(n.children, field)))
    ensures kind == FirstOrRaise ==>
      (r.Err? <==> forall i :: 0 <= i < |n.children| ==> !Tagged(n.children[i], field))
    ensures kind == FirstOrRaise && r.Err? ==> r.error == ValueError
    ensures kind == FirstOrRaise && r.Ok? ==> r.value == One(FirstTagged(n.children, field))
  {
    match kind
    case AllTagged => Ok(Many(TaggedChildren(n.children, field)))
    case FirstOrNone => Ok(One(FirstTagged(n.children, field)))
    case FirstOrRaise =>
      match FirstTagged(n.children, field)
      case None => Err(ValueError)
      case Some(c) => Ok(One(Some(c)))
  }

  /** Nothing in a freshly converted tree carries a field tag, so its
      accessors find nothing: lists are empty, required fields raise and
      optional ones are None. */
  lemma AccessOnMaterialized(reg: Registry, caller: string, source: seq<Utf8.byte>, n: Node, field: string)
    requires Materialized(reg, caller, source, n)
    ensures Access(n, field, AllTagged) == Ok(Many([]))
    ensures Access(n, field, FirstOrRaise) == Err(ValueError)
    ensures Access(n, field, FirstOrNone) == Ok(One(None))
  {
    forall i | 0 <= i < |n.children| ensures !Tagged(n.children[i], field) {
      assert Materialized(reg, caller, source, n.children[i]);
    }
    FirstIsHeadOfTagged(n.children, field);
  }

  // ---------------------------------------------------------------------
  // edit helpers
  // ---------------------------------------------------------------------

  /** `list.insert(index, x)`: a negative index counts from the end, and an
      index out of range is clamped to the nearer end. */
  function ListInsert<T>(s: seq<T>, index: int, x: T): (r: seq<T>)
    ensures |r| == |s| + 1
    ensures var k := PyIndex(|s|, index); r[k] == x && r[..k] == s[..k] && r[k + 1..] == s[k..]
  {
    var k := PyIndex(|s|, index);
    s[..k] + [x] + s[k..]
  }

  /** The elements other than `x`, in order. */
  function Without<T(==,!new)>(s: seq<T>, x: T): (r: seq<T>)
    ensures forall y :: y in r <==> y in s && y != x
    ensures |r| <= |s|
    decreases |s|
  {
    if |s| == 0 then []
    else
      var rest := Without(s[1..], x);
      assert forall y :: y in s <==> y == s[0] || y in s[1..];
      if s[0] == x then rest else [s[0]] + rest
  }

  /** Every element equal to `a` becomes `b`. */
  function ReplaceAll<T(==)>(s: seq<T>, a: T, b: T): (r: seq<T>)
    ensures |r| == |s|
    ensures forall i :: 0 <= i < |s| ==> r[i] == (if s[i] == a then b else s[i])
  {
    seq(|s|, i requires 0 <= i < |s| => if s[i] == a then b else s[i])
  }

  /** `insert_child(index, child)` */
  function InsertChild(n: Node, index: int, child: Node): (r: Node)
    ensures multiset(r.children) == multiset(n.children) + multiset{child}
    ensures r.(children := n.children) == n
  {
    var s := n.children;
    var k := PyIndex(|s|, index);
    var t := ListInsert(s, index, child);
    assert t == s[..k] + [child] + s[k..];
    assert s == s[..k] + s[k..];
    n.(children := t)
  }

  /** `replace_child(old_child, new_child)`: every equal child is replaced. */
  function ReplaceChild(n: Node, oldChild: Node, newChild: Node): (r: Node)
    ensures |r.children| == |n.children|
    ensures oldChild != newChild ==> oldChild !in r.children
    ensures forall c :: c in r.children && c != newChild ==> c in n.children
    ensures oldChild in n.children ==> newChild in r.children
    ensures r.(children := n.children) == n
  {
    n.(children := ReplaceAll(n.children, oldChild, newChild))
  }

  /** `delete_child(child)`: every equal child is removed. */
  function DeleteChild(n: Node, child: Node): (r: Node)
    ensures forall c :: c in r.children <==> c in n.children && c != child
    ensures |r.children| <= |n.children|
    ensures r.(children := n.children) == n
  {
    n.(children := Without(n.children, child))
  }

  lemma {:induction false} WithoutAppend<T(!new)>(a: seq<T>, b: seq<T>, x: T)
    ensures Without(a + b, x) == Without(a, x) + Without(b, x)
    decreases |a|
  {
    if |a| == 0 {
      assert a + b == b;
    } else {
      assert (a + b)[1..] == a[1..] + b;
      WithoutAppend(a[1..], b, x);
    }
  }

  lemma {:induction false} WithoutAbsent<T(!new)>(s: seq<T>, x: T)
    requires x !in s
    ensures Without(s, x) == s
    decreases |s|
  {
    if |s| > 0 {
      WithoutAbsent(s[1..], x);
    }
  }

  lemma {:induction false} WithoutTwice<T(!new)>(s: seq<T>, x: T)
    ensures Without(Without(s, x), x) == Without(s, x)
  {
    WithoutAbsent(Without(s, x), x);
  }

  /** Deleting a child that was just inserted, and was not there before,
      gives the node back. */
  lemma DeleteUndoesInsert(n: Node, index: int, child: Node)
    requires child !in n.children
    ensures DeleteChild(InsertChild(n, index, child), child) == n
  {
    var s := n.children;
    var k := PyIndex(|s|, index);
    assert s == s[..k] + s[k..];
    WithoutInserted(s[..k], s[k..], child);
  }

  lemma WithoutInserted<T(!new)>(a: seq<T>, b: seq<T>, x: T)
    requires x !in a && x !in b
    ensures Without(a + [x] + b, x) == a + b
  {
    assert Without(a + [x], x) == a by {
      WithoutAppend(a, [x], x);
      WithoutAbsent(a, x);
      assert Without([x], x) == [];
      assert a + [] == a;
    }
    assert Without(b, x) == b by {
      WithoutAbsent(b, x);
    }
    WithoutAppend(a + [x], b, x);
  }

  /** Deleting twice is deleting once. */
  lemma DeleteIdempotent(n: Node, child: Node)
    ensures DeleteChild(DeleteChild(n, child), child) == DeleteChild(n, child)
  {
    WithoutTwice(n.children, child);
  }

  /** Replacing back undoes a replacement whose new child was not there. */
  lemma ReplaceBack(n: Node, a: Node, b: Node)
    requires b !in n.children
    ensures ReplaceChild(ReplaceChild(n, a, b), b, a) == n
  {
    var s := n.children;
    var r := ReplaceAll(ReplaceAll(s, a, b), b, a);
    forall i | 0 <= i < |s| ensures r[i] == s[i] {
      assert s[i] != b;
    }
  }

  /** After a replacement no child equals the old one, unless old and new are
      the same. */
  lemma ReplaceRemovesOld(n: Node, a: Node, b: Node)
    requires a != b
    ensures a !in ReplaceChild(n, a, b).children
  {
  }
}
