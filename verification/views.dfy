/** views.py: the name lookups of the function, class and import views, and
    `PyTransformer`, which records replacement texts for nodes and applies
    them to the document as incremental edits, last position first. */
module Views {
  import opened Wrappers
  import opened Errors
  import opened PyStrings
  import opened Utf8
  import opened Nodes
  import opened Incremental
  import opened GeneratedNodes
  import opened NodeGroups

  // ---------------------------------------------------------------------
  // name lookups
  // ---------------------------------------------------------------------

  /** `node.child_by_field_name(field)`: the first child tagged `field`.
      `TSNode` itself declares no such method; the lookup is read as the
      field-tag search the generated accessors use. */
  function ChildByField(n: Node, field: string): (r: Option<Node>)
    ensures r.None? <==> forall i :: 0 <= i < |n.children| ==> !Tagged(n.children[i], field)
    ensures r.Some? ==> exists i :: (0 <= i < |n.children| && n.children[i] == r.value &&
                                     Tagged(n.children[i], field) &&
                                     forall j :: 0 <= j < i ==> !Tagged(n.children[j], field))
  {
    FirstTagged(n.children, field)
  }

  /** `child.type_name == "identifier" or isinstance(child, IdentifierNode)` */
  predicate IsIdentifier(c: Node) {
    c.typeName == "identifier" || c.cls == "IdentifierNode"
  }

  function FirstIdentifier(cs: seq<Node>): (r: Option<Node>)
    ensures r.None? <==> forall i :: 0 <= i < |cs| ==> !IsIdentifier(cs[i])
    ensures r.Some? ==> exists i :: (0 <= i < |cs| && cs[i] == r.value && IsIdentifier(cs[i]) &&
                                     forall j :: 0 <= j < i ==> !IsIdentifier(cs[j]))
    decreases |cs|
  {
    if |cs| == 0 then None
    else if IsIdentifier(cs[0]) then Some(cs[0])
    else
      var r := FirstIdentifier(cs[1..]);
      assert forall i :: 1 <= i < |cs| ==> cs[i] == cs[1..][i - 1];
      if r.Some? then
        var i :| 0 <= i < |cs[1..]| && cs[1..][i] == r.value && IsIdentifier(cs[1..][i]) &&
                 forall j :: 0 <= j < i ==> !IsIdentifier(cs[1..][j]);
        assert cs[i + 1] == r.value;
        r
      else r
  }

  const Anonymous: string := "<anonymous>"

  /** `PyFunction.name()` and `PyClass.name()`, which share their code: the
      text of the `name` field child, else of the first identifier child,
      else `<anonymous>`. */
  function DefinitionName(n: Node): (r: string)
    ensures (exists i :: 0 <= i < |n.children| && Tagged(n.children[i], "name")) ==>
      exists i :: 0 <= i < |n.children| && Tagged(n.children[i], "name") && r == n.children[i].text &&
        forall j :: 0 <= j < i ==> !Tagged(n.children[j], "name")
    ensures (forall i :: 0 <= i < |n.children| ==> !Tagged(n.children[i], "name")) &&
            (exists i :: 0 <= i < |n.children| && IsIdentifier(n.children[i])) ==>
      exists i :: 0 <= i < |n.children| && IsIdentifier(n.children[i]) && r == n.children[i].text &&
        forall j :: 0 <= j < i ==> !IsIdentifier(n.children[j])
    ensures (forall i :: 0 <= i < |n.children| ==> !Tagged(n.children[i], "name") && !IsIdentifier(n.children[i])) ==>
      r == Anonymous
  {
    match ChildByField(n, "name")
    case Some(c) => c.text
    case None =>
      match FirstIdentifier(n.children)
      case Some(c) => c.text
      case None => Anonymous
  }

  /** The text of the child tagged `field`, or the empty string. */
  function FieldText(n: Node, field: string): (r: string)
    ensures (forall i :: 0 <= i < |n.children| ==> !Tagged(n.children[i], field)) ==> r == ""
    ensures (exists i :: 0 <= i < |n.children| && Tagged(n.children[i], field)) ==>
      exists i :: 0 <= i < |n.children| && Tagged(n.children[i], field) && r == n.children[i].text &&
        forall j :: 0 <= j < i ==> !Tagged(n.children[j], field)
  {
    match ChildByField(n, field)
    case Some(c) => c.text
    case None => ""
  }

  /** `PyImport.module_name()`: the `name` field of a plain import, the
      `module_name` field of a from-import, the empty string otherwise. */
  function ModuleName(n: Node): (r: string)
    ensures n.typeName == "import_statement" ==> r == FieldText(n, "name")
    ensures n.typeName == "import_from_statement" ==> r == FieldText(n, "module_name")
    ensures n.typeName != "import_statement" && n.typeName != "import_from_statement" ==> r == ""
  {
    if n.typeName == "import_statement" then FieldText(n, "name")
    else if n.typeName == "import_from_statement" then FieldText(n, "module_name")
    else ""
  }

  function Texts(cs: seq<Node>): (r: seq<string>)
    ensures |r| == |cs|
    ensures forall i :: 0 <= i < |cs| ==> r[i] == cs[i].text
  {
    seq(|cs|, i requires 0 <= i < |cs| => cs[i].text)
  }

  /** `PyImport.imported_names()`: for a from-import, the texts of the
      children tagged `name`, in order; nothing for any other node. */
  function ImportedNames(n: Node): (r: seq<string>)
    ensures n.typeName != "import_from_statement" ==> r == []
    ensures n.typeName == "import_from_statement" ==>
      |r| == |TaggedChildren(n.children, "name")| &&
      forall i :: 0 <= i < |r| ==> r[i] == TaggedChildren(n.children, "name")[i].text
  {
    if n.typeName == "import_from_statement" then Texts(TaggedChildren(n.children, "name")) else []
  }

  /** On a converted tree no child carries a field tag, so the field lookups
      always fall through: a definition is named by its first identifier
      child, module names are empty and no imported name is found. */
  lemma LookupsOnMaterialized(reg: Registry, caller: string, source: seq<byte>, n: Node)
    requires Materialized(reg, caller, source, n)
    ensures DefinitionName(n) == match FirstIdentifier(n.children)
      case Some(c) => c.text
      case None => Anonymous
    ensures ModuleName(n) == ""
    ensures ImportedNames(n) == []
  {
    AccessOnMaterialized(reg, caller, source, n, "name");
    AccessOnMaterialized(reg, caller, source, n, "module_name");
  }

  /** `PyFunction.is_async()`: `async` occurs within the first 20 characters
      of the node's text. */
  function IsAsync(n: Node): bool {
    Contains(Prefix(n.text, 20), "async")
  }

  /** The test only ever finds `async` in the text, and it finds it whenever
      the text opens with it; a name such as `async_task` within the first
      20 characters is found just the same. */
  lemma IsAsyncMeaning(n: Node)
    ensures IsAsync(n) ==> IsSubstring("async", n.text)
    ensures StartsWith(n.text, "async") ==> IsAsync(n)
  {
    var p := Prefix(n.text, 20);
    ContainsIsSubstring(p, "async");
    assert n.text == p + Suffix(n.text, 20);
    if IsAsync(n) {
      SubstringWithin("async", "", p, Suffix(n.text, 20));
      assert "" + p + Suffix(n.text, 20) == n.text;
    }
    if StartsWith(n.text, "async") {
      assert p[..5] == "async";
      assert OccursAt("async", p, 0);
    }
  }

  // ---------------------------------------------------------------------
  // edits
  // ---------------------------------------------------------------------

  /** A recorded edit: the node and its replacement text. */
  type Replacement = (Node, string)

  function StartOf(e: Replacement): int { e.0.startByte }

  /** Each start at or above the next one. */
  predicate SortedDesc(s: seq<Replacement>) {
    forall i :: 0 <= i < |s| - 1 ==> StartOf(s[i]) >= StartOf(s[i + 1])
  }

  /** In a sorted list, every start is at or above every later one. */
  lemma {:induction false} SortedDescPairwise(s: seq<Replacement>, i: int, j: int)
    requires SortedDesc(s) && 0 <= i <= j < |s|
    ensures StartOf(s[i]) >= StartOf(s[j])
    decreases j - i
  {
    if i < j {
      SortedDescPairwise(s, i + 1, j);
    }
  }

  /** Places `x` after every element whose start is not below its own. */
  function InsertDesc(x: Replacement, s: seq<Replacement>): (r: seq<Replacement>)
    ensures |r| == |s| + 1
    ensures r[0] == x || (|s| > 0 && r[0] == s[0])
    decreases |s|
  {
    if |s| == 0 then [x]
    else if StartOf(s[0]) >= StartOf(x) then [s[0]] + InsertDesc(x, s[1..])
    else [x] + s
  }

  /** Inserting adds exactly `x`. */
  lemma {:induction false} InsertDescMultiset(x: Replacement, s: seq<Replacement>)
    ensures multiset(InsertDesc(x, s)) == multiset(s) + multiset{x}
    decreases |s|
  {
    if |s| > 0 {
      assert s == [s[0]] + s[1..];
      if StartOf(s[0]) >= StartOf(x) {
        InsertDescMultiset(x, s[1..]);
      }
    }
  }

  /** When nothing starts below `x`, it goes last. */
  lemma {:induction false} InsertDescLast(x: Replacement, s: seq<Replacement>)
    requires forall i :: 0 <= i < |s| ==> StartOf(s[i]) >= StartOf(x)
    ensures InsertDesc(x, s) == s + [x]
    decreases |s|
  {
    if |s| > 0 {
      assert s == [s[0]] + s[1..];
      InsertDescLast(x, s[1..]);
    }
  }

  /** Inserting into a sorted list keeps it sorted. */
  lemma {:induction false} InsertDescSorted(x: Replacement, s: seq<Replacement>)
    requires SortedDesc(s)
    ensures SortedDesc(InsertDesc(x, s))
    decreases |s|
  {
    if |s| > 0 {
      var r := InsertDesc(x, s);
      if StartOf(s[0]) >= StartOf(x) {
        var rest := InsertDesc(x, s[1..]);
        InsertDescSorted(x, s[1..]);
        assert r == [s[0]] + rest;
        assert StartOf(rest[0]) <= StartOf(s[0]);
        forall i | 0 <= i < |r| - 1 ensures StartOf(r[i]) >= StartOf(r[i + 1]) {
          if i > 0 {
            assert r[i] == rest[i - 1] && r[i + 1] == rest[i];
          }
        }
      } else {
        assert r == [x] + s;
        forall i | 0 <= i < |r| - 1 ensures StartOf(r[i]) >= StartOf(r[i + 1]) {
          if i > 0 {
            assert r[i] == s[i - 1] && r[i + 1] == s[i];
          }
        }
      }
    }
  }

  /** `edits.sort(key=start_byte, reverse=True)`: a stable sort, latest
      start first. */
  function SortDesc(s: seq<Replacement>): (r: seq<Replacement>)
    ensures SortedDesc(r)
    ensures multiset(r) == multiset(s)
    decreases |s|
  {
    if |s| == 0 then []
    else
      var n := |s| - 1;
      assert s == s[..n] + [s[n]];
      InsertDescSorted(s[n], SortDesc(s[..n]));
      InsertDescMultiset(s[n], SortDesc(s[..n]));
      InsertDesc(s[n], SortDesc(s[..n]))
  }

  /** A list already in order is left as it is: among equal starts the
      recorded order stands. */
  lemma {:induction false} SortDescSorted(s: seq<Replacement>)
    requires SortedDesc(s)
    ensures SortDesc(s) == s
    decreases |s|
  {
    if |s| > 0 {
      var n := |s| - 1;
      var p := s[..n];
      assert SortedDesc(p) by {
        forall i | 0 <= i < |p| - 1 ensures StartOf(p[i]) >= StartOf(p[i + 1]) {
          assert p[i] == s[i] && p[i + 1] == s[i + 1];
        }
      }
      assert SortDesc(s) == InsertDesc(s[n], SortDesc(p));
      SortDescSorted(p);
      assert forall i :: 0 <= i < |p| ==> StartOf(p[i]) >= StartOf(s[n]) by {
        forall i | 0 <= i < |p| ensures StartOf(p[i]) >= StartOf(s[n]) {
          SortedDescPairwise(s, i, n);
        }
      }
      InsertDescLast(s[n], p);
      assert s == p + [s[n]];
    }
  }

  /** The elements starting at `k`, in their order in `s`. */
  function WithStart(s: seq<Replacement>, k: int): (r: seq<Replacement>)
    ensures |r| <= |s|
    ensures forall e :: e in r <==> e in s && StartOf(e) == k
    decreases |s|
  {
    if |s| == 0 then []
    else (if StartOf(s[0]) == k then [s[0]] else []) + WithStart(s[1..], k)
  }

  /** Selecting one start distributes over concatenation. */
  lemma {:induction false} WithStartAppend(a: seq<Replacement>, b: seq<Replacement>, k: int)
    ensures WithStart(a + b, k) == WithStart(a, k) + WithStart(b, k)
    decreases |a|
  {
    if |a| > 0 {
      assert (a + b)[1..] == a[1..] + b;
      WithStartAppend(a[1..], b, k);
    } else {
      assert a + b == b;
    }
  }

  /** A sorted list whose head starts below `k` has nothing starting at `k`. */
  lemma WithStartBelow(s: seq<Replacement>, k: int)
    requires SortedDesc(s) && |s| > 0 && StartOf(s[0]) < k
    ensures WithStart(s, k) == []
  {
    forall e | e in s ensures StartOf(e) < k {
      var i :| 0 <= i < |s| && s[i] == e;
      SortedDescPairwise(s, 0, i);
    }
  }

  /** Inserting into a sorted list puts `x` behind every element with its
      start, and changes no other start's elements. */
  lemma {:induction false} InsertDescStable(x: Replacement, s: seq<Replacement>, k: int)
    requires SortedDesc(s)
    ensures WithStart(InsertDesc(x, s), k) ==
      WithStart(s, k) + (if StartOf(x) == k then [x] else [])
    decreases |s|
  {
    if |s| > 0 {
      var r := InsertDesc(x, s);
      if StartOf(s[0]) >= StartOf(x) {
        assert SortedDesc(s[1..]) by {
          forall i | 0 <= i < |s[1..]| - 1
            ensures StartOf(s[1..][i]) >= StartOf(s[1..][i + 1])
          {
            assert s[1..][i] == s[i + 1] && s[1..][i + 1] == s[i + 2];
          }
        }
        InsertDescStable(x, s[1..], k);
        assert r[1..] == InsertDesc(x, s[1..]);
      } else {
        assert r[1..] == s;
        if StartOf(x) == k {
          WithStartBelow(s, k);
        }
      }
    }
  }

  /** The sort is stable: for every start, the elements with that start keep
      the order they were recorded in. */
  lemma {:induction false} SortDescStable(s: seq<Replacement>, k: int)
    ensures WithStart(SortDesc(s), k) == WithStart(s, k)
    decreases |s|
  {
    if |s| > 0 {
      var n := |s| - 1;
      var p := s[..n];
      assert SortDesc(s) == InsertDesc(s[n], SortDesc(p));
      SortDescStable(p, k);
      InsertDescStable(s[n], SortDesc(p), k);
      assert s == p + [s[n]];
      WithStartAppend(p, [s[n]], k);
      assert WithStart([s[n]], k) == if StartOf(s[n]) == k then [s[n]] else [];
    }
  }

  /** `_apply_edit(node, replacement)`: `ParsedDocument.edit` as the code is
      written, called with the node's byte range and a new end of the start
      plus the replacement's length; the text is cut at those numbers taken as
      character positions. */
  function ApplyEdit(d: Document, e: Replacement, parse: Parse, reg: Registry): (r: Edited)
    ensures r.doc.text == Splice(d.text, e.0.startByte, e.0.endByte, e.1)
  {
    EditAsWritten(d, e.0.startByte, e.0.endByte, e.0.startByte + |e.1|, e.1, parse, reg)
  }

  /** On ASCII text and replacement the edit leaves the text the byte-correct
      edit leaves. */
  lemma ApplyEditAscii(d: Document, e: Replacement, parse: Parse, reg: Registry)
    requires IsAscii(d.text) && IsAscii(e.1)
    ensures ApplyEdit(d, e, parse, reg).doc.text ==
      Edit(d, e.0.startByte, e.0.endByte, e.0.startByte + |e.1|, e.1, parse, reg).doc.text
  {
    AsciiEditAgrees(d, e.0.startByte, e.0.endByte, e.0.startByte + |e.1|, e.1, parse, reg);
  }

  /** The edits in list order; a reparse that raises ends the run. */
  function ApplyEdits(d: Document, edits: seq<Replacement>, parse: Parse, reg: Registry): (r: Edited)
    ensures |edits| == 0 ==> r == Edited(d, None)
    decreases |edits|
  {
    if |edits| == 0 then Edited(d, None)
    else
      var e := ApplyEdit(d, edits[0], parse, reg);
      if e.raised.Some? then e else ApplyEdits(e.doc, edits[1..], parse, reg)
  }

  /** The text alone, one splice after another. */
  function SpliceAll(text: string, edits: seq<Replacement>): string
    decreases |edits|
  {
    if |edits| == 0 then text
    else SpliceAll(Splice(text, edits[0].0.startByte, edits[0].0.endByte, edits[0].1), edits[1..])
  }

  /** A run that raises nothing leaves the text every splice in turn gives. */
  lemma {:induction false} ApplyEditsText(d: Document, edits: seq<Replacement>, parse: Parse, reg: Registry)
    ensures ApplyEdits(d, edits, parse, reg).raised.None? ==>
      ApplyEdits(d, edits, parse, reg).doc.text == SpliceAll(d.text, edits)
    decreases |edits|
  {
    if |edits| > 0 {
      var e := ApplyEdit(d, edits[0], parse, reg);
      if e.raised.None? {
        ApplyEditsText(e.doc, edits[1..], parse, reg);
      }
    }
  }

  // ---------------------------------------------------------------------
  // splicing last-first is replacing all at once
  // ---------------------------------------------------------------------

  predicate Span(e: Replacement) { 0 <= e.0.startByte <= e.0.endByte }

  /** A descending run of spans, pairwise apart: each ends where or before
      every earlier one starts, all inside the first `len` characters. */
  predicate DescDisjoint(s: seq<Replacement>, len: int) {
    (forall i :: 0 <= i < |s| ==> Span(s[i]) && s[i].0.endByte <= len) &&
    (forall i, j :: 0 <= i < j < |s| ==> s[j].0.endByte <= s[i].0.startByte)
  }

  /** Every span replaced at once, read left to right from `pos`: the gap,
      the replacement, and on from the span's end. */
  function Assemble(text: string, asc: seq<Replacement>, pos: int): string
    decreases |asc|
  {
    if |asc| == 0 then Slice(text, pos, |text|)
    else Slice(text, pos, asc[0].0.startByte) + asc[0].1 + Assemble(text, asc[1..], asc[0].0.endByte)
  }

  /** The splices touch only the first `|p|` characters, so what follows is
      carried along. */
  lemma {:induction false} SpliceAllFrame(p: string, q: string, d: seq<Replacement>)
    requires DescDisjoint(d, |p|)
    ensures SpliceAll(p + q, d) == SpliceAll(p, d) + q
    decreases |d|
  {
    if |d| > 0 {
      var x := d[0];
      var s := x.0.startByte;
      var e := x.0.endByte;
      assert (p + q)[..s] == p[..s];
      assert (p + q)[e..] == p[e..] + q;
      var p1 := Splice(p, s, e, x.1);
      assert Splice(p + q, s, e, x.1) == p1 + q;
      assert |p1| >= s;
      SpliceAllFrame(p1, q, d[1..]);
    }
  }

  /** Assembling up to a last span is assembling the text before it, then
      that span's replacement and the rest of the text. */
  lemma {:induction false} AssembleSnoc(text: string, asc: seq<Replacement>, x: Replacement, pos: int)
    requires Span(x) && x.0.endByte <= |text|
    requires 0 <= pos <= x.0.startByte
    requires forall i :: 0 <= i < |asc| ==> Span(asc[i]) && asc[i].0.endByte <= x.0.startByte
    requires forall i :: 0 <= i < |asc| ==> pos <= asc[i].0.startByte
    requires forall i, j :: 0 <= i < j < |asc| ==> asc[i].0.endByte <= asc[j].0.startByte
    ensures Assemble(text, asc + [x], pos) ==
      Assemble(text[..x.0.startByte], asc, pos) + x.1 + text[x.0.endByte..]
    decreases |asc|
  {
    var pre := text[..x.0.startByte];
    var post := x.1 + text[x.0.endByte..];
    if |asc| == 0 {
      calc {
        Assemble(text, asc + [x], pos);
        { assert asc + [x] == [x]; assert ([x])[1..] == []; }
        Slice(text, pos, x.0.startByte) + x.1 + Slice(text, x.0.endByte, |text|);
        { SliceOfPrefix(text, x.0.startByte, pos, x.0.startByte); }
        Slice(pre, pos, |pre|) + x.1 + text[x.0.endByte..];
      }
    } else {
      var a := asc[0];
      var tail := asc[1..];
      assert forall i :: 0 <= i < |tail| ==> tail[i] == asc[i + 1];
      AssembleSnoc(text, tail, x, a.0.endByte);
      AssembleSnocStep(text, asc, x, pos);
    }
  }

  /** One step of `AssembleSnoc`: the first span, then the rest as the
      recursive case already has it. */
  lemma AssembleSnocStep(text: string, asc: seq<Replacement>, x: Replacement, pos: int)
    requires |asc| > 0 && 0 <= pos <= asc[0].0.startByte <= asc[0].0.endByte <= x.0.startByte
    requires x.0.startByte <= x.0.endByte <= |text|
    requires Assemble(text, asc[1..] + [x], asc[0].0.endByte) ==
      Assemble(text[..x.0.startByte], asc[1..], asc[0].0.endByte) + x.1 + text[x.0.endByte..]
    ensures Assemble(text, asc + [x], pos) ==
      Assemble(text[..x.0.startByte], asc, pos) + x.1 + text[x.0.endByte..]
  {
    var a := asc[0];
    var pre := text[..x.0.startByte];
    var post := x.1 + text[x.0.endByte..];
    var rest := Assemble(pre, asc[1..], a.0.endByte);
    var s := Slice(pre, pos, a.0.startByte);
    assert Assemble(text, asc + [x], pos) == s + a.1 + Assemble(text, asc[1..] + [x], a.0.endByte) by {
      assert (asc + [x])[0] == a;
      assert (asc + [x])[1..] == asc[1..] + [x];
      SliceOfPrefix(text, x.0.startByte, pos, a.0.startByte);
    }
    assert Assemble(pre, asc, pos) == s + a.1 + rest;
  }

  /** Cutting the text at `k` does not change a slice that ends by `k`. */
  lemma SliceOfPrefix(text: string, k: int, i: int, j: int)
    requires 0 <= i && 0 <= j <= k <= |text|
    ensures Slice(text[..k], i, j) == Slice(text, i, j)
  {
  }

  /** Applying spans from the last to the first, each cut where the original
      text had it, is replacing every span of the original text at once. */
  lemma {:induction false} LastFirstIsSimultaneous(text: string, d: seq<Replacement>)
    requires DescDisjoint(d, |text|)
    ensures SpliceAll(text, d) == Assemble(text, Reverse(d), 0)
    decreases |d|
  {
    if |d| > 0 {
      var x := d[0];
      var s := x.0.startByte;
      var pre := text[..s];
      var post := x.1 + text[x.0.endByte..];
      var asc := Reverse(d[1..]);
      assert DescDisjoint(d[1..], |pre|) by {
        forall i | 0 <= i < |d[1..]| ensures d[1..][i].0.endByte <= s {
          assert d[1..][i] == d[i + 1];
        }
      }
      calc {
        SpliceAll(text, d);
        == { assert Splice(text, s, x.0.endByte, x.1) == pre + post; }
        SpliceAll(pre + post, d[1..]);
        == { SpliceAllFrame(pre, post, d[1..]); }
        SpliceAll(pre, d[1..]) + post;
        == { LastFirstIsSimultaneous(pre, d[1..]); }
        Assemble(pre, asc, 0) + post;
        Assemble(pre, asc, 0) + x.1 + text[x.0.endByte..];
        == { AscendingBelow(d, |text|); AssembleSnoc(text, asc, x, 0); }
        Assemble(text, asc + [x], 0);
        == { ReverseCons(d); }
        Assemble(text, Reverse(d), 0);
      }
    }
  }

  lemma ReverseCons<T>(d: seq<T>)
    requires |d| > 0
    ensures Reverse(d) == Reverse(d[1..]) + [d[0]]
  {
  }

  /** Read backwards, the spans after the first of a descending run are
      ascending and end before the first one starts. */
  lemma AscendingBelow(d: seq<Replacement>, len: int)
    requires |d| > 0 && DescDisjoint(d, len)
    ensures var asc := Reverse(d[1..]); var s := d[0].0.startByte;
      (forall i :: 0 <= i < |asc| ==> Span(asc[i]) && asc[i].0.endByte <= s) &&
      (forall i :: 0 <= i < |asc| ==> 0 <= asc[i].0.startByte) &&
      (forall i, j :: 0 <= i < j < |asc| ==> asc[i].0.endByte <= asc[j].0.startByte)
  {
    var asc := Reverse(d[1..]);
    var s := d[0].0.startByte;
    forall i | 0 <= i < |asc| ensures Span(asc[i]) && asc[i].0.endByte <= s {
      assert asc[i] == d[|d| - 1 - i];
    }
    forall i, j | 0 <= i < j < |asc| ensures asc[i].0.endByte <= asc[j].0.startByte {
      assert asc[i] == d[|d| - 1 - i] && asc[j] == d[|d| - 1 - j];
    }
  }

  // ---------------------------------------------------------------------
  // the transformer
  // ---------------------------------------------------------------------

  /** The `visit_<type>` handlers a transformer subclass defines, by type. */
  type Handlers = map<string, Node -> Option<string>>

  /** `PyTransformer`: the module's root node, as the view was built, and
      the list of recorded edits, which lives as long as the transformer. */
  datatype Transformer = Transformer(root: Node, edits: seq<Replacement>)

  /** The collecting loop of `visit`, over the nodes in iteration order: a
      node gets an edit when its type has a handler and the handler does not
      return `None`. */
  function Collect(order: seq<Node>, handlers: Handlers): (r: seq<Replacement>)
    ensures |r| <= |order|
    ensures forall e :: e in r <==>
      e.0 in order && e.0.typeName in handlers && handlers[e.0.typeName](e.0) == Some(e.1)
    decreases |order|
  {
    if |order| == 0 then []
    else
      var rest := Collect(order[1..], handlers);
      assert forall x :: x in order <==> x == order[0] || x in order[1..];
      var n := order[0];
      if n.typeName in handlers && handlers[n.typeName](n).Some? then
        [(n, handlers[n.typeName](n).value)] + rest
      else rest
  }

  /** The order a set iteration visits the tree's nodes in: each node once. */
  ghost predicate Enumerates(order: seq<Node>, s: set<Node>) {
    Distinct(order) && forall n :: n in order <==> n in s
  }

  datatype Visited = Visited(t: Transformer, result: Edited)

  /** `visit()`: new edits are added to the recorded ones, the whole list is
      sorted latest start first and kept so, and every edit in it is applied
      to the document; the result's document text is what `visit` returns. */
  function Visit(t: Transformer, order: seq<Node>, handlers: Handlers, d: Document,
                 parse: Parse, reg: Registry): (r: Visited)
    requires Enumerates(order, Subtree(t.root))
    ensures r.t.root == t.root
    ensures multiset(r.t.edits) == multiset(t.edits + Collect(order, handlers))
    ensures SortedDesc(r.t.edits)
    ensures r.result == ApplyEdits(d, r.t.edits, parse, reg)
  {
    var edits := SortDesc(t.edits + Collect(order, handlers));
    Visited(Transformer(t.root, edits), ApplyEdits(d, edits, parse, reg))
  }

  /** A second `visit` finds the same nodes as the first, since the root is
      never refreshed, and so applies every edit of the first call again,
      this time to the already edited document. */
  lemma VisitAgain(t: Transformer, order: seq<Node>, handlers: Handlers, d1: Document, d2: Document,
                   parse: Parse, reg: Registry)
    requires Enumerates(order, Subtree(t.root))
    ensures var v1 := Visit(t, order, handlers, d1, parse, reg);
      var v2 := Visit(v1.t, order, handlers, d2, parse, reg);
      var c := Collect(order, handlers);
      multiset(v2.t.edits) == multiset(t.edits) + multiset(c) + multiset(c)
  {
  }

  /** With edits whose spans do not overlap, a `visit` that raises nothing
      leaves the document text with every recorded node's span replaced at
      once (spans in byte numbers, cut as character positions; on ASCII text
      the two agree, `ApplyEditAscii`). */
  lemma VisitReplacesAll(t: Transformer, order: seq<Node>, handlers: Handlers, d: Document,
                         parse: Parse, reg: Registry)
    requires Enumerates(order, Subtree(t.root))
    requires var v := Visit(t, order, handlers, d, parse, reg);
      DescDisjoint(v.t.edits, |d.text|)
    ensures var v := Visit(t, order, handlers, d, parse, reg);
      v.result.raised.None? ==> v.result.doc.text == Assemble(d.text, Reverse(v.t.edits), 0)
  {
    var v := Visit(t, order, handlers, d, parse, reg);
    ApplyEditsText(d, v.t.edits, parse, reg);
    LastFirstIsSimultaneous(d.text, v.t.edits);
  }

  /** `bulk_transform(selector, transformer)`: every node of the tree the
      selector matches gets the transformer's text, and these edits, sorted
      latest start first, are applied; the recorded edits are untouched. */
  function BulkTransform(t: Transformer, order: seq<Node>, s: Selector, f: Node -> string,
                         d: Document, parse: Parse, reg: Registry): (r: Visited)
    requires Enumerates(order, NodeGroups.Materialize(Filter(FromTree(t.root), s)))
    ensures r.t == t
    ensures var edits := seq(|order|, i requires 0 <= i < |order| => (order[i], f(order[i])));
      r.result == ApplyEdits(d, SortDesc(edits), parse, reg)
  {
    var edits := seq(|order|, i requires 0 <= i < |order| => (order[i], f(order[i])));
    Visited(t, ApplyEdits(d, SortDesc(edits), parse, reg))
  }

  /** The bulk edits are exactly the selected nodes with their texts. */
  lemma BulkEdits(t: Transformer, order: seq<Node>, s: Selector, f: Node -> string)
    requires Enumerates(order, NodeGroups.Materialize(Filter(FromTree(t.root), s)))
    ensures var edits := SortDesc(seq(|order|, i requires 0 <= i < |order| => (order[i], f(order[i]))));
      |edits| == |order| &&
      forall e :: e in edits <==> e.0 in Subtree(t.root) && Matches(s, e.0) && e.1 == f(e.0)
  {
    var raw := seq(|order|, i requires 0 <= i < |order| => (order[i], f(order[i])));
    var edits := SortDesc(raw);
    assert |edits| == |raw| by {
      assert |edits| == |multiset(edits)| == |multiset(raw)| == |raw|;
    }
    assert forall n :: n in order <==> n in Subtree(t.root) && Matches(s, n) by {
      FilterMaterialize(FromTree(t.root), s);
    }
    forall e ensures e in edits <==> e.0 in order && e.1 == f(e.0) {
      assert e in edits <==> e in multiset(edits);
      assert e in raw <==> e in multiset(raw);
      if e.0 in order && e.1 == f(e.0) {
        var i :| 0 <= i < |order| && order[i] == e.0;
        assert raw[i] == e;
      }
    }
  }
}
