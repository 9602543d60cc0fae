/** core.py: the frozen node record, the process-wide type registry, the
    conversion from a raw Tree-sitter node and the pretty printer.

    A node keeps the name of its Python class (`cls`): the registry decides it
    when the node is built, `pretty` prints it, and the selector and view code
    tests it. `fieldName` is the field tag a generated accessor reads; the
    record in core.py declares no such field, so nothing here ever sets it. */
module Nodes {
  import opened Wrappers
  import opened PyStrings
  import opened Utf8
  import PyRepr

  datatype Point = Point(row: int, column: int)

  datatype Node = Node(
    cls: string,
    typeName: string,
    startByte: int,
    endByte: int,
    startPoint: Point,
    endPoint: Point,
    text: string,
    children: seq<Node>,
    isNamed: bool,
    fieldName: Option<string>)

  /** What a `tree_sitter.Node` offers the converter. */
  datatype RawNode = RawNode(
    typ: string,
    startByte: int,
    endByte: int,
    startPoint: Point,
    endPoint: Point,
    children: seq<RawNode>,
    isNamed: bool)

  /** The class every conversion falls back to. */
  const BaseClass: string := "TSNode"

  /** `TSNode._registry`: type name to class name. */
  type Registry = map<string, string>

  /** `register_subclasses(mapping)`: `dict.update`. */
  function Register(reg: Registry, mapping: Registry): (r: Registry)
    ensures forall k :: k in r <==> k in reg || k in mapping
    ensures forall k :: k in mapping ==> r[k] == mapping[k]
    ensures forall k :: k in reg && k !in mapping ==> r[k] == reg[k]
  {
    reg + mapping
  }

  /** Registering a mapping a second time changes nothing. */
  lemma RegisterTwice(reg: Registry, mapping: Registry)
    ensures Register(Register(reg, mapping), mapping) == Register(reg, mapping)
  {
  }

  /** Of two registrations, the later one wins on a shared key. */
  lemma RegisterLaterWins(reg: Registry, a: Registry, b: Registry, k: string)
    requires k in b
    ensures Register(Register(reg, a), b)[k] == b[k]
  {
  }

  /** The class `cls._registry.get(type, cls)` picks. */
  function ClassFor(reg: Registry, caller: string, typ: string): string {
    if typ in reg then reg[typ] else caller
  }

  /** A registration decides the class of every type it maps and leaves the
      class of every other type as it was. */
  lemma ClassForRegister(reg: Registry, mapping: Registry, caller: string, typ: string)
    ensures typ in mapping ==> ClassFor(Register(reg, mapping), caller, typ) == mapping[typ]
    ensures typ !in mapping ==> ClassFor(Register(reg, mapping), caller, typ) == ClassFor(reg, caller, typ)
  {
  }

  /** With nothing registered for a type, the caller's class is used. */
  lemma ClassForEmpty(caller: string, typ: string)
    ensures ClassFor(map[], caller, typ) == caller
  {
  }

  /** `from_tree_sitter`, called on class `caller`: children are converted by
      the same caller, and the text is the node's byte range decoded with
      malformed sequences dropped. */
  function FromTreeSitter(reg: Registry, caller: string, raw: RawNode, source: seq<byte>): (n: Node)
    ensures n.typeName == raw.typ && n.isNamed == raw.isNamed
    ensures |n.children| == |raw.children|
    decreases raw
  {
    Node(
      ClassFor(reg, caller, raw.typ),
      raw.typ,
      raw.startByte,
      raw.endByte,
      raw.startPoint,
      raw.endPoint,
      DecodeIgnore(Slice(source, raw.startByte, raw.endByte)),
      seq(|raw.children|, i requires 0 <= i < |raw.children| =>
        FromTreeSitter(reg, caller, raw.children[i], source)),
      raw.isNamed,
      None)
  }

  /** The raw node a converted node came from: what conversion adds is dropped. */
  function Erase(n: Node): (r: RawNode)
    decreases n
  {
    RawNode(n.typeName, n.startByte, n.endByte, n.startPoint, n.endPoint,
      seq(|n.children|, i requires 0 <= i < |n.children| => Erase(n.children[i])),
      n.isNamed)
  }

  /** Conversion keeps every raw field and the whole tree shape, in order. */
  lemma {:induction false} EraseFromTreeSitter(reg: Registry, caller: string, raw: RawNode, source: seq<byte>)
    ensures Erase(FromTreeSitter(reg, caller, raw, source)) == raw
    decreases raw
  {
    var n := FromTreeSitter(reg, caller, raw, source);
    forall i | 0 <= i < |raw.children|
      ensures Erase(n.children[i]) == raw.children[i]
    {
      EraseFromTreeSitter(reg, caller, raw.children[i], source);
    }
    assert Erase(n).children == raw.children;
  }

  /** What a converted tree looks like at every node: the registry's class
      for its type (or the caller's, for an unknown type), no field tag, and
      the text of its byte range. */
  ghost predicate Materialized(reg: Registry, caller: string, source: seq<byte>, n: Node)
    decreases n
  {
    n.cls == ClassFor(reg, caller, n.typeName) &&
    n.fieldName.None? &&
    n.text == DecodeIgnore(Slice(source, n.startByte, n.endByte)) &&
    forall i :: 0 <= i < |n.children| ==> Materialized(reg, caller, source, n.children[i])
  }

  lemma {:induction false} FromTreeSitterMaterialized(reg: Registry, caller: string, raw: RawNode, source: seq<byte>)
    ensures Materialized(reg, caller, source, FromTreeSitter(reg, caller, raw, source))
    decreases raw
  {
    var n := FromTreeSitter(reg, caller, raw, source);
    forall i | 0 <= i < |raw.children|
      ensures Materialized(reg, caller, source, n.children[i])
    {
      FromTreeSitterMaterialized(reg, caller, raw.children[i], source);
    }
  }

  /** On ASCII bytes the decoded text is the byte range itself. */
  lemma AsciiText(reg: Registry, caller: string, raw: RawNode, source: seq<byte>)
    requires IsAsciiBytes(Slice(source, raw.startByte, raw.endByte))
    ensures var t := FromTreeSitter(reg, caller, raw, source).text;
      var b := Slice(source, raw.startByte, raw.endByte);
      |t| == |b| && forall i :: 0 <= i < |b| ==> t[i] as int == b[i]
  {
    DecodeAscii(Slice(source, raw.startByte, raw.endByte));
  }

  // ---------------------------------------------------------------------
  // pretty and __repr__
  // ---------------------------------------------------------------------

  const Ellipsis: char := '…'

  /** The text snippet `pretty` shows: absent when `max_text` is 0 or the text
      is blank; otherwise the stripped text on one line, cut to `max_text - 1`
      characters plus an ellipsis when longer than `max_text`. */
  function Snippet(text: string, maxText: int): (r: Option<string>)
    ensures r.None? <==> maxText == 0 || AllSpace(text)
    ensures r.Some? ==> '\n' !in r.value
    ensures r.Some? && maxText > 0 ==> |r.value| <= maxText
    ensures r.Some? && |Strip(text)| <= maxText ==> |r.value| == |Strip(text)|
    ensures r.Some? && |Strip(text)| > maxText ==> |r.value| > 0 && r.value[|r.value| - 1] == Ellipsis
  {
    if maxText == 0 || Strip(text) == "" then None
    else
      var flat := ReplaceChar(Strip(text), '\n', " ");
      ReplaceCharNoChar(Strip(text), '\n', " ");
      Some(Shorten(flat, maxText))
  }

  /** A one-line text cut to `max_text - 1` characters plus an ellipsis when
      it is longer than `max_text`, and kept whole otherwise. */
  function Shorten(flat: string, maxText: int): (r: string)
    ensures '\n' !in flat ==> '\n' !in r
    ensures maxText > 0 ==> |r| <= maxText
    ensures |flat| <= maxText ==> r == flat
    ensures |flat| > maxText ==> |r| > 0 && r[|r| - 1] == Ellipsis
  {
    if |flat| > maxText then Prefix(flat, maxText - 1) + [Ellipsis] else flat
  }

  /** Replacing every `c` by a string without `c` removes `c`, and a
      one-character replacement keeps the length. */
  lemma {:induction false} ReplaceCharNoChar(s: string, c: char, r: string)
    requires c !in r && |r| == 1
    ensures c !in ReplaceChar(s, c, r)
    ensures |ReplaceChar(s, c, r)| == |s|
    decreases |s|
  {
    if |s| > 0 {
      ReplaceCharNoChar(s[1..], c, r);
    }
  }

  /** The lines `pretty` shows for the node, each without its indentation. */
  function Parts(n: Node, indent: int, indentStr: string, maxText: int): (parts: seq<string>)
    decreases n, 1
  {
    var text := match Snippet(n.text, maxText)
      case Some(s) => ["text=" + PyRepr.Repr(s)]
      case None => [];
    var kids := if |n.children| == 0 then [] else
      [ChildrenBlock(Join(",\n", ChildBlocks(n, indent, indentStr, maxText)), Repeat(indentStr, indent + 1))];
    text + kids
  }

  /** The children block around the joined child printouts. */
  function ChildrenBlock(inner: string, nxt: string): string {
    "children=[\n" + inner + ("\n" + nxt + "]")
  }

  function ChildBlocks(n: Node, indent: int, indentStr: string, maxText: int): (r: seq<string>)
    ensures |r| == |n.children|
    decreases n, 0
  {
    seq(|n.children|, i requires 0 <= i < |n.children| =>
      Pretty(n.children[i], indent + 2, indentStr, maxText))
  }

  function Indented(pre: string, parts: seq<string>): (r: seq<string>)
    ensures |r| == |parts|
    ensures forall i :: 0 <= i < |parts| ==> r[i] == pre + parts[i]
  {
    seq(|parts|, i requires 0 <= i < |parts| => pre + parts[i])
  }

  /** `pretty(indent, indent_str, max_text)`: the class name, then the text
      snippet and the children block, each on its own line one level deeper,
      then the closing parenthesis at the node's own indentation; children
      are printed two levels deeper. The printout opens with the class name at
      the node's indentation and closes with a parenthesis at that
      indentation. */
  function Pretty(n: Node, indent: int, indentStr: string, maxText: int): (r: string)
    ensures StartsWith(r, Repeat(indentStr, indent) + n.cls + "(\n")
    ensures EndsWith(r, "\n" + Repeat(indentStr, indent) + ")")
    decreases n, 2
  {
    var ind := Repeat(indentStr, indent);
    var nxt := Repeat(indentStr, indent + 1);
    var body := Join(",\n", Indented(nxt, Parts(n, indent, indentStr, maxText)));
    Frame(Head(ind, n.cls), body, Tail(ind));
    Head(ind, n.cls) + body + Tail(ind)
  }

  function Head(ind: string, cls: string): string { ind + cls + "(\n" }
  function Tail(ind: string): string { "\n" + ind + ")" }

  /** Every child's own printout, two levels deeper, is part of its parent's. */
  lemma PrettyShowsChild(n: Node, indent: int, indentStr: string, maxText: int, i: nat)
    requires i < |n.children|
    ensures IsSubstring(Pretty(n.children[i], indent + 2, indentStr, maxText), Pretty(n, indent, indentStr, maxText))
  {
    var blocks := ChildBlocks(n, indent, indentStr, maxText);
    var child := blocks[i];
    var inner := Join(",\n", blocks);
    JoinContains(",\n", blocks, i);
    var nxt := Repeat(indentStr, indent + 1);
    var kid := ChildrenBlock(inner, nxt);
    SubstringWithin(child, "children=[\n", inner, "\n" + nxt + "]");
    var parts := Parts(n, indent, indentStr, maxText);
    assert parts[|parts| - 1] == kid;
    var lines := Indented(nxt, parts);
    SubstringWithin(child, nxt, kid, "");
    assert lines[|parts| - 1] == nxt + kid + "";
    JoinContains(",\n", lines, |parts| - 1);
    SubstringTrans(child, lines[|parts| - 1], Join(",\n", lines));
    var ind := Repeat(indentStr, indent);
    SubstringWithin(child, Head(ind, n.cls), Join(",\n", lines), Tail(ind));
  }

  /** `__repr__`: the type name only, whatever the node's class. */
  function Repr(n: Node): (r: string)
    ensures StartsWith(r, "TSNode(")
  {
    "TSNode(" + PyRepr.Repr(n.typeName) + ", …)"
  }

  /** Two nodes of one type have the same `repr`, even when their classes,
      text or children differ. */
  lemma ReprIgnoresClass(a: Node, b: Node)
    requires a.typeName == b.typeName
    ensures Repr(a) == Repr(b)
  {
  }

  /** The type name can be read back from the `repr`. */
  lemma ReprShowsType(n: Node)
    ensures var q := PyRepr.Repr(n.typeName);
      Repr(n)[|"TSNode("|..|"TSNode("| + |q|] == q &&
      PyRepr.Unescape(q[1..|q| - 1]) == n.typeName
  {
    PyRepr.ReprRoundTrip(n.typeName);
  }
}
