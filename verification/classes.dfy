/** core/classes.py: a class with its bases, methods and attribute lines,
    and the construction of one from a graph-sitter node by reading its
    `class` header. */
module PyClasses {
  import opened Wrappers
  import opened Errors
  import opened PyStrings
  import opened CodeBase
  import opened Parameters
  import opened PyFunctions

  datatype Class = Class(
    base: Base,
    name: string,
    bases: seq<string>,
    docstring: Option<string>,
    methods: seq<Function>,
    attributes: seq<string>)

  /** `PyClass(...)`: only the inherited post-init check can refuse it. */
  function NewClass(node: GsNode, validate: bool, name: string, bases: seq<string>, docstring: Option<string>,
                    methods: seq<Function>, attributes: seq<string>): (r: Result<Class, Error>)
    ensures r.Ok? <==> Construct(node, validate).Ok?
    ensures r.Ok? ==> r.value == Class(Base(node, validate), name, bases, docstring, methods, attributes)
    ensures r.Err? ==> r.error == ValidationError
  {
    match Construct(node, validate)
    case Ok(b) => Ok(Class(b, name, bases, docstring, methods, attributes))
    case Err(e) => Err(e)
  }

  function MethodNames(ms: seq<Function>): (r: seq<string>)
    ensures |r| == |ms|
    ensures forall i :: 0 <= i < |ms| ==> r[i] == ms[i].name
  {
    seq(|ms|, i requires 0 <= i < |ms| => ms[i].name)
  }

  /** `get_method(name)`: the first method with that name. */
  function GetMethod(c: Class, name: string): (r: Option<Function>)
    ensures r.None? <==> name !in MethodNames(c.methods)
    ensures r.Some? ==> exists i :: (0 <= i < |c.methods| && c.methods[i] == r.value &&
                                     r.value.name == name && name !in MethodNames(c.methods)[..i])
  {
    match IndexOf(MethodNames(c.methods), name)
    case None => None
    case Some(i) => Some(c.methods[i])
  }

  /** `has_method(name)` */
  function HasMethod(c: Class, name: string): (r: bool)
    ensures r <==> exists i :: 0 <= i < |c.methods| && c.methods[i].name == name
  {
    assert name in MethodNames(c.methods) <==> exists i :: 0 <= i < |c.methods| && c.methods[i].name == name by {
      if name in MethodNames(c.methods) {
        var i :| 0 <= i < |c.methods| && MethodNames(c.methods)[i] == name;
      }
    }
    GetMethod(c, name).Some?
  }

  /** The method `add_method` creates: no node, no parameters, no docstring. */
  function FreshMethod(name: string, returnType: Option<string>): Function {
    Function(Base(PyNone, true), name, [], returnType, None)
  }

  /** A method just created renders as a signature without parameters, and
      has no source of its own. */
  lemma FreshMethodSignature(name: string, returnType: Option<string>)
    ensures ToSignature(FreshMethod(name, returnType)) == "def " + name + "()" + ReturnPart(returnType) + ":"
    ensures CodeBase.ToSource(FreshMethod(name, returnType).base) == Err(GraphSitterIntegrationError)
  {
  }

  /** `add_method(name, return_type)`: a name already present is refused;
      otherwise the new method goes at the end and is returned. */
  function AddMethod(c: Class, name: string, returnType: Option<string>): (r: Result<(Class, Function), Error>)
    ensures r.Err? <==> HasMethod(c, name)
    ensures r.Err? ==> r.error == ValidationError
    ensures r.Ok? ==> (r.value.1 == FreshMethod(name, returnType) &&
                       r.value.0.methods == c.methods + [r.value.1] &&
                       r.value.0.(methods := c.methods) == c)
  {
    if HasMethod(c, name) then Err(ValidationError)
    else
      ConstructNone(true);
      var m := NewFunction(PyNone, true, name, [], returnType, None).value;
      Ok((c.(methods := c.methods + [m]), m))
  }

  /** A method just added is found by its name, and adding the same name
      again is refused. */
  lemma AddMethodThenGet(c: Class, name: string, returnType: Option<string>)
    requires AddMethod(c, name, returnType).Ok?
    ensures var d := AddMethod(c, name, returnType).value.0;
      GetMethod(d, name) == Some(FreshMethod(name, returnType)) &&
      AddMethod(d, name, returnType).Err?
  {
    var d := AddMethod(c, name, returnType).value.0;
    assert MethodNames(d.methods) == MethodNames(c.methods) + [name];
    IndexOfAt(MethodNames(d.methods), name, |c.methods|);
  }

  /** The attribute line `name[: hint][ = value]`. */
  function AttributeText(name: string, typeHint: Option<string>, value: PyValue): (r: string)
    ensures StartsWith(r, name)
    ensures r == name <==> Filled(typeHint).None? && value == NoneValue
  {
    Declaration(name, typeHint, DefaultText(value))
  }

  /** `add_attribute(name, type_hint, value)`: refused when `name` equals a
      stored line exactly; otherwise the line goes at the end. */
  function AddAttribute(c: Class, name: string, typeHint: Option<string>, value: PyValue): (r: Result<Class, Error>)
    ensures r.Err? <==> name in c.attributes
    ensures r.Err? ==> r.error == ValidationError
    ensures r.Ok? ==> (r.value.attributes == c.attributes + [AttributeText(name, typeHint, value)] &&
                       r.value.(attributes := c.attributes) == c)
  {
    if name in c.attributes then Err(ValidationError)
    else Ok(c.(attributes := c.attributes + [AttributeText(name, typeHint, value)]))
  }

  /** `has_attribute(name)`: `name` occurs inside some stored line. */
  function HasAttribute(c: Class, name: string): (r: bool)
    ensures r <==> exists i :: 0 <= i < |c.attributes| && IsSubstring(name, c.attributes[i])
  {
    forall i | 0 <= i < |c.attributes| ensures Contains(c.attributes[i], name) <==> IsSubstring(name, c.attributes[i]) {
      ContainsIsSubstring(c.attributes[i], name);
    }
    exists i :: 0 <= i < |c.attributes| && Contains(c.attributes[i], name)
  }

  /** An attribute just added is reported present. */
  lemma AddAttributeThenHas(c: Class, name: string, typeHint: Option<string>, value: PyValue)
    requires AddAttribute(c, name, typeHint, value).Ok?
    ensures HasAttribute(AddAttribute(c, name, typeHint, value).value, name)
  {
    var d := AddAttribute(c, name, typeHint, value).value;
    var t := AttributeText(name, typeHint, value);
    assert d.attributes[|c.attributes|] == t;
    assert t[..|name|] == name;
    assert Contains(t, name);
  }

  /** The duplicate check compares whole lines: an attribute added with a
      truthy hint can be added again, while a bare one cannot. */
  lemma DuplicateCheckIsExact(c: Class, name: string, hint: string, value: PyValue)
    requires name !in c.attributes && hint != ""
    ensures AddAttribute(c, name, Some(hint), value).Ok?
    ensures AddAttribute(AddAttribute(c, name, Some(hint), value).value, name, Some(hint), value).Ok?
    ensures AddAttribute(c, name, None, NoneValue).Ok?
    ensures AddAttribute(AddAttribute(c, name, None, NoneValue).value, name, None, NoneValue).Err?
  {
    var t := AttributeText(name, Some(hint), value);
    assert |t| > |name|;
    assert AttributeText(name, None, NoneValue) == name;
  }

  /** `set_docstring(d)` */
  function SetClassDocstring(c: Class, d: string): (r: Class)
    ensures r.docstring == Some(d)
    ensures r.(docstring := c.docstring) == c
  {
    c.(docstring := Some(d))
  }

  function BasesPart(bases: seq<string>): string {
    if |bases| > 0 then "(" + Join(", ", bases) + ")" else ""
  }

  /** `to_class_definition()`: `class N:` or `class N(B1, B2):`. */
  function ToClassDefinition(c: Class): (r: string)
    ensures StartsWith(r, "class " + c.name)
    ensures |r| > 0 && r[|r| - 1] == ':'
    ensures r == "class " + c.name + ":" <==> |c.bases| == 0
  {
    "class " + c.name + BasesPart(c.bases) + ":"
  }

  // ---------------------------------------------------------------------
  // the header pattern: `class`, whitespace, an ASCII identifier (the
  // name), optional whitespace, an optional parenthesised run of
  // characters other than `)` (the bases), optional whitespace and `:`;
  // searched with `^` matching at the start of every line
  // ---------------------------------------------------------------------

  predicate IsIdentStart(c: char) { IsAsciiLetter(c) || c == '_' }
  predicate IsIdentChar(c: char) { IsIdentStart(c) || IsDigit(c) }
  predicate NotClose(c: char) { c != ')' }

  /** The end of the longest run of `p`-characters starting at `i`. */
  function RunFrom(s: string, i: nat, p: char -> bool): (k: nat)
    requires i <= |s|
    ensures i <= k <= |s|
    ensures forall j :: i <= j < k ==> p(s[j])
    ensures k < |s| ==> !p(s[k])
    decreases |s| - i
  {
    if i == |s| || !p(s[i]) then i else RunFrom(s, i + 1, p)
  }

  /** A run is determined by where it stops. */
  lemma RunIs(s: string, i: nat, k: nat, p: char -> bool)
    requires i <= k <= |s|
    requires forall j :: i <= j < k ==> p(s[j])
    requires k < |s| ==> !p(s[k])
    ensures RunFrom(s, i, p) == k
  {
  }

  /** The pattern matched at position `at`: the class name and the raw
      bases group, if the group took part. Every quantifier is greedy and
      no shorter choice lets the rest match (an identifier is followed by a
      non-identifier character, `[^)]*` can only end at a `)`), so the first
      attempt is the only one. */
  function MatchAt(s: string, at: nat): (r: Option<(string, Option<string>)>)
    requires at <= |s|
    ensures r.Some? ==> StartsWith(s[at..], "class")
    ensures r.Some? ==> IsIdentifier(r.value.0)
    ensures r.Some? && r.value.1.Some? ==> ')' !in r.value.1.value
  {
    if !StartsWith(s[at..], "class") then None
    else
      var i := at + 5;
      var j := RunFrom(s, i, IsSpace);
      if j == i || j == |s| || !IsIdentStart(s[j]) then None
      else
        var k := RunFrom(s, j + 1, IsIdentChar);
        var m := RunFrom(s, k, IsSpace);
        var q := if m < |s| && s[m] == '(' then RunFrom(s, m + 1, NotClose) else |s|;
        var group := q < |s|;
        var after := if group then q + 1 else m;
        var t := RunFrom(s, after, IsSpace);
        if t < |s| && s[t] == ':' then Some((s[j..k], if group then Some(s[m + 1..q]) else None))
        else None
  }

  /** `^` in MULTILINE mode: the start of the text or just after a newline. */
  predicate LineStart(s: string, p: nat)
    requires p <= |s|
  {
    p == 0 || s[p - 1] == '\n'
  }

  /** `header_pat.search(s)` from position `p` on. */
  function SearchFrom(s: string, p: nat): (r: Option<(string, Option<string>)>)
    requires p <= |s|
    ensures r.Some? ==> exists at :: p <= at <= |s| && LineStart(s, at) && MatchAt(s, at) == r
    ensures r.None? ==> forall at :: p <= at <= |s| && LineStart(s, at) ==> MatchAt(s, at).None?
    decreases |s| - p
  {
    if LineStart(s, p) && MatchAt(s, p).Some? then MatchAt(s, p)
    else if p == |s| then None
    else SearchFrom(s, p + 1)
  }

  /** The non-empty stripped pieces, in order. */
  function StripAll(parts: seq<string>): (r: seq<string>)
    ensures forall i :: 0 <= i < |r| ==> r[i] != ""
    decreases |parts|
  {
    if |parts| == 0 then []
    else
      var b := Strip(parts[0]);
      if b != "" then [b] + StripAll(parts[1..]) else StripAll(parts[1..])
  }

  /** The bases list: the group split on `,`, each piece stripped, empty
      pieces dropped; nothing when the group is absent or empty. */
  function SplitBases(raw: Option<string>): (r: seq<string>)
    ensures raw.None? ==> r == []
    ensures forall i :: 0 <= i < |r| ==> r[i] != ""
  {
    if raw.None? || raw.value == "" then [] else StripAll(Split(raw.value, ','))
  }

  /** The name and bases of the first class header in the text, if any. */
  function ParseHeader(src: string): (r: Option<(string, seq<string>)>)
    ensures r.Some? <==> exists at :: 0 <= at <= |src| && LineStart(src, at) && MatchAt(src, at).Some?
    ensures r.Some? ==> IsIdentifier(r.value.0)
    ensures r.Some? ==> forall i :: 0 <= i < |r.value.1| ==> r.value.1[i] != ""
  {
    match SearchFrom(src, 0)
    case None => None
    case Some(m) => Some((m.0, SplitBases(m.1)))
  }

  /** `PyClass.from_graphsitter(node)` as intended: a node without
      `to_source` is refused with GraphSitterIntegrationError, an exception
      from it passes through, a text without a class header is refused with
      ValidationError, and otherwise the class carries the header's name and
      bases. The docstring comes from Python's own parser and is an input. */
  function ClassFromGraphsitter(node: GsNode, docstring: Option<string>): (r: Result<Class, Error>)
    ensures node.toSource.Missing? ==> r == Err(GraphSitterIntegrationError)
    ensures node.toSource.Raises? ==> r == Err(ForeignError)
    ensures node.toSource.Returns? && ParseHeader(node.toSource.value).None? ==> r == Err(ValidationError)
    ensures r.Ok? ==> (ParseHeader(node.toSource.value) == Some((r.value.name, r.value.bases)) &&
                       r.value.base == Base(node, true) && r.value.methods == [] &&
                       r.value.attributes == [] && r.value.docstring == docstring)
  {
    match node.toSource
    case Missing => Err(GraphSitterIntegrationError)
    case Raises => Err(ForeignError)
    case Returns(src) =>
      match ParseHeader(src)
      case None => Err(ValidationError)
      case Some(h) => NewClass(node, true, h.0, h.1, docstring, [], [])
  }

  /** The same as written: `GraphSitterIntegrationError` is not imported in
      classes.py, so the refusal of a node without `to_source` raises
      NameError instead. */
  function ClassFromGraphsitterAsWritten(node: GsNode, docstring: Option<string>): (r: Result<Class, Error>)
    ensures node.toSource.Missing? ==> r == Err(NameError)
    ensures !node.toSource.Missing? ==> r == ClassFromGraphsitter(node, docstring)
  {
    if node.toSource.Missing? then Err(NameError) else ClassFromGraphsitter(node, docstring)
  }

  /** The discrepancy: on a node without `to_source` the code as written
      raises NameError, where the corrected one refuses the node with the
      error every other wrapper uses for it. */
  lemma MissingToSourceNameError(node: GsNode, docstring: Option<string>)
    requires node.toSource.Missing?
    ensures ClassFromGraphsitterAsWritten(node, docstring) == Err(NameError)
    ensures ClassFromGraphsitter(node, docstring) == Err(GraphSitterIntegrationError)
    ensures CodeBase.FromGraphsitter(node) == Err(GraphSitterIntegrationError)
  {
  }

  // ---------------------------------------------------------------------
  // reading back a rendered header
  // ---------------------------------------------------------------------

  predicate IsIdentifier(name: string) {
    |name| > 0 && IsIdentStart(name[0]) && forall i :: 0 <= i < |name| ==> IsIdentChar(name[i])
  }

  /** A base that survives the round trip: non-empty, no `,` or `)`, and no
      whitespace at either end. */
  predicate CleanBase(b: string) {
    |b| > 0 && !IsSpace(b[0]) && !IsSpace(b[|b| - 1]) && ',' !in b && ')' !in b
  }

  lemma StripClean(b: string)
    requires |b| > 0 && !IsSpace(b[0]) && !IsSpace(b[|b| - 1])
    ensures Strip(b) == b
    ensures Strip(" " + b) == b
  {
    StripTrimmed(b);
    LStripTrimmed(b);
    assert LStrip(" " + b) == b by {
      assert IsSpace((" " + b)[0]);
      assert (" " + b)[1..] == b;
    }
  }

  /** Each base after one space. */
  function Prefixed(bases: seq<string>): (r: seq<string>)
    ensures |r| == |bases|
  {
    if |bases| == 0 then [] else [" " + bases[0]] + Prefixed(bases[1..])
  }

  lemma {:induction false} PrefixedNoComma(bases: seq<string>)
    requires forall i :: 0 <= i < |bases| ==> ',' !in bases[i]
    ensures forall i :: 0 <= i < |bases| ==> ',' !in Prefixed(bases)[i]
    decreases |bases|
  {
    if |bases| > 0 {
      PrefixedNoComma(bases[1..]);
      var p := Prefixed(bases);
      forall i | 0 <= i < |bases| ensures ',' !in p[i] {
        if i > 0 {
          assert p[i] == Prefixed(bases[1..])[i - 1];
        }
      }
    }
  }

  /** The pieces `", ".join` leaves between the commas: the first base,
      then each further base after one space. */
  function Spaced(bases: seq<string>): (r: seq<string>)
    requires |bases| > 0
  {
    [bases[0]] + Prefixed(bases[1..])
  }

  lemma {:induction false} JoinCommaSpace(bases: seq<string>)
    requires |bases| > 0
    ensures Join(", ", bases) == Join(",", Spaced(bases))
    decreases |bases|
  {
    if |bases| > 1 {
      JoinCommaSpace(bases[1..]);
      var rest := Spaced(bases[1..]);
      var t := Prefixed(bases[1..]);
      assert Spaced(bases)[1..] == t;
      assert t == [" " + bases[1]] + rest[1..];
      assert Join(",", t) == " " + Join(",", rest) by {
        if |rest| == 1 {
          assert Join(",", t) == " " + bases[1];
        } else {
          assert t[1..] == rest[1..];
          assert Join(",", rest) == bases[1] + "," + Join(",", rest[1..]);
        }
      }
    }
  }

  lemma {:induction false} StripAllPrefixed(bases: seq<string>)
    requires forall i :: 0 <= i < |bases| ==> CleanBase(bases[i])
    ensures StripAll(Prefixed(bases)) == bases
    decreases |bases|
  {
    if |bases| > 0 {
      var b := bases[0];
      var tl := bases[1..];
      assert StripAll(Prefixed(tl)) == tl by {
        assert forall i :: 0 <= i < |tl| ==> tl[i] == bases[i + 1];
        StripAllPrefixed(tl);
      }
      assert Strip(" " + b) == b by {
        assert CleanBase(b);
        StripClean(b);
      }
      assert StripAll(Prefixed(bases)) == [Strip(" " + b)] + StripAll(Prefixed(tl)) by {
        assert Prefixed(bases) == [" " + b] + Prefixed(tl);
        StripAllCons(" " + b, Prefixed(tl));
      }
      HeadTailSeq(bases);
    }
  }

  lemma StripAllCons(x: string, rest: seq<string>)
    requires Strip(x) != ""
    ensures StripAll([x] + rest) == [Strip(x)] + StripAll(rest)
  {
    assert ([x] + rest)[1..] == rest;
  }

  lemma StripAllSpaced(bases: seq<string>)
    requires |bases| > 0
    requires forall i :: 0 <= i < |bases| ==> CleanBase(bases[i])
    ensures StripAll(Spaced(bases)) == bases
  {
    var b := bases[0];
    var tl := bases[1..];
    assert Strip(b) == b by {
      assert CleanBase(bases[0]);
      StripClean(b);
    }
    assert StripAll(Prefixed(tl)) == tl by {
      assert forall i :: 0 <= i < |tl| ==> tl[i] == bases[i + 1];
      StripAllPrefixed(tl);
    }
    assert StripAll(Spaced(bases)) == [Strip(b)] + StripAll(Prefixed(tl)) by {
      StripAllCons(b, Prefixed(tl));
    }
    HeadTailSeq(bases);
  }

  lemma SpacedNoComma(bases: seq<string>)
    requires |bases| > 0
    requires forall i :: 0 <= i < |bases| ==> CleanBase(bases[i])
    ensures forall i :: 0 <= i < |Spaced(bases)| ==> ',' !in Spaced(bases)[i]
  {
    var sp := Spaced(bases);
    PrefixedNoComma(bases[1..]);
    forall i | 0 <= i < |sp| ensures ',' !in sp[i] {
      if i > 0 {
        assert sp[i] == Prefixed(bases[1..])[i - 1];
      }
    }
  }

  /** The bases group of a rendered header splits back into the bases. */
  lemma SplitBasesJoin(bases: seq<string>)
    requires |bases| > 0
    requires forall i :: 0 <= i < |bases| ==> CleanBase(bases[i])
    ensures SplitBases(Some(Join(", ", bases))) == bases
  {
    var j := Join(", ", bases);
    var sp := Spaced(bases);
    assert j != "" by {
      if |bases| == 1 {
        assert j == bases[0];
      } else {
        assert |j| >= |bases[0]|;
      }
    }
    assert Split(j, ',') == sp by {
      JoinCommaSpace(bases);
      SpacedNoComma(bases);
      SplitJoin(sp, ',');
      assert "," == [','];
    }
    StripAllSpaced(bases);
  }

  lemma {:induction false} JoinNoChar(bases: seq<string>, c: char)
    requires forall i :: 0 <= i < |bases| ==> c !in bases[i]
    requires c != ',' && c != ' '
    ensures c !in Join(", ", bases)
    decreases |bases|
  {
    if |bases| > 1 {
      JoinNoChar(bases[1..], c);
    }
  }

  /** A rendered header opens with the keyword and one space. */
  lemma HeaderKeyword(c: Class)
    requires IsIdentifier(c.name)
    ensures var s := ToClassDefinition(c);
      6 <= |s| && StartsWith(s, "class") && RunFrom(s, 5, IsSpace) == 6
  {
    var s := ToClassDefinition(c);
    assert s == "class " + (c.name + BasesPart(c.bases) + ":");
    assert s[..5] == "class";
    assert s[6] == c.name[0];
    RunIs(s, 5, 6, IsSpace);
  }

  /** The identifier run covers exactly the class name. */
  lemma NameRun(c: Class)
    requires IsIdentifier(c.name)
    ensures var s := ToClassDefinition(c); var n := |c.name|;
      6 + n < |s| && IsIdentStart(s[6]) && RunFrom(s, 7, IsIdentChar) == 6 + n && s[6..6 + n] == c.name
  {
    var s := ToClassDefinition(c);
    var n := |c.name|;
    var g := BasesPart(c.bases) + ":";
    assert s == "class " + c.name + g;
    Middle("class ", c.name, g);
    assert g[0] == '(' || g[0] == ':';
    RunIs(s, 7, 6 + n, IsIdentChar);
  }

  /** The name is followed directly by `(` or `:`. */
  lemma NameEnd(c: Class)
    ensures var s := ToClassDefinition(c); var n := |c.name|;
      6 + n < |s| && RunFrom(s, 6 + n, IsSpace) == 6 + n && s[6 + n] == (BasesPart(c.bases) + ":")[0]
  {
    var s := ToClassDefinition(c);
    var g := BasesPart(c.bases) + ":";
    assert s == ("class " + c.name) + g;
    assert g[0] == '(' || g[0] == ':';
    RunIs(s, 6 + |c.name|, 6 + |c.name|, IsSpace);
  }

  /** The bases group of a rendered header opens right after the name. */
  lemma BasesOpen(c: Class)
    requires |c.bases| > 0
    ensures var s := ToClassDefinition(c); var n := |c.name|; var jn := Join(", ", c.bases);
      8 + n + |jn| < |s| && s[6 + n] == '(' && s[7 + n..7 + n + |jn|] == jn
  {
    var pre := "class " + c.name + "(";
    var jn := Join(", ", c.bases);
    var s := ToClassDefinition(c);
    assert s == pre + jn + "):";
    Middle(pre, jn, "):");
    assert s[..|pre|] == pre;
  }

  /** `[^)]*` runs over exactly the joined bases. */
  lemma BasesGroupRun(c: Class)
    requires |c.bases| > 0
    requires forall i :: 0 <= i < |c.bases| ==> CleanBase(c.bases[i])
    ensures var s := ToClassDefinition(c); var n := |c.name|; var jn := Join(", ", c.bases);
      7 + n + |jn| <= |s| && RunFrom(s, 7 + n, NotClose) == 7 + n + |jn|
  {
    var n := |c.name|;
    var pre := "class " + c.name + "(";
    var jn := Join(", ", c.bases);
    var s := ToClassDefinition(c);
    assert s == pre + jn + "):";
    Middle(pre, jn, "):");
    assert forall j :: 7 + n <= j < 7 + n + |jn| ==> NotClose(s[j]) by {
      JoinNoChar(c.bases, ')');
      assert forall j :: 0 <= j < |jn| ==> s[7 + n + j] == jn[j];
    }
    RunIs(s, 7 + n, 7 + n + |jn|, NotClose);
  }

  /** After the group's `)` comes the colon, with no space before it. */
  lemma BasesClose(c: Class)
    requires |c.bases| > 0
    ensures var s := ToClassDefinition(c); var k := 8 + |c.name| + |Join(", ", c.bases)|;
      k < |s| && s[k] == ':' && RunFrom(s, k, IsSpace) == k
  {
    var pre := "class " + c.name + "(" + Join(", ", c.bases) + ")";
    var s := ToClassDefinition(c);
    assert s == pre + ":";
    RunIs(s, |pre|, |pre|, IsSpace);
  }

  /** Matching a rendered header at position 0. */
  lemma MatchRendered(c: Class)
    requires IsIdentifier(c.name)
    requires forall i :: 0 <= i < |c.bases| ==> CleanBase(c.bases[i])
    ensures MatchAt(ToClassDefinition(c), 0) ==
      Some((c.name, if |c.bases| > 0 then Some(Join(", ", c.bases)) else None))
  {
    HeaderKeyword(c);
    NameRun(c);
    NameEnd(c);
    if |c.bases| > 0 {
      BasesOpen(c);
      BasesGroupRun(c);
      BasesClose(c);
    }
  }

  /** A header rendered by `to_class_definition` is parsed back into the
      class's name and bases, when the name is an identifier and each base is
      clean. */
  lemma HeaderRoundTrip(c: Class)
    requires IsIdentifier(c.name)
    requires forall i :: 0 <= i < |c.bases| ==> CleanBase(c.bases[i])
    ensures ParseHeader(ToClassDefinition(c)) == Some((c.name, c.bases))
  {
    MatchRendered(c);
    if |c.bases| > 0 {
      SplitBasesJoin(c.bases);
    }
  }
}
