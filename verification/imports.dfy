/** core/imports.py: an `import` or `from ... import ...` statement, parsed
    from its text by a whitespace tokeniser and kept with that text so that
    it renders back exactly. */
module PyImports {
  import opened Wrappers
  import opened Errors
  import opened PyStrings
  import opened CodeBase

  /** One imported symbol and its optional alias. */
  datatype ImportedName = ImportedName(name: string, alias: Option<string>)

  /** `_ImportedName.to_source()`: `name as alias` when the alias is truthy. */
  function NameSource(n: ImportedName): (r: string)
    ensures StartsWith(r, n.name)
    ensures r == n.name <==> Filled(n.alias).None?
    ensures Filled(n.alias).Some? ==> EndsWith(r, " as " + n.alias.value)
  {
    if Filled(n.alias).Some? then n.name + " as " + n.alias.value else n.name
  }

  datatype Import = Import(base: Base, moduleName: string, names: seq<ImportedName>, isFrom: bool, raw: Option<string>)

  /** `PyImport(...)`: the `module` validator strips surrounding whitespace,
      then the inherited post-init check runs. */
  function NewImport(node: GsNode, moduleName: string, names: seq<ImportedName>, isFrom: bool,
                     raw: Option<string>): (r: Result<Import, Error>)
    ensures r.Ok? <==> Construct(node, true).Ok?
    ensures r.Ok? ==> r.value == Import(Base(node, true), Strip(moduleName), names, isFrom, raw)
    ensures r.Err? ==> r.error == ValidationError
  {
    match Construct(node, true)
    case Ok(b) => Ok(Import(b, Strip(moduleName), names, isFrom, raw))
    case Err(e) => Err(e)
  }

  /** The tokeniser: every `,` padded with spaces, then `split()`. */
  function Tokenize(text: string): (r: seq<string>)
    ensures forall i :: 0 <= i < |r| ==> |r[i]| > 0 && NoSpace(r[i])
    ensures ',' !in text ==> r == SplitWs(text)
  {
    SplitWs(ReplaceChar(text, ',', " , "))
  }

  /** `_parse_name_alias(tokens)`: split at the first `as`, each side joined
      by single spaces; no alias when there is no `as`. */
  function ParseNameAlias(tokens: seq<string>): (r: ImportedName)
    ensures "as" !in tokens ==> r == ImportedName(Join(" ", tokens), None)
    ensures "as" in tokens ==> exists k :: (0 <= k < |tokens| && tokens[k] == "as" && "as" !in tokens[..k] &&
                                           r == ImportedName(Join(" ", tokens[..k]), Some(Join(" ", tokens[k + 1..]))))
  {
    match IndexOf(tokens, "as")
    case None => ImportedName(Join(" ", tokens), None)
    case Some(k) => ImportedName(Join(" ", tokens[..k]), Some(Join(" ", tokens[k + 1..])))
  }

  /** The tokens other than `,`, in order. */
  function NonCommas(tokens: seq<string>): (r: seq<string>)
    ensures "," !in r
    decreases |tokens|
  {
    if |tokens| == 0 then []
    else if tokens[0] == "," then NonCommas(tokens[1..])
    else [tokens[0]] + NonCommas(tokens[1..])
  }

  function Flatten(groups: seq<seq<string>>): seq<string>
    decreases |groups|
  {
    if |groups| == 0 then [] else groups[0] + Flatten(groups[1..])
  }

  /** The name-gathering loop, with `current` the group being built: a `,`
      closes a non-empty group, empty groups are skipped, and the last group
      is closed at the end. The groups are non-empty, hold no `,`, and
      together hold every other token in order. */
  function Groups(tokens: seq<string>, current: seq<string>): (r: seq<seq<string>>)
    requires "," !in current
    ensures forall i :: 0 <= i < |r| ==> |r[i]| > 0 && "," !in r[i]
    ensures Flatten(r) == current + NonCommas(tokens)
    decreases |tokens|
  {
    if |tokens| == 0 then
      if |current| > 0 then [current] else []
    else if tokens[0] == "," then
      var rest := Groups(tokens[1..], []);
      if |current| > 0 then [current] + rest else rest
    else
      var rest := Groups(tokens[1..], current + [tokens[0]]);
      assert current + [tokens[0]] + NonCommas(tokens[1..]) == current + NonCommas(tokens);
      rest
  }

  function ParseNames(groups: seq<seq<string>>): (r: seq<ImportedName>)
    ensures |r| == |groups|
    ensures forall i :: 0 <= i < |groups| ==> r[i] == ParseNameAlias(groups[i])
  {
    seq(|groups|, i requires 0 <= i < |groups| => ParseNameAlias(groups[i]))
  }

  /** What the tokeniser reads from a statement's text. */
  datatype Parsed = Parsed(moduleName: string, names: seq<ImportedName>, isFrom: bool)

  /** The parse inside `from_graphsitter`: with `import` first, the module is
      the rest of the tokens joined by single spaces and there are no names;
      otherwise the module is the second token and the names are the groups
      after the first `import` token. No tokens, or only one, is IndexError;
      a text without an `import` token is ValueError. */
  function ParseImportText(text: string): (r: Result<Parsed, Error>)
    ensures r == Err(IndexError) <==>
      |Tokenize(text)| == 0 || (Tokenize(text)[0] != "import" && |Tokenize(text)| == 1)
    ensures r == Err(ValueError) <==>
      |Tokenize(text)| >= 2 && Tokenize(text)[0] != "import" && "import" !in Tokenize(text)
    ensures r.Err? ==> r.error == IndexError || r.error == ValueError
    ensures r.Ok? && !r.value.isFrom ==> r.value == Parsed(Join(" ", Tokenize(text)[1..]), [], false)
    ensures r.Ok? && r.value.isFrom ==> (|Tokenize(text)| >= 2 && r.value.moduleName == Tokenize(text)[1] &&
                                         "import" in Tokenize(text))
  {
    var tokens := Tokenize(text);
    if |tokens| == 0 then Err(IndexError)
    else if tokens[0] == "import" then Ok(Parsed(Join(" ", tokens[1..]), [], false))
    else if |tokens| < 2 then Err(IndexError)
    else match IndexOf(tokens, "import")
      case None => Err(ValueError)
      case Some(k) => Ok(Parsed(tokens[1], ParseNames(Groups(tokens[k + 1..], [])), true))
  }

  /** The two node types an import is read from. */
  predicate IsImportType(typ: Option<string>) {
    typ.Some? && (typ.value == "import_statement" || typ.value == "import_from_statement")
  }

  /** `PyImport.from_graphsitter(node)`: the node's `type` is checked first
      (a node without one raises AttributeError), then `to_source`; the text
      is parsed and kept as `raw`. */
  function ImportFromGraphsitter(node: GsNode): (r: Result<Import, Error>)
    ensures node.typ.None? ==> r == Err(AttributeError)
    ensures node.typ.Some? && node.typ.value != "import_statement" && node.typ.value != "import_from_statement" ==>
      r == Err(ValueError)
    ensures IsImportType(node.typ) && node.toSource.Missing? ==> r == Err(GraphSitterIntegrationError)
    ensures IsImportType(node.typ) && node.toSource.Raises? ==> r == Err(ForeignError)
    ensures IsImportType(node.typ) && node.toSource.Returns? && ParseImportText(node.toSource.value).Err? ==>
      r == Err(ParseImportText(node.toSource.value).error)
    ensures r.Ok? <==> (IsImportType(node.typ) && node.toSource.Returns? &&
                        ParseImportText(node.toSource.value).Ok? && Construct(node, true).Ok?)
    ensures r.Ok? ==> (node.toSource.Returns? && ParseImportText(node.toSource.value).Ok? &&
                       r.value.raw == Some(node.toSource.value) && r.value.base == Base(node, true))
    ensures r.Ok? ==> var p := ParseImportText(node.toSource.value).value;
      r.value.moduleName == Strip(p.moduleName) && r.value.names == p.names && r.value.isFrom == p.isFrom
  {
    match node.typ
    case None => Err(AttributeError)
    case Some(t) =>
      if t != "import_statement" && t != "import_from_statement" then Err(ValueError)
      else match node.toSource
        case Missing => Err(GraphSitterIntegrationError)
        case Raises => Err(ForeignError)
        case Returns(text) =>
          match ParseImportText(text)
          case Err(e) => Err(e)
          case Ok(p) => NewImport(node, p.moduleName, p.names, p.isFrom, Some(text))
  }

  function NameSources(names: seq<ImportedName>): (r: seq<string>)
    ensures |r| == |names|
    ensures forall i :: 0 <= i < |names| ==> r[i] == NameSource(names[i])
  {
    seq(|names|, i requires 0 <= i < |names| => NameSource(names[i]))
  }

  /** `to_source()`: the kept text when it is truthy, otherwise the
      statement rebuilt from the parsed parts. */
  function ImportSource(imp: Import): (r: string)
    ensures Filled(imp.raw).Some? ==> r == imp.raw.value
    ensures Filled(imp.raw).None? && imp.isFrom ==> StartsWith(r, "from " + imp.moduleName + " import ")
    ensures Filled(imp.raw).None? && !imp.isFrom ==> r == "import " + imp.moduleName
  {
    if Filled(imp.raw).Some? then imp.raw.value
    else if imp.isFrom then "from " + imp.moduleName + " import " + Join(", ", NameSources(imp.names))
    else "import " + imp.moduleName
  }

  /** A parsed statement renders back exactly as the text it came from. */
  lemma ImportLossless(node: GsNode)
    requires ImportFromGraphsitter(node).Ok?
    ensures ImportSource(ImportFromGraphsitter(node).value) == node.toSource.value
  {
  }

  /** The parsed module name is already stripped, so the validator changes
      nothing on what the parser produces. */
  lemma ModuleAlreadyStripped(text: string)
    requires ParseImportText(text).Ok?
    ensures Strip(ParseImportText(text).value.moduleName) == ParseImportText(text).value.moduleName
  {
    var tokens := Tokenize(text);
    if ParseImportText(text).value.isFrom {
      StripTrimmed(tokens[1]);
    } else {
      StripJoinWords(tokens[1..]);
    }
  }

  // ---------------------------------------------------------------------
  // reading back a rebuilt statement
  // ---------------------------------------------------------------------

  /** The tokens one imported name contributes. */
  function NameTokens(n: ImportedName): seq<string> {
    if Filled(n.alias).Some? then [n.name, "as", n.alias.value] else [n.name]
  }

  /** Token groups with `,` between neighbours. */
  function CommaJoin(groups: seq<seq<string>>): seq<string>
    decreases |groups|
  {
    if |groups| == 0 then []
    else if |groups| == 1 then groups[0]
    else groups[0] + [","] + CommaJoin(groups[1..])
  }

  /** A name that survives the round trip: word tokens, a name other than
      `as`, and an alias that is absent or a word. */
  predicate CleanName(n: ImportedName) {
    Word(n.name) && n.name != "as" && (n.alias.Some? ==> Word(n.alias.value))
  }

  lemma NameSourceJoin(n: ImportedName)
    ensures NameSource(n) == Join(" ", NameTokens(n))
  {
    if Filled(n.alias).Some? {
      var t := NameTokens(n);
      var a := n.alias.value;
      assert t[1..] == ["as", a];
      assert t[1..][1..] == [a];
      assert Join(" ", t[1..]) == "as" + " " + a;
      assert Join(" ", t) == n.name + " " + ("as" + " " + a);
      assert n.name + " as " + a == n.name + " " + ("as" + " " + a);
    }
  }

  /** One name's text holds no comma, and splits into its tokens. */
  lemma NameSourceTokens(n: ImportedName)
    requires CleanName(n)
    ensures ',' !in NameSource(n)
    ensures SplitWs(NameSource(n)) == NameTokens(n)
  {
    NameSourceJoin(n);
    SplitWsJoin(NameTokens(n));
    if Filled(n.alias).Some? {
      var a := n.alias.value;
      assert NameSource(n) == n.name + " as " + a;
      forall i | 0 <= i < |NameSource(n)| ensures NameSource(n)[i] != ',' {
        if i < |n.name| {
          assert NameSource(n)[i] == n.name[i];
        } else if i >= |n.name| + 4 {
          assert NameSource(n)[i] == a[i - |n.name| - 4];
        }
      }
    }
  }

  lemma PadComma()
    ensures ReplaceChar(", ", ',', " , ") == " , " + " "
  {
    assert ", "[1..] == " ";
    assert ReplaceChar(" ", ',', " , ") == " ";
  }

  /** Padding the commas of `head, tail` when the head has none. */
  lemma PadSeparator(head: string, tail: string)
    requires ',' !in head
    ensures ReplaceChar(head + ", " + tail, ',', " , ") == head + (" , " + " " + ReplaceChar(tail, ',', " , "))
  {
    assert ReplaceChar(head + ", " + tail, ',', " , ") ==
           ReplaceChar(head + ", ", ',', " , ") + ReplaceChar(tail, ',', " , ") by {
      ReplaceCharAppend(head + ", ", tail, ',', " , ");
    }
    assert ReplaceChar(head + ", ", ',', " , ") == head + ReplaceChar(", ", ',', " , ") by {
      ReplaceCharAppend(head, ", ", ',', " , ");
    }
    PadComma();
  }

  lemma SplitWsComma(x: string)
    ensures SplitWs(" , " + " " + x) == [","] + SplitWs(x)
  {
    assert " , " + " " + x == " " + ("," + " " + (" " + x));
    SplitWsLeadingSpace("," + " " + (" " + x));
    SplitWsCons(",", " " + x);
    SplitWsLeadingSpace(x);
  }

  /** Texts without commas, joined by `, `, tokenise into their own tokens
      with `,` between neighbours. */
  lemma {:induction false} TokenizeCommaList(srcs: seq<string>, toks: seq<seq<string>>)
    requires |srcs| == |toks|
    requires forall i :: 0 <= i < |srcs| ==> ',' !in srcs[i] && SplitWs(srcs[i]) == toks[i]
    ensures Tokenize(Join(", ", srcs)) == CommaJoin(toks)
    decreases |srcs|
  {
    if |srcs| == 1 {
      assert ReplaceChar(srcs[0], ',', " , ") == srcs[0];
    } else if |srcs| > 1 {
      var rt := ReplaceChar(Join(", ", srcs[1..]), ',', " , ");
      TokenizeCommaList(srcs[1..], toks[1..]);
      assert Join(", ", srcs) == srcs[0] + ", " + Join(", ", srcs[1..]);
      PadSeparator(srcs[0], Join(", ", srcs[1..]));
      SplitWsAround(srcs[0], " , " + " " + rt);
      SplitWsComma(rt);
    }
  }

  /** A run of non-comma tokens extends the group being built. */
  lemma {:induction false} GroupsRun(run: seq<string>, rest: seq<string>, current: seq<string>)
    requires "," !in run && "," !in current
    ensures Groups(run + rest, current) == Groups(rest, current + run)
    decreases |run|
  {
    if |run| > 0 {
      assert (run + rest)[0] == run[0];
      assert (run + rest)[1..] == run[1..] + rest;
      GroupsRun(run[1..], rest, current + [run[0]]);
      assert current + [run[0]] + run[1..] == current + run;
    } else {
      assert run + rest == rest;
      assert current + run == current;
    }
  }

  /** The name-gathering loop splits comma-joined groups back apart. */
  lemma {:induction false} GroupsOfCommaJoin(groups: seq<seq<string>>)
    requires forall i :: 0 <= i < |groups| ==> |groups[i]| > 0 && "," !in groups[i]
    ensures Groups(CommaJoin(groups), []) == groups
    decreases |groups|
  {
    if |groups| == 1 {
      GroupsRun(groups[0], [], []);
      assert groups[0] + [] == groups[0];
      assert [] + groups[0] == groups[0];
    } else if |groups| > 1 {
      var rest := [","] + CommaJoin(groups[1..]);
      GroupsOfCommaJoin(groups[1..]);
      assert CommaJoin(groups) == groups[0] + rest;
      GroupsRun(groups[0], rest, []);
      assert [] + groups[0] == groups[0];
      assert rest[1..] == CommaJoin(groups[1..]);
      HeadTailSeq(groups);
    }
  }

  /** Reading one name's tokens gives the name back, its alias kept only
      when truthy. */
  lemma ParseNameTokens(n: ImportedName)
    requires CleanName(n)
    ensures ParseNameAlias(NameTokens(n)) == ImportedName(n.name, Filled(n.alias))
  {
    if Filled(n.alias).Some? {
      IndexOfAt(NameTokens(n), "as", 1);
      assert NameTokens(n)[..1] == [n.name];
      assert NameTokens(n)[2..] == [n.alias.value];
    }
  }

  lemma KeywordsAreWords()
    ensures Word("from") && Word("import")
  {
  }

  /** A word followed by a space comes off as the first token. */
  lemma TokenizeCons(w: string, rest: string)
    requires Word(w)
    ensures Tokenize(w + " " + rest) == [w] + Tokenize(rest)
  {
    ReplaceCharAppend(w + " ", rest, ',', " , ");
    assert ',' !in w + " ";
    SplitWsCons(w, ReplaceChar(rest, ',', " , "));
  }

  /** The tokens of a list of clean names, one group per name. */
  lemma NameListTokens(names: seq<ImportedName>)
    requires forall i :: 0 <= i < |names| ==> CleanName(names[i])
    ensures Tokenize(Join(", ", NameSources(names))) ==
            CommaJoin(seq(|names|, i requires 0 <= i < |names| => NameTokens(names[i])))
  {
    var toks := seq(|names|, i requires 0 <= i < |names| => NameTokens(names[i]));
    forall i | 0 <= i < |names| ensures ',' !in NameSources(names)[i] && SplitWs(NameSources(names)[i]) == toks[i] {
      NameSourceTokens(names[i]);
    }
    TokenizeCommaList(NameSources(names), toks);
  }

  /** Names whose alias is absent or truthy. */
  predicate NormalAlias(n: ImportedName) {
    n.alias.Some? ==> n.alias.value != ""
  }

  /** Reading the groups of clean names gives the names back. */
  lemma ParseNameGroups(names: seq<ImportedName>)
    requires forall i :: 0 <= i < |names| ==> CleanName(names[i]) && NormalAlias(names[i])
    ensures ParseNames(Groups(CommaJoin(seq(|names|, i requires 0 <= i < |names| => NameTokens(names[i]))), [])) == names
  {
    var toks := seq(|names|, i requires 0 <= i < |names| => NameTokens(names[i]));
    forall i | 0 <= i < |names| ensures |toks[i]| > 0 && "," !in toks[i] {
      assert toks[i][0] == names[i].name;
    }
    GroupsOfCommaJoin(toks);
    forall i | 0 <= i < |names| ensures ParseNames(toks)[i] == names[i] {
      ParseNameTokens(names[i]);
    }
  }

  lemma FromTokens(m: string, list: string)
    requires Word(m)
    ensures Tokenize("from " + m + " import " + list) == ["from", m, "import"] + Tokenize(list)
  {
    KeywordsAreWords();
    assert "from " + m + " import " + list == "from" + " " + (m + " " + ("import" + " " + list));
    TokenizeCons("from", m + " " + ("import" + " " + list));
    TokenizeCons(m, "import" + " " + list);
    TokenizeCons("import", list);
  }

  /** Tokens `from m import ...` parse to module `m` and the groups after
      `import`. */
  lemma ParseFromTokens(text: string, m: string, rest: seq<string>)
    requires Tokenize(text) == ["from", m, "import"] + rest && m != "import"
    ensures ParseImportText(text) == Ok(Parsed(m, ParseNames(Groups(rest, [])), true))
  {
    var tokens := Tokenize(text);
    IndexOfAt(tokens, "import", 2);
    assert tokens[3..] == rest;
  }

  /** A `from` statement rebuilt from a module word and clean names is read
      back into the same module and names. */
  lemma FromRoundTrip(b: Base, m: string, names: seq<ImportedName>)
    requires Word(m) && m != "import"
    requires forall i :: 0 <= i < |names| ==> CleanName(names[i]) && NormalAlias(names[i])
    ensures ParseImportText(ImportSource(Import(b, m, names, true, None))) == Ok(Parsed(m, names, true))
  {
    var list := Join(", ", NameSources(names));
    var toks := seq(|names|, i requires 0 <= i < |names| => NameTokens(names[i]));
    FromTokens(m, list);
    NameListTokens(names);
    ParseFromTokens("from " + m + " import " + list, m, CommaJoin(toks));
    ParseNameGroups(names);
  }

  lemma {:induction false} JoinNoComma(words: seq<string>)
    requires forall i :: 0 <= i < |words| ==> ',' !in words[i]
    ensures ',' !in Join(" ", words)
    decreases |words|
  {
    if |words| > 1 {
      JoinNoComma(words[1..]);
    }
  }

  lemma PlainTokens(words: seq<string>)
    requires forall i :: 0 <= i < |words| ==> Word(words[i])
    ensures Tokenize("import " + Join(" ", words)) == ["import"] + words
  {
    var m := Join(" ", words);
    assert Tokenize(m) == words by {
      JoinNoComma(words);
      SplitWsJoin(words);
    }
    KeywordsAreWords();
    ImportCons(m);
  }

  lemma ImportCons(rest: string)
    ensures Tokenize("import " + rest) == ["import"] + Tokenize(rest)
  {
    KeywordsAreWords();
    assert "import " + rest == "import" + " " + rest;
    TokenizeCons("import", rest);
  }

  /** A plain statement rebuilt from space-joined module words is read back
      into the same module. */
  lemma PlainRoundTrip(b: Base, words: seq<string>)
    requires forall i :: 0 <= i < |words| ==> Word(words[i])
    ensures var m := Join(" ", words);
      ParseImportText(ImportSource(Import(b, m, [], false, None))) == Ok(Parsed(m, [], false))
  {
    PlainTokens(words);
    assert (["import"] + words)[1..] == words;
  }
}
