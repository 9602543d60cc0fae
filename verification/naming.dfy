/** Class names for grammar node types, as `NameResolver` in codegen.py
    computes them: a symbol table for punctuation and operators, PascalCase for
    everything else, a suffix that tells named nodes from anonymous tokens, and
    a counter that keeps every issued name distinct. */
module Naming {
  import opened PyStrings

  /** Readable names for punctuation, operators and spaced keywords. */
  const SymbolMap: map<string, string> := map[
    "(" := "LeftParen", ")" := "RightParen", "[" := "LeftBracket",
    "]" := "RightBracket", "{" := "LeftBrace", "}" := "RightBrace",
    "<" := "LessThan", ">" := "GreaterThan", "," := "Comma", "." := "Dot",
    ":" := "Colon", ";" := "Semicolon", "+" := "Plus", "-" := "Minus",
    "*" := "Asterisk", "/" := "Slash", "%" := "Percent", "&" := "Ampersand",
    "|" := "Pipe", "^" := "Caret", "~" := "Tilde", "@" := "At",
    "\\" := "Backslash", "_" := "Underscore", "=" := "Equals",
    "==" := "Equality", "!=" := "NotEquals", "<=" := "LessEquals",
    ">=" := "GreaterEquals", "+=" := "PlusEquals", "-=" := "MinusEquals",
    "*=" := "TimesEquals", "/=" := "DivideEquals", "%=" := "ModEquals",
    "&=" := "AmpersandEquals", "|=" := "PipeEquals", "^=" := "CaretEquals",
    "@=" := "AtEquals", "//" := "FloorDiv", "//=" := "FloorDivEquals",
    "**" := "Power", "**=" := "PowerEquals", "<<" := "LeftShift",
    "<<=" := "LeftShiftEquals", ">>" := "RightShift",
    ">>=" := "RightShiftEquals", "->" := "Arrow", ":=" := "Walrus",
    "<>" := "NotEqualsAlt", "is not" := "IsNot", "not in" := "NotIn",
    "except*" := "ExceptStar"
  ]

  function CapitalizeAll(words: seq<string>): (r: seq<string>)
    ensures |r| == |words|
    ensures forall i :: 0 <= i < |words| ==> r[i] == Capitalize(words[i])
  {
    seq(|words|, i requires 0 <= i < |words| => Capitalize(words[i]))
  }

  lemma CapitalizeAllAppend(a: seq<string>, b: seq<string>)
    ensures CapitalizeAll(a + b) == CapitalizeAll(a) + CapitalizeAll(b)
  {
  }

  /** `"".join(w.capitalize() for w in t.split("_"))` */
  function PascalCase(t: string): (r: string)
    ensures '_' !in r
  {
    var words := CapitalizeAll(Split(t, '_'));
    forall i | 0 <= i < |words| ensures '_' !in words[i] {
      CapitalizeNoUnderscore(Split(t, '_')[i]);
    }
    JoinNoUnderscore(words);
    Join("", words)
  }

  /** Capitalising a word without underscores adds none. */
  lemma CapitalizeNoUnderscore(w: string)
    requires '_' !in w
    ensures '_' !in Capitalize(w)
  {
    var r := Capitalize(w);
    forall i | 0 <= i < |r| ensures r[i] != '_' {
      if i > 0 {
        assert r[i] == r[1..][i - 1];
        assert w[i] == w[1..][i - 1];
      }
    }
  }

  /** Gluing words without underscores gives none. */
  lemma {:induction false} JoinNoUnderscore(words: seq<string>)
    requires forall i :: 0 <= i < |words| ==> '_' !in words[i]
    ensures '_' !in Join("", words)
    decreases |words|
  {
    if |words| > 1 {
      JoinNoUnderscore(words[1..]);
      assert Join("", words) == words[0] + "" + Join("", words[1..]);
    }
  }

  /** A string without underscores is one word, capitalised. */
  lemma PascalCaseWord(w: string)
    requires '_' !in w
    ensures PascalCase(w) == Capitalize(w)
  {
    SplitNoSep(w, '_');
    assert CapitalizeAll([w]) == [Capitalize(w)];
  }

  /** An underscore only separates: the pieces on either side are converted on
      their own and concatenated, so empty pieces vanish. */
  lemma PascalCaseAround(a: string, b: string)
    ensures PascalCase(a + "_" + b) == PascalCase(a) + PascalCase(b)
  {
    SplitAround(a, b, '_');
    CapitalizeAllAppend(Split(a, '_'), Split(b, '_'));
    JoinEmptyAppend(CapitalizeAll(Split(a, '_')), CapitalizeAll(Split(b, '_')));
  }

  /** Empty pieces vanish: a leading or trailing underscore changes nothing, so
      `_compound_statement` converts like `compound_statement`. */
  lemma PascalCaseEdgeUnderscore(t: string)
    ensures PascalCase("_" + t) == PascalCase(t)
    ensures PascalCase(t + "_") == PascalCase(t)
  {
    PascalCaseWord("");
    assert "_" + t == "" + "_" + t;
    PascalCaseAround("", t);
    assert t + "_" == t + "_" + "";
    PascalCaseAround(t, "");
  }

  /** The name before de-duplication: the symbol name or the PascalCase form,
      then `Node` for named nodes or the token suffix for anonymous ones. */
  function BaseName(nodeType: string, isNamed: bool, tokenSuffix: string): (r: string)
    ensures nodeType in SymbolMap ==> StartsWith(r, SymbolMap[nodeType])
    ensures nodeType !in SymbolMap ==> StartsWith(r, PascalCase(nodeType))
    ensures isNamed ==> EndsWith(r, "Node")
    ensures !isNamed ==> EndsWith(r, tokenSuffix)
  {
    var stem := if nodeType in SymbolMap then SymbolMap[nodeType] else PascalCase(nodeType);
    stem + (if isNamed then "Node" else tokenSuffix)
  }

  /** The k-th name tried for `original`: the original, then original1, original2, ... */
  function Candidate(original: string, k: nat): (r: string)
    ensures StartsWith(r, original)
    ensures r == original <==> k == 0
  {
    if k == 0 then original else original + NatToStr(k)
  }

  lemma CandidateInjective(original: string, j: nat, k: nat)
    requires Candidate(original, j) == Candidate(original, k)
    ensures j == k
  {
    if j != 0 && k != 0 {
      var o := |original|;
      assert NatToStr(j) == Candidate(original, j)[o..];
      assert NatToStr(k) == Candidate(original, k)[o..];
      NatToStrInjective(j, k);
    }
  }

  ghost function Candidates(original: string, k: nat): set<string> {
    set j | 0 <= j < k :: Candidate(original, j)
  }

  lemma {:induction false} CandidatesSize(original: string, k: nat)
    ensures |Candidates(original, k)| == k
  {
    if k > 0 {
      CandidatesSize(original, k - 1);
      CandidatesSnoc(original, k - 1);
    }
  }

  /** One more try adds one new name. */
  lemma CandidatesSnoc(original: string, k: nat)
    ensures Candidates(original, k + 1) == Candidates(original, k) + {Candidate(original, k)}
    ensures Candidate(original, k) !in Candidates(original, k)
  {
    var c := Candidate(original, k);
    if c in Candidates(original, k) {
      var j :| 0 <= j < k && Candidate(original, j) == c;
      CandidateInjective(original, j, k);
    }
  }

  /** The first candidate at or after `k` that is not in `seen`. */
  function FirstFree(original: string, seen: set<string>, k: nat): (r: nat)
    requires forall j :: 0 <= j < k ==> Candidate(original, j) in seen
    ensures k <= r
    ensures Candidate(original, r) !in seen
    ensures forall j :: 0 <= j < r ==> Candidate(original, j) in seen
    decreases |seen| - k
  {
    if Candidate(original, k) !in seen then k
    else
      CandidatesSize(original, k + 1);
      assert Candidates(original, k + 1) <= seen;
      SubsetSize(Candidates(original, k + 1), seen);
      FirstFree(original, seen, k + 1)
  }

  datatype Resolver = Resolver(tokenSuffix: string, seen: set<string>)

  function NewResolver(tokenSuffix: string): (r: Resolver)
    ensures r.seen == {}
  {
    Resolver(tokenSuffix, {})
  }

  datatype Resolved = Resolved(name: string, resolver: Resolver)

  /** The name `resolve` settles on for base name `b`: `b` itself if it was never
      issued, otherwise `b` followed by the smallest positive counter whose
      name was never issued. */
  lemma FirstFreeName(b: string, seen: set<string>)
    ensures var name := Candidate(b, FirstFree(b, seen, 0));
      (b !in seen && name == b) ||
      (b in seen &&
       exists k: nat :: (1 <= k && name == b + NatToStr(k) &&
                         forall j: nat :: 1 <= j < k ==> b + NatToStr(j) in seen))
  {
    var k := FirstFree(b, seen, 0);
    if k >= 1 {
      assert Candidate(b, 0) in seen;
      forall j: nat | 1 <= j < k ensures b + NatToStr(j) in seen {
        assert Candidate(b, j) in seen;
      }
      assert Candidate(b, k) == b + NatToStr(k);
    }
  }

  /** What `resolve` does once the base name `b` is known: issue the first
      candidate never issued before, and record it as issued. */
  function Issue(r: Resolver, b: string): (res: Resolved)
    ensures res.name !in r.seen
    ensures res.resolver == Resolver(r.tokenSuffix, r.seen + {res.name})
  {
    var name := Candidate(b, FirstFree(b, r.seen, 0));
    Resolved(name, Resolver(r.tokenSuffix, r.seen + {name}))
  }

  /** `resolve(node_type, is_named)`: a name never issued before, which is
      then recorded as issued. */
  function Resolve(r: Resolver, nodeType: string, isNamed: bool): (res: Resolved)
    ensures res.name !in r.seen
    ensures res.resolver == Resolver(r.tokenSuffix, r.seen + {res.name})
  {
    Issue(r, BaseName(nodeType, isNamed, r.tokenSuffix))
  }

  /** Which name `resolve` picks: the base name when unseen, else the base
      name plus the smallest unused positive counter. */
  lemma ResolveName(r: Resolver, nodeType: string, isNamed: bool)
    ensures var b := BaseName(nodeType, isNamed, r.tokenSuffix);
      var name := Resolve(r, nodeType, isNamed).name;
      (b !in r.seen && name == b) ||
      (b in r.seen &&
       exists k: nat :: (1 <= k && name == b + NatToStr(k) &&
                         forall j: nat :: 1 <= j < k ==> b + NatToStr(j) in r.seen))
  {
    FirstFreeName(BaseName(nodeType, isNamed, r.tokenSuffix), r.seen);
  }

  /** The base names of a list of node types. */
  function BaseNames(types: seq<(string, bool)>, tokenSuffix: string): (bs: seq<string>)
    ensures |bs| == |types|
    ensures forall i :: 0 <= i < |types| ==> bs[i] == BaseName(types[i].0, types[i].1, tokenSuffix)
  {
    seq(|types|, i requires 0 <= i < |types| => BaseName(types[i].0, types[i].1, tokenSuffix))
  }

  /** A fresh resolver issues the base name itself. */
  lemma FreshResolverFirstName(tokenSuffix: string, nodeType: string, isNamed: bool)
    ensures Resolve(NewResolver(tokenSuffix), nodeType, isNamed).name == BaseName(nodeType, isNamed, tokenSuffix)
    ensures Resolve(NewResolver(tokenSuffix), nodeType, isNamed).resolver.seen ==
            {BaseName(nodeType, isNamed, tokenSuffix)}
  {
    assert FirstFree(BaseName(nodeType, isNamed, tokenSuffix), {}, 0) == 0;
  }

  /** Issuing names for a list of base names in order, on one resolver. */
  function IssueAll(r: Resolver, bs: seq<string>): (res: (seq<string>, Resolver))
    ensures |res.0| == |bs|
    ensures res.1.tokenSuffix == r.tokenSuffix
    decreases |bs|
  {
    if |bs| == 0 then ([], r)
    else
      var one := Issue(r, bs[0]);
      var rest := IssueAll(one.resolver, bs[1..]);
      ([one.name] + rest.0, rest.1)
  }

  /** Resolving a list of node types in order, on one resolver. The token
      suffix never changes, so the base names can be computed up front. */
  function ResolveAll(r: Resolver, types: seq<(string, bool)>): (res: (seq<string>, Resolver))
    ensures |res.0| == |types|
    ensures res.1.tokenSuffix == r.tokenSuffix
  {
    IssueAll(r, BaseNames(types, r.tokenSuffix))
  }

  lemma {:induction false} IssueAllDistinct(r: Resolver, bs: seq<string>)
    ensures Distinct(IssueAll(r, bs).0)
    ensures forall i :: 0 <= i < |bs| ==> IssueAll(r, bs).0[i] !in r.seen
    decreases |bs|
  {
    if |bs| > 0 {
      var one := Issue(r, bs[0]);
      var rest := IssueAll(one.resolver, bs[1..]).0;
      IssueAllDistinct(one.resolver, bs[1..]);
      var names := IssueAll(r, bs).0;
      assert names == [one.name] + rest;
      forall i | 0 <= i < |rest|
        ensures rest[i] != one.name && rest[i] !in r.seen
      {
        assert rest[i] !in one.resolver.seen;
      }
      forall i | 0 <= i < |names|
        ensures names[i] !in r.seen
      {
        if i > 0 {
          assert names[i] == rest[i - 1];
        }
      }
      forall i, j | 0 <= i < j < |names|
        ensures names[i] != names[j]
      {
        assert names[j] == rest[j - 1];
        if i > 0 {
          assert names[i] == rest[i - 1];
        }
      }
    }
  }

  /** No two calls on one resolver return the same name, and none returns a
      name issued before. */
  lemma ResolveAllDistinct(r: Resolver, types: seq<(string, bool)>)
    ensures Distinct(ResolveAll(r, types).0)
    ensures forall i :: 0 <= i < |types| ==> ResolveAll(r, types).0[i] !in r.seen
  {
    IssueAllDistinct(r, BaseNames(types, r.tokenSuffix));
  }

  lemma {:induction false} IssueAllSeen(r: Resolver, bs: seq<string>)
    ensures forall x :: x in IssueAll(r, bs).1.seen <==> x in r.seen || x in IssueAll(r, bs).0
    decreases |bs|
  {
    if |bs| > 0 {
      var one := Issue(r, bs[0]);
      IssueAllSeen(one.resolver, bs[1..]);
    }
  }

  /** After resolving a list, the resolver has issued exactly the names it had
      issued before plus the names just returned. */
  lemma ResolveAllSeen(r: Resolver, types: seq<(string, bool)>)
    ensures forall x :: x in ResolveAll(r, types).1.seen <==> x in r.seen || x in ResolveAll(r, types).0
  {
    IssueAllSeen(r, BaseNames(types, r.tokenSuffix));
  }

  lemma {:induction false} IssueAllFresh(r: Resolver, bs: seq<string>)
    requires forall i :: 0 <= i < |bs| ==> bs[i] !in r.seen
    requires Distinct(bs)
    ensures IssueAll(r, bs).0 == bs
    decreases |bs|
  {
    if |bs| > 0 {
      var one := Issue(r, bs[0]);
      assert one.name == bs[0] by {
        assert Candidate(bs[0], 0) == bs[0];
      }
      var tail := bs[1..];
      forall i | 0 <= i < |tail| ensures tail[i] !in one.resolver.seen {
        assert tail[i] == bs[i + 1];
      }
      forall i, j | 0 <= i < j < |tail| ensures tail[i] != tail[j] {
        assert tail[i] == bs[i + 1] && tail[j] == bs[j + 1];
      }
      IssueAllFresh(one.resolver, tail);
      assert bs == [bs[0]] + tail;
    }
  }

  /** When no base name was issued before and no two types share a base name,
      every type gets its base name with no counter. */
  lemma ResolveAllFresh(r: Resolver, types: seq<(string, bool)>)
    requires forall i :: 0 <= i < |types| ==> BaseName(types[i].0, types[i].1, r.tokenSuffix) !in r.seen
    requires forall i, j :: 0 <= i < j < |types| ==>
      BaseName(types[i].0, types[i].1, r.tokenSuffix) != BaseName(types[j].0, types[j].1, r.tokenSuffix)
    ensures forall i :: 0 <= i < |types| ==> ResolveAll(r, types).0[i] == BaseName(types[i].0, types[i].1, r.tokenSuffix)
  {
    var bs := BaseNames(types, r.tokenSuffix);
    IssueAllFresh(r, bs);
  }
}
