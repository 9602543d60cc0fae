/** The pieces of Python's `str` (and `list`) behaviour that the modelled code
    relies on: whitespace, ASCII case mapping, `split`, `join`, `strip`,
    substring tests, slicing with Python's index rules and decimal rendering. */
module PyStrings {
  import opened Wrappers

  /** Python's `str.isspace()`; `str.split()`, `str.strip()` and the regular
      expression class `\s` all use this set of characters. */
  predicate IsSpace(c: char) {
    var x := c as int;
    x == 0x20 || (0x09 <= x <= 0x0D) || (0x1C <= x <= 0x1F) || x == 0x85 || x == 0xA0
    || x == 0x1680 || (0x2000 <= x <= 0x200A) || x == 0x2028 || x == 0x2029
    || x == 0x202F || x == 0x205F || x == 0x3000
  }

  predicate NoSpace(s: string) {
    forall i :: 0 <= i < |s| ==> !IsSpace(s[i])
  }

  predicate AllSpace(s: string) {
    forall i :: 0 <= i < |s| ==> IsSpace(s[i])
  }

  predicate IsAsciiUpper(c: char) { 'A' <= c <= 'Z' }
  predicate IsAsciiLower(c: char) { 'a' <= c <= 'z' }
  predicate IsAsciiLetter(c: char) { IsAsciiUpper(c) || IsAsciiLower(c) }
  predicate IsDigit(c: char) { '0' <= c <= '9' }

  function Upper(c: char): char {
    if IsAsciiLower(c) then (c as int - 32) as char else c
  }

  function Lower(c: char): char {
    if IsAsciiUpper(c) then (c as int + 32) as char else c
  }

  /** `s.lower()` */
  function LowerStr(s: string): (r: string)
    ensures |r| == |s|
    ensures forall i :: 0 <= i < |s| ==> r[i] == Lower(s[i])
  {
    seq(|s|, i requires 0 <= i < |s| => Lower(s[i]))
  }

  /** Lower-casing leaves text without upper-case letters alone. */
  lemma LowerStrNoUpper(s: string)
    requires forall i :: 0 <= i < |s| ==> !IsAsciiUpper(s[i])
    ensures LowerStr(s) == s
  {
  }

  /** `w.capitalize()`: first character upper case, the rest lower case. */
  function Capitalize(w: string): (r: string)
    ensures |r| == |w|
    ensures |w| > 0 ==> r[0] == Upper(w[0]) && r[1..] == LowerStr(w[1..])
  {
    if |w| == 0 then "" else [Upper(w[0])] + LowerStr(w[1..])
  }

  // ---------------------------------------------------------------------
  // Python index rules for slices: negative indices count from the end and
  // out-of-range indices are clamped.
  // ---------------------------------------------------------------------

  function PyIndex(len: nat, k: int): (r: nat)
    ensures r <= len
    ensures 0 <= k <= len ==> r == k
  {
    if k < 0 then (if len + k < 0 then 0 else len + k)
    else if k > len then len
    else k
  }

  /** `s[:k]` */
  function Prefix<T>(s: seq<T>, k: int): seq<T> {
    s[..PyIndex(|s|, k)]
  }

  /** `s[k:]` */
  function Suffix<T>(s: seq<T>, k: int): seq<T> {
    s[PyIndex(|s|, k)..]
  }

  /** `s[i:j]` */
  function Slice<T>(s: seq<T>, i: int, j: int): seq<T> {
    var a := PyIndex(|s|, i);
    var b := PyIndex(|s|, j);
    if a <= b then s[a..b] else []
  }

  /** `s * n`: `n` copies of `s`, none when `n` is not positive. */
  function Repeat<T>(s: seq<T>, n: int): (r: seq<T>)
    ensures n <= 0 ==> r == []
    ensures n > 0 ==> |r| == n * |s|
    decreases n
  {
    if n <= 0 then [] else s + Repeat(s, n - 1)
  }

  /** `s[:a] + r + s[b:]` */
  function Splice<T>(s: seq<T>, a: int, b: int, r: seq<T>): seq<T> {
    Prefix(s, a) + r + Suffix(s, b)
  }

  lemma SubsetSize<T>(a: set<T>, b: set<T>)
    requires a <= b
    ensures |a| <= |b|
  {
    assert b == a + (b - a);
  }

  lemma PrefixSuffix<T>(s: seq<T>, k: int)
    ensures Prefix(s, k) + Suffix(s, k) == s
  {
  }

  /** The elements in the opposite order. */
  function Reverse<T>(s: seq<T>): (r: seq<T>)
    ensures |r| == |s|
    ensures forall i :: 0 <= i < |s| ==> r[i] == s[|s| - 1 - i]
  {
    seq(|s|, i requires 0 <= i < |s| => s[|s| - 1 - i])
  }

  /** No element occurs twice. */
  predicate Distinct<T(==)>(s: seq<T>) {
    forall i, j :: 0 <= i < j < |s| ==> s[i] != s[j]
  }

  /** A distinct list has as many elements as its set. */
  lemma {:induction false} DistinctSize<T>(s: seq<T>)
    requires Distinct(s)
    ensures |set x | x in s| == |s|
    decreases |s|
  {
    if |s| > 0 {
      var t := s[..|s| - 1];
      DistinctSize(t);
      assert (set x | x in s) == (set x | x in t) + {s[|s| - 1]};
      assert s[|s| - 1] !in t;
    }
  }

  /** A distinct list drawn from another distinct list is no longer than it,
      and has the same elements when it is as long. */
  lemma DistinctSubset<T>(a: seq<T>, b: seq<T>)
    requires Distinct(a) && Distinct(b)
    requires forall x :: x in a ==> x in b
    ensures |a| <= |b|
    ensures |a| == |b| ==> forall x :: x in b ==> x in a
  {
    var sa := set x | x in a;
    var sb := set x | x in b;
    DistinctSize(a);
    DistinctSize(b);
    SubsetSize(sa, sb);
    assert sb == sa + (sb - sa);
    assert |sb| == |sa| + |sb - sa|;
    if |a| == |b| {
      assert sb - sa == {};
      forall x | x in b ensures x in a {
        assert x in sb;
      }
    }
  }

  /** A shorter distinct list inside a distinct list misses one of its elements. */
  lemma DistinctMissing<T>(a: seq<T>, b: seq<T>)
    requires Distinct(a) && Distinct(b) && |a| < |b|
    ensures exists x :: x in b && x !in a
  {
    if forall x :: x in b ==> x in a {
      DistinctSubset(b, a);
    }
  }

  /** The elements of `s` in first-occurrence order, each once (the order in
      which a Python dict or a networkx adjacency keeps its keys). */
  function Dedup<T(==,!new)>(s: seq<T>): (r: seq<T>)
    ensures Distinct(r)
    ensures forall x :: x in r <==> x in s
    ensures |s| > 0 ==> |r| > 0 && r[0] == s[0]
    decreases |s|
  {
    if |s| == 0 then []
    else
      var d := Dedup(s[..|s| - 1]);
      assert forall x :: x in s[..|s| - 1] ==> x in s;
      assert forall x :: x in s ==> x in s[..|s| - 1] || x == s[|s| - 1];
      if s[|s| - 1] in d then d else d + [s[|s| - 1]]
  }

  /** `lst.index(x)` when it succeeds, `None` where Python raises. */
  function IndexOf<T(==)>(s: seq<T>, x: T): (r: Option<nat>)
    ensures r.None? <==> x !in s
    ensures r.Some? ==> r.value < |s| && s[r.value] == x && x !in s[..r.value]
  {
    if |s| == 0 then None
    else if s[0] == x then Some(0)
    else match IndexOf(s[1..], x)
      case None => None
      case Some(k) => assert s[1..][..k] == s[1..k + 1]; Some(k + 1)
  }

  lemma IndexOfAt<T>(s: seq<T>, x: T, k: nat)
    requires k < |s| && s[k] == x && x !in s[..k]
    ensures IndexOf(s, x) == Some(k)
  {
    assert x in s by {
      assert s[k] == x;
    }
    var r := IndexOf(s, x);
    forall j | 0 <= j < k
      ensures s[j] != x
    {
      assert s[..k][j] == s[j];
    }
    forall j | 0 <= j < r.value
      ensures s[j] != x
    {
      assert s[..r.value][j] == s[j];
    }
  }

  // ---------------------------------------------------------------------
  // join and split on one separator character
  // ---------------------------------------------------------------------

  /** `sep.join(parts)` */
  function Join(sep: string, parts: seq<string>): string
  {
    if |parts| == 0 then ""
    else if |parts| == 1 then parts[0]
    else parts[0] + sep + Join(sep, parts[1..])
  }

  /** A part in front of a non-empty list is followed by the separator. */
  lemma JoinCons(sep: string, x: string, rest: seq<string>)
    requires |rest| > 0
    ensures Join(sep, [x] + rest) == x + sep + Join(sep, rest)
  {
    assert ([x] + rest)[1..] == rest;
  }

  /** Appending one part adds the separator and the part. */
  lemma {:induction false} JoinSnoc(sep: string, parts: seq<string>, x: string)
    ensures Join(sep, parts + [x]) == if |parts| == 0 then x else Join(sep, parts) + sep + x
    decreases |parts|
  {
    if |parts| == 0 {
      assert parts + [x] == [x];
    } else if |parts| == 1 {
      assert parts + [x] == [parts[0], x];
    } else {
      assert (parts + [x])[1..] == parts[1..] + [x];
      JoinSnoc(sep, parts[1..], x);
    }
  }

  /** Every part occurs in the joined string. */
  lemma {:induction false} JoinContains(sep: string, parts: seq<string>, i: nat)
    requires i < |parts|
    ensures IsSubstring(parts[i], Join(sep, parts))
    decreases |parts|
  {
    var j := Join(sep, parts);
    if i == 0 {
      assert OccursAt(parts[0], j, 0);
    } else {
      var rest := Join(sep, parts[1..]);
      JoinContains(sep, parts[1..], i - 1);
      var o :| OccursAt(parts[i], rest, o);
      OccursShift(parts[i], parts[0] + sep, rest, o);
    }
  }

  /** With an empty separator, joining distributes over concatenation. */
  lemma {:induction false} JoinEmptyAppend(a: seq<string>, b: seq<string>)
    ensures Join("", a + b) == Join("", a) + Join("", b)
    decreases |a|
  {
    if |a| == 0 {
      assert a + b == b;
    } else if |a| == 1 {
      if |b| > 0 {
        assert Join("", a + b) == a[0] + Join("", b);
      }
    } else {
      assert (a + b)[1..] == a[1..] + b;
      JoinEmptyAppend(a[1..], b);
    }
  }

  /** `s.split(sep)` for a one-character separator. */
  function Split(s: string, sep: char): (parts: seq<string>)
    ensures |parts| >= 1
    ensures forall i :: 0 <= i < |parts| ==> sep !in parts[i]
    decreases |s|
  {
    match IndexOf(s, sep)
    case None => [s]
    case Some(k) => [s[..k]] + Split(s[k + 1..], sep)
  }

  /** Joining the pieces of a split with the separator gives the string back. */
  lemma {:induction false} JoinSplit(s: string, sep: char)
    ensures Join([sep], Split(s, sep)) == s
    decreases |s|
  {
    match IndexOf(s, sep)
    case None =>
    case Some(k) =>
      var rest := Split(s[k + 1..], sep);
      assert Join([sep], Split(s, sep)) == s[..k] + [sep] + Join([sep], rest) by {
        assert Split(s, sep) == [s[..k]] + rest;
        JoinCons([sep], s[..k], rest);
      }
      JoinSplit(s[k + 1..], sep);
      assert s == s[..k] + [sep] + s[k + 1..] by {
        assert s[k] == sep;
      }
  }

  /** Splitting a join of separator-free pieces gives the pieces back. */
  lemma {:induction false} SplitJoin(parts: seq<string>, sep: char)
    requires |parts| >= 1
    requires forall i :: 0 <= i < |parts| ==> sep !in parts[i]
    ensures Split(Join([sep], parts), sep) == parts
    decreases |parts|
  {
    if |parts| == 1 {
      assert Join([sep], parts) == parts[0];
    } else {
      var s := Join([sep], parts);
      var tail := Join([sep], parts[1..]);
      var k := |parts[0]|;
      assert s == parts[0] + [sep] + tail;
      assert s[k] == sep;
      assert s[..k] == parts[0];
      assert sep !in parts[0];
      IndexOfAt(s, sep, k);
      assert s[k + 1..] == tail;
      SplitJoin(parts[1..], sep);
      assert Split(s, sep) == [parts[0]] + Split(tail, sep);
      assert parts == [parts[0]] + parts[1..];
    }
  }

  lemma SplitAtFirst(s: string, sep: char, k: nat)
    requires k < |s| && s[k] == sep && sep !in s[..k]
    ensures Split(s, sep) == [s[..k]] + Split(s[k + 1..], sep)
  {
    IndexOfAt(s, sep, k);
  }

  lemma SplitNoSep(a: string, sep: char)
    requires sep !in a
    ensures Split(a, sep) == [a]
  {
  }

  lemma SplitAroundHead(a: string, b: string, sep: char, k: nat)
    requires k < |a| && a[k] == sep && sep !in a[..k]
    ensures Split(a + [sep] + b, sep) == [a[..k]] + Split(a[k + 1..] + [sep] + b, sep)
  {
    var s := a + [sep] + b;
    assert s[k] == sep;
    assert s[..k] == a[..k];
    assert s[k + 1..] == a[k + 1..] + [sep] + b;
    SplitAtFirst(s, sep, k);
  }

  lemma SplitAroundStep(a: string, b: string, sep: char, k: nat)
    requires k < |a| && a[k] == sep && sep !in a[..k]
    requires Split(a[k + 1..] + [sep] + b, sep) == Split(a[k + 1..], sep) + Split(b, sep)
    ensures Split(a + [sep] + b, sep) == Split(a, sep) + Split(b, sep)
  {
    SplitAroundHead(a, b, sep, k);
    SplitAtFirst(a, sep, k);
    AppendAssoc([a[..k]], Split(a[k + 1..], sep), Split(b, sep));
  }

  lemma AppendAssoc<T>(x: seq<T>, y: seq<T>, z: seq<T>)
    ensures x + (y + z) == (x + y) + z
  {
  }

  /** A separator between two strings splits them apart and nothing else. */
  lemma {:induction false} SplitAround(a: string, b: string, sep: char)
    ensures Split(a + [sep] + b, sep) == Split(a, sep) + Split(b, sep)
    decreases |a|
  {
    var r := IndexOf(a, sep);
    if r.None? {
      var s := a + [sep] + b;
      assert s[|a|] == sep && s[..|a|] == a && s[|a| + 1..] == b;
      SplitAtFirst(s, sep, |a|);
      SplitNoSep(a, sep);
    } else {
      SplitAround(a[r.value + 1..], b, sep);
      SplitAroundStep(a, b, sep, r.value);
    }
  }

  // ---------------------------------------------------------------------
  // whitespace: split() and strip()
  // ---------------------------------------------------------------------

  /** Index of the end of the non-space run that starts at `i`. */
  function TokenEnd(s: string, i: nat): (k: nat)
    requires i <= |s|
    ensures i <= k <= |s|
    ensures NoSpace(s[i..k])
    ensures k < |s| ==> IsSpace(s[k])
    decreases |s| - i
  {
    if i == |s| || IsSpace(s[i]) then i
    else
      var k := TokenEnd(s, i + 1);
      assert s[i..k] == [s[i]] + s[i + 1..k];
      k
  }

  /** `s.split()`: the maximal runs of non-whitespace characters, in order. */
  function SplitWs(s: string): (tokens: seq<string>)
    ensures forall i :: 0 <= i < |tokens| ==> |tokens[i]| > 0 && NoSpace(tokens[i])
    decreases |s|
  {
    if |s| == 0 then []
    else if IsSpace(s[0]) then SplitWs(s[1..])
    else
      var k := TokenEnd(s, 0);
      [s[..k]] + SplitWs(s[k..])
  }

  lemma {:induction false} TokenEndShift(a: string, b: string, i: nat)
    requires i <= |a|
    requires |b| > 0 && IsSpace(b[0])
    ensures TokenEnd(a + b, i) == TokenEnd(a, i)
    decreases |a| - i
  {
    if i < |a| && !IsSpace(a[i]) {
      TokenEndShift(a, b, i + 1);
    }
  }

  /** Whitespace splits a string into the tokens of both sides. */
  lemma {:induction false} SplitWsAround(a: string, b: string)
    requires |b| > 0 && IsSpace(b[0])
    ensures SplitWs(a + b) == SplitWs(a) + SplitWs(b)
    decreases |a|
  {
    if |a| == 0 {
      assert a + b == b;
    } else if IsSpace(a[0]) {
      assert (a + b)[1..] == a[1..] + b;
      SplitWsAround(a[1..], b);
    } else {
      var k := TokenEnd(a, 0);
      TokenEndShift(a, b, 0);
      assert (a + b)[..k] == a[..k];
      assert (a + b)[k..] == a[k..] + b;
      SplitWsAround(a[k..], b);
    }
  }

  /** A single word splits into itself. */
  lemma {:induction false} SplitWsWord(w: string)
    requires |w| > 0 && NoSpace(w)
    ensures SplitWs(w) == [w]
  {
    var k := TokenEnd(w, 0);
    assert !IsSpace(w[0]);
    assert k == |w| by {
      if k < |w| {
        assert false;
      }
    }
    assert w[..k] == w;
    assert w[k..] == [];
  }

  /** `s.lstrip()` */
  function LStrip(s: string): (r: string)
    ensures |r| <= |s| && r == s[|s| - |r|..]
    ensures AllSpace(s[..|s| - |r|])
    ensures |r| > 0 ==> !IsSpace(r[0])
    decreases |s|
  {
    if |s| > 0 && IsSpace(s[0]) then
      var r := LStrip(s[1..]);
      assert s[..|s| - |r|] == [s[0]] + s[1..][..|s[1..]| - |r|];
      r
    else s
  }

  /** `s.rstrip()` */
  function RStrip(s: string): (r: string)
    ensures |r| <= |s| && r == s[..|r|]
    ensures AllSpace(s[|r|..])
    ensures |r| > 0 ==> !IsSpace(r[|r| - 1])
    decreases |s|
  {
    if |s| > 0 && IsSpace(s[|s| - 1]) then
      var r := RStrip(s[..|s| - 1]);
      assert s[|r|..] == s[..|s| - 1][|r|..] + [s[|s| - 1]];
      r
    else s
  }

  /** `s.strip()` */
  function Strip(s: string): (r: string)
    ensures |r| > 0 ==> !IsSpace(r[0]) && !IsSpace(r[|r| - 1])
    ensures |r| == 0 <==> AllSpace(s)
  {
    StripEnds(s);
    RStrip(LStrip(s))
  }

  lemma StripEnds(s: string)
    ensures var r := RStrip(LStrip(s)); |r| == 0 <==> AllSpace(s)
    ensures var r := RStrip(LStrip(s)); |r| > 0 ==> !IsSpace(r[0])
  {
    var l := LStrip(s);
    LStripEmpty(s);
    if |l| > 0 {
      RStripKeepsHead(l);
    }
  }

  /** Left-stripping empties exactly the all-whitespace strings. */
  lemma LStripEmpty(s: string)
    ensures |LStrip(s)| == 0 <==> AllSpace(s)
  {
    var l := LStrip(s);
    if |l| == 0 {
      assert s[..|s| - |l|] == s;
    } else {
      assert l[0] == s[|s| - |l|];
    }
  }

  /** Right-stripping a string that starts with a non-space keeps that start. */
  lemma RStripKeepsHead(l: string)
    requires |l| > 0 && !IsSpace(l[0])
    ensures |RStrip(l)| > 0 && RStrip(l)[0] == l[0]
  {
  }

  lemma LStripTrimmed(b: string)
    requires |b| > 0 && !IsSpace(b[0])
    ensures LStrip(b) == b
  {
  }

  lemma RStripTrimmed(b: string)
    requires |b| > 0 && !IsSpace(b[|b| - 1])
    ensures RStrip(b) == b
  {
  }

  /** Stripping leaves a string without whitespace at its ends alone. */
  lemma StripTrimmed(b: string)
    requires |b| > 0 && !IsSpace(b[0]) && !IsSpace(b[|b| - 1])
    ensures Strip(b) == b
  {
    LStripTrimmed(b);
    RStripTrimmed(b);
  }

  // ---------------------------------------------------------------------
  // whitespace-separated words
  // ---------------------------------------------------------------------

  /** A token `split()` can return and that holds no comma. */
  predicate Word(w: string) {
    |w| > 0 && NoSpace(w) && ',' !in w
  }

  lemma SplitWsLeadingSpace(x: string)
    ensures SplitWs(" " + x) == SplitWs(x)
  {
    assert (" " + x)[1..] == x;
  }

  /** A word followed by a space splits off as the first token. */
  lemma SplitWsCons(w: string, rest: string)
    requires |w| > 0 && NoSpace(w)
    ensures SplitWs(w + " " + rest) == [w] + SplitWs(rest)
  {
    assert w + " " + rest == w + (" " + rest);
    SplitWsAround(w, " " + rest);
    SplitWsWord(w);
    SplitWsLeadingSpace(rest);
  }

  /** Words joined by single spaces split back into the words. */
  lemma {:induction false} SplitWsJoin(words: seq<string>)
    requires forall i :: 0 <= i < |words| ==> |words[i]| > 0 && NoSpace(words[i])
    ensures SplitWs(Join(" ", words)) == words
    decreases |words|
  {
    if |words| == 1 {
      SplitWsWord(words[0]);
    } else if |words| > 1 {
      SplitWsJoin(words[1..]);
      SplitWsCons(words[0], Join(" ", words[1..]));
      HeadTailSeq(words);
    }
  }

  lemma HeadTailSeq<T>(s: seq<T>)
    requires |s| > 0
    ensures s == [s[0]] + s[1..]
  {
  }

  /** The first and last characters of a join of non-empty parts are those of
      the first and last parts. */
  lemma {:induction false} JoinEnds(sep: string, parts: seq<string>)
    requires |parts| > 0
    requires forall i :: 0 <= i < |parts| ==> |parts[i]| > 0
    ensures var j := Join(sep, parts);
      |j| > 0 && j[0] == parts[0][0] && j[|j| - 1] == parts[|parts| - 1][|parts[|parts| - 1]| - 1]
    decreases |parts|
  {
    if |parts| > 1 {
      JoinEnds(sep, parts[1..]);
    }
  }

  /** Words joined by single spaces are left alone by `strip()`. */
  lemma StripJoinWords(words: seq<string>)
    requires forall i :: 0 <= i < |words| ==> |words[i]| > 0 && NoSpace(words[i])
    ensures Strip(Join(" ", words)) == Join(" ", words)
  {
    if |words| > 0 {
      JoinEnds(" ", words);
      var last := words[|words| - 1];
      assert !IsSpace(last[|last| - 1]);
      StripTrimmed(Join(" ", words));
    }
  }

  // ---------------------------------------------------------------------
  // substring tests and replacement
  // ---------------------------------------------------------------------

  predicate StartsWith<T(==)>(s: seq<T>, p: seq<T>) {
    |p| <= |s| && s[..|p|] == p
  }

  predicate EndsWith<T(==)>(s: seq<T>, p: seq<T>) {
    |p| <= |s| && s[|s| - |p|..] == p
  }

  /** Python's `needle in hay` for strings, stated as an occurrence at some index. */
  ghost predicate OccursAt(needle: string, hay: string, i: int) {
    0 <= i && i + |needle| <= |hay| && hay[i..i + |needle|] == needle
  }

  ghost predicate IsSubstring(needle: string, hay: string) {
    exists i :: OccursAt(needle, hay, i)
  }

  lemma OccursShift(needle: string, a: string, b: string, i: int)
    requires OccursAt(needle, b, i)
    ensures OccursAt(needle, a + b, |a| + i)
  {
    assert (a + b)[|a| + i..|a| + i + |needle|] == b[i..i + |needle|];
  }

  /** Text found in the middle piece is found in the whole. */
  lemma SubstringWithin(x: string, a: string, m: string, c: string)
    requires IsSubstring(x, m)
    ensures IsSubstring(x, a + m + c)
  {
    var i :| OccursAt(x, m, i);
    OccursShift(x, a, m, i);
    assert (a + m + c)[|a| + i..|a| + i + |x|] == (a + m)[|a| + i..|a| + i + |x|];
    assert OccursAt(x, a + m + c, |a| + i);
  }

  lemma SubstringTrans(x: string, y: string, z: string)
    requires IsSubstring(x, y) && IsSubstring(y, z)
    ensures IsSubstring(x, z)
  {
    var i :| OccursAt(x, y, i);
    var j :| OccursAt(y, z, j);
    forall k | 0 <= k < |x|
      ensures z[j + i + k] == x[k]
    {
      assert x[k] == y[i + k];
      assert y[i + k] == z[j..j + |y|][i + k];
    }
    assert z[j + i..j + i + |x|] == x;
    assert OccursAt(x, z, j + i);
  }

  lemma SubstringSelf(x: string)
    ensures IsSubstring(x, x)
  {
    assert OccursAt(x, x, 0);
  }

  /** A concatenation starts with its first piece and ends with its last. */
  lemma Frame<T>(a: seq<T>, m: seq<T>, c: seq<T>)
    ensures StartsWith(a + m + c, a) && EndsWith(a + m + c, c)
  {
  }

  /** Where the middle of a three-part concatenation sits. */
  lemma Middle<T>(a: seq<T>, m: seq<T>, c: seq<T>)
    ensures forall j :: 0 <= j < |m| ==> (a + m + c)[|a| + j] == m[j]
    ensures (a + m + c)[|a|..|a| + |m|] == m
    ensures |c| > 0 ==> (a + m + c)[|a| + |m|] == c[0]
  {
  }

  /** `needle in hay` */
  function Contains(hay: string, needle: string): bool
    decreases |hay|
  {
    StartsWith(hay, needle) || (|hay| > 0 && Contains(hay[1..], needle))
  }

  /** A text containing a non-empty needle contains its first character. */
  lemma {:induction false} ContainsFirstChar(hay: string, needle: string)
    requires |needle| > 0
    ensures Contains(hay, needle) ==> needle[0] in hay
    decreases |hay|
  {
    if |hay| > 0 {
      ContainsFirstChar(hay[1..], needle);
      assert StartsWith(hay, needle) ==> hay[0] == needle[0];
      assert needle[0] in hay[1..] ==> needle[0] in hay;
    }
  }

  /** The scanning test agrees with the occurrence-at-an-index definition. */
  lemma {:induction false} ContainsIsSubstring(hay: string, needle: string)
    ensures Contains(hay, needle) <==> IsSubstring(needle, hay)
    decreases |hay|
  {
    if StartsWith(hay, needle) {
      assert OccursAt(needle, hay, 0);
    } else if |hay| == 0 {
      assert forall i :: !OccursAt(needle, hay, i);
    } else {
      ContainsIsSubstring(hay[1..], needle);
      if Contains(hay[1..], needle) {
        var i :| OccursAt(needle, hay[1..], i);
        OccursInTail(needle, hay, i + 1);
      } else {
        forall i ensures !OccursAt(needle, hay, i) {
          if i > 0 {
            OccursInTail(needle, hay, i);
          }
        }
      }
    }
  }

  /** Past the first character, an occurrence in a text is one in its tail. */
  lemma OccursInTail(needle: string, hay: string, i: int)
    requires |hay| > 0 && i > 0
    ensures OccursAt(needle, hay, i) <==> OccursAt(needle, hay[1..], i - 1)
  {
    if i + |needle| <= |hay| {
      assert hay[1..][i - 1..i - 1 + |needle|] == hay[i..i + |needle|];
    }
  }

  /** `s.replace(c, r)` for a one-character pattern. */
  function ReplaceChar(s: string, c: char, r: string): (t: string)
    ensures c !in s ==> t == s
  {
    if |s| == 0 then ""
    else (if s[0] == c then r else [s[0]]) + ReplaceChar(s[1..], c, r)
  }

  lemma {:induction false} ReplaceCharAppend(a: string, b: string, c: char, r: string)
    ensures ReplaceChar(a + b, c, r) == ReplaceChar(a, c, r) + ReplaceChar(b, c, r)
    decreases |a|
  {
    if |a| == 0 {
      assert a + b == b;
    } else {
      assert (a + b)[1..] == a[1..] + b;
      ReplaceCharAppend(a[1..], b, c, r);
    }
  }

  // ---------------------------------------------------------------------
  // str(int)
  // ---------------------------------------------------------------------

  function DigitChar(d: nat): (c: char)
    requires d < 10
    ensures IsDigit(c)
  {
    (48 + d) as char
  }

  function DigitValue(c: char): nat
    requires IsDigit(c)
  {
    c as int - 48
  }

  /** `str(n)` for a natural number. */
  function NatToStr(n: nat): (s: string)
    ensures |s| >= 1
    ensures forall i :: 0 <= i < |s| ==> IsDigit(s[i])
    decreases n
  {
    if n < 10 then [DigitChar(n)] else NatToStr(n / 10) + [DigitChar(n % 10)]
  }

  /** `str(i)` for any integer. */
  function IntToStr(i: int): string {
    if i < 0 then "-" + NatToStr(-i) else NatToStr(i)
  }

  /** `int(s)` on a string of decimal digits. */
  function DigitsValue(s: string): nat
    requires forall i :: 0 <= i < |s| ==> IsDigit(s[i])
  {
    if |s| == 0 then 0 else DigitsValue(s[..|s| - 1]) * 10 + DigitValue(s[|s| - 1])
  }

  /** Reading back the decimal rendering gives the number: `int(str(n)) == n`. */
  lemma {:induction false} NatToStrRoundTrip(n: nat)
    ensures DigitsValue(NatToStr(n)) == n
    decreases n
  {
    if n >= 10 {
      var s := NatToStr(n);
      NatToStrRoundTrip(n / 10);
      assert s[..|s| - 1] == NatToStr(n / 10);
    }
  }

  lemma NatToStrInjective(m: nat, n: nat)
    requires NatToStr(m) == NatToStr(n)
    ensures m == n
  {
    NatToStrRoundTrip(m);
    NatToStrRoundTrip(n);
  }
}
