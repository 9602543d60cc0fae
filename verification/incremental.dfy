/** incremental.py: the byte-offset to row/column conversion and the
    `ParsedDocument` triple of text, Tree-sitter tree and converted root.

    The Tree-sitter parser is a parameter: a function from the source bytes and
    an optional previous tree to a tree or an error. `Tree.edit` is modelled
    by what it is given: each call appends its edit record to the tree. */
module Incremental {
  import opened Wrappers
  import opened Errors
  import opened PyStrings
  import opened Utf8
  import opened Nodes

  const Newline: byte := 10

  // ---------------------------------------------------------------------
  // _point_for_byte
  // ---------------------------------------------------------------------

  /** `b.count(b"\n")` */
  function CountNl(b: seq<byte>): (n: nat)
    ensures n <= |b|
    ensures n == 0 <==> Newline !in b
    decreases |b|
  {
    if |b| == 0 then 0
    else
      var init := b[..|b| - 1];
      assert forall x :: x in b <==> x in init || x == b[|b| - 1];
      CountNl(init) + (if b[|b| - 1] == Newline then 1 else 0)
  }

  /** `b.rfind(b"\n")`: the last newline's index, or -1. */
  function LastNl(b: seq<byte>): (r: int)
    ensures -1 <= r < |b|
    ensures r >= 0 ==> b[r] == Newline
    ensures forall k :: r < k < |b| ==> b[k] != Newline
    decreases |b|
  {
    if |b| == 0 then -1
    else if b[|b| - 1] == Newline then |b| - 1
    else LastNl(b[..|b| - 1])
  }

  /** `_point_for_byte(pos, buffer)`: the row is the number of newlines before
      `pos`, the column the distance from the byte after the last of them.
      Both searches use Python's slice bounds; the column uses `pos` as given. */
  function PointForByte(pos: int, buffer: seq<byte>): (pt: Point)
    ensures pt.row >= 0
    ensures 0 <= pos <= |buffer| ==> 0 <= pt.column <= pos && pt.row <= pos - pt.column
  {
    var before := Prefix(buffer, pos);
    var last := LastNl(before);
    assert 0 <= pos <= |buffer| ==> CountNl(before) <= last + 1 by {
      if 0 <= pos <= |buffer| && last >= 0 {
        var line := before[last + 1..];
        assert before == before[..last + 1] + line;
        CountNlAppend(before[..last + 1], line);
        assert Newline !in line by {
          forall k | 0 <= k < |line| ensures line[k] != Newline {
            assert line[k] == before[last + 1 + k];
          }
        }
      }
    }
    Point(CountNl(before), pos - (last + 1))
  }

  lemma {:induction false} CountNlAppend(a: seq<byte>, b: seq<byte>)
    ensures CountNl(a + b) == CountNl(a) + CountNl(b)
    decreases |b|
  {
    if |b| > 0 {
      assert (a + b)[..|a + b| - 1] == a + b[..|b| - 1];
      assert (a + b)[|a + b| - 1] == b[|b| - 1];
      CountNlAppend(a, b[..|b| - 1]);
    } else {
      assert a + b == a;
    }
  }

  lemma {:induction false} LastNlAppendClean(a: seq<byte>, b: seq<byte>)
    requires Newline !in b
    ensures LastNl(a + b) == LastNl(a)
    decreases |b|
  {
    if |b| > 0 {
      assert (a + b)[..|a + b| - 1] == a + b[..|b| - 1];
      assert (a + b)[|a + b| - 1] == b[|b| - 1];
      LastNlAppendClean(a, b[..|b| - 1]);
    } else {
      assert a + b == a;
    }
  }

  /** The start of the buffer is row 0, column 0. */
  lemma PointAtStart(buffer: seq<byte>)
    ensures PointForByte(0, buffer) == Point(0, 0)
  {
  }

  /** Inside the buffer the column is 0 exactly at the start and right after
      a newline. */
  lemma ColumnZero(pos: int, buffer: seq<byte>)
    requires 0 <= pos <= |buffer|
    ensures PointForByte(pos, buffer).column == 0 <==> pos == 0 || buffer[pos - 1] == Newline
  {
    var before := buffer[..pos];
    assert Prefix(buffer, pos) == before;
    if pos > 0 && buffer[pos - 1] == Newline {
      assert before[pos - 1] == Newline;
    }
  }

  /** The point locates the byte: the bytes between the line start the column
      counts from and `pos` hold no newline, and the row counts the newlines
      before that line start. */
  lemma PointLocates(pos: int, buffer: seq<byte>)
    requires 0 <= pos <= |buffer|
    ensures var pt := PointForByte(pos, buffer);
      var start := pos - pt.column;
      0 <= start <= pos &&
      (start == 0 || buffer[start - 1] == Newline) &&
      Newline !in buffer[start..pos] &&
      CountNl(buffer[..start]) == pt.row
  {
    var before := buffer[..pos];
    assert Prefix(buffer, pos) == before;
    var start := LastNl(before) + 1;
    var line := buffer[start..pos];
    assert Newline !in line by {
      forall k | 0 <= k < |line| ensures line[k] != Newline {
        assert line[k] == before[start + k];
      }
    }
    assert before == buffer[..start] + line;
    CountNlAppend(buffer[..start], line);
  }

  /** Later bytes never have earlier points: rows grow, and within a row the
      column grows. */
  lemma PointMonotone(p: int, q: int, buffer: seq<byte>)
    requires 0 <= p <= q <= |buffer|
    ensures var a := PointForByte(p, buffer);
      var b := PointForByte(q, buffer);
      a.row < b.row || (a.row == b.row && a.column <= b.column)
  {
    var mid := buffer[p..q];
    assert Prefix(buffer, p) == buffer[..p];
    assert Prefix(buffer, q) == buffer[..q];
    assert buffer[..q] == buffer[..p] + mid;
    CountNlAppend(buffer[..p], mid);
    if CountNl(mid) == 0 {
      LastNlAppendClean(buffer[..p], mid);
    }
  }

  // ---------------------------------------------------------------------
  // ParsedDocument
  // ---------------------------------------------------------------------

  /** The arguments of one `Tree.edit` call. */
  datatype InputEdit = InputEdit(
    startByte: int, oldEndByte: int, newEndByte: int,
    startPoint: Point, oldEndPoint: Point, newEndPoint: Point)

  datatype Tree = Tree(root: RawNode, edits: seq<InputEdit>)

  /** `tree.edit(...)`: recorded on the tree, for the next parse to read. */
  function EditTree(t: Tree, e: InputEdit): (r: Tree)
    ensures r.root == t.root && r.edits == t.edits + [e]
  {
    Tree(t.root, t.edits + [e])
  }

  /** `parser.parse(source, old_tree)` */
  type Parse = (seq<byte>, Option<Tree>) -> Result<Tree, Error>

  datatype Document = Document(text: string, tree: Tree, root: Node)

  /** The root a freshly parsed tree gives: converted by the base class. */
  function Materialize(t: Tree, source: seq<byte>, reg: Registry): (n: Node)
    ensures Materialized(reg, BaseClass, source, n)
    ensures Erase(n) == t.root
  {
    FromTreeSitterMaterialized(reg, BaseClass, t.root, source);
    EraseFromTreeSitter(reg, BaseClass, t.root, source);
    FromTreeSitter(reg, BaseClass, t.root, source)
  }

  /** `ParsedDocument(text=..., parser=..., tree=..., root=...)`: a supplied
      tree and root are kept when BOTH are given; otherwise the encoded text is
      parsed afresh and both are derived from it. */
  function Create(text: string, parse: Parse, reg: Registry, tree: Option<Tree>, root: Option<Node>): (r: Result<Document, Error>)
    ensures tree.Some? && root.Some? ==> r == Ok(Document(text, tree.value, root.value))
    ensures (tree.None? || root.None?) && parse(Encode(text), None).Ok? ==>
      r.Ok? && r.value.tree == parse(Encode(text), None).value &&
      r.value.root == Materialize(r.value.tree, Encode(text), reg)
    ensures (tree.None? || root.None?) && parse(Encode(text), None).Err? ==> r.Err?
    ensures r.Ok? ==> r.value.text == text
  {
    if tree.Some? && root.Some? then Ok(Document(text, tree.value, root.value))
    else
      var source := Encode(text);
      var t :- parse(source, None);
      Ok(Document(text, t, Materialize(t, source, reg)))
  }

  /** The document after an edit, and the exception the reparse raised if
      any: the tree is edited and the text replaced before the parse, and
      nothing is rolled back when the parse fails. */
  datatype Edited = Edited(doc: Document, raised: Option<Error>)

  /** The steps after the text is settled: reparse the whole new buffer with
      the edited tree, then rematerialise the root. */
  function Reparse(text: string, edited: Tree, oldRoot: Node, parse: Parse, reg: Registry): (r: Edited)
    ensures r.doc.text == text
    ensures r.raised.Some? ==> r.doc == Document(text, edited, oldRoot)
    ensures r.raised.None? ==> (parse(Encode(text), Some(edited)).Ok? &&
      r.doc.tree == parse(Encode(text), Some(edited)).value &&
      r.doc.root == Materialize(r.doc.tree, Encode(text), reg))
  {
    match parse(Encode(text), Some(edited))
    case Err(e) => Edited(Document(text, edited, oldRoot), Some(e))
    case Ok(t) => Edited(Document(text, t, Materialize(t, Encode(text), reg)), None)
  }

  /** `edit(start_byte, old_end_byte, new_end_byte, new_text)` as written: all
      three points are computed on the buffer before the edit, and the text is
      cut at the byte offsets as if they were character indices. */
  function EditAsWritten(d: Document, start: int, oldEnd: int, newEnd: int, newText: string,
                         parse: Parse, reg: Registry): (r: Edited)
    ensures r.doc.text == Splice(d.text, start, oldEnd, newText)
    ensures r.raised.Some? ==>
      r.doc.tree == EditTree(d.tree, EditRecordAsWritten(d.text, start, oldEnd, newEnd)) &&
      r.doc.root == d.root
    ensures r.raised.None? ==>
      var edited := EditTree(d.tree, EditRecordAsWritten(d.text, start, oldEnd, newEnd));
      parse(Encode(r.doc.text), Some(edited)).Ok? &&
      r.doc.tree == parse(Encode(r.doc.text), Some(edited)).value &&
      r.doc.root == Materialize(r.doc.tree, Encode(r.doc.text), reg)
  {
    var e := EditRecordAsWritten(d.text, start, oldEnd, newEnd);
    Reparse(Splice(d.text, start, oldEnd, newText), EditTree(d.tree, e), d.root, parse, reg)
  }

  /** The record the code as written passes to `tree.edit`: every point is
      located in the buffer before the edit. */
  function EditRecordAsWritten(text: string, start: int, oldEnd: int, newEnd: int): (e: InputEdit)
    ensures e.startByte == start && e.oldEndByte == oldEnd && e.newEndByte == newEnd
    ensures e.startPoint == PointForByte(start, Encode(text))
    ensures e.oldEndPoint == PointForByte(oldEnd, Encode(text))
    ensures e.newEndPoint == PointForByte(newEnd, Encode(text))
  {
    var buf := Encode(text);
    InputEdit(start, oldEnd, newEnd,
      PointForByte(start, buf), PointForByte(oldEnd, buf), PointForByte(newEnd, buf))
  }

  /** The edited buffer: the bytes before `start`, the new text's bytes, the
      bytes from `old_end` on. */
  function NewBuffer(text: string, start: int, oldEnd: int, newText: string): seq<byte> {
    Splice(Encode(text), start, oldEnd, Encode(newText))
  }

  /** The record `tree.edit` receives: the start and old end located in the
      old buffer, the new end in the new one. */
  function EditRecord(text: string, start: int, oldEnd: int, newEnd: int, newText: string): (e: InputEdit)
    ensures e.startByte == start && e.oldEndByte == oldEnd && e.newEndByte == newEnd
    ensures e.startPoint == PointForByte(start, Encode(text))
    ensures e.oldEndPoint == PointForByte(oldEnd, Encode(text))
    ensures e.newEndPoint == PointForByte(newEnd, NewBuffer(text, start, oldEnd, newText))
  {
    var prior := Encode(text);
    InputEdit(start, oldEnd, newEnd,
      PointForByte(start, prior), PointForByte(oldEnd, prior),
      PointForByte(newEnd, NewBuffer(text, start, oldEnd, newText)))
  }

  /** `edit` as intended: the splice is made on the encoded buffer, and the
      new end is located in the edited buffer. */
  function Edit(d: Document, start: int, oldEnd: int, newEnd: int, newText: string,
                parse: Parse, reg: Registry): (r: Edited)
    ensures r.doc.text == DecodeIgnore(NewBuffer(d.text, start, oldEnd, newText))
    ensures r.raised.Some? ==>
      r.doc.tree == EditTree(d.tree, EditRecord(d.text, start, oldEnd, newEnd, newText)) &&
      r.doc.root == d.root
    ensures r.raised.None? ==>
      var edited := EditTree(d.tree, EditRecord(d.text, start, oldEnd, newEnd, newText));
      parse(Encode(r.doc.text), Some(edited)).Ok? &&
      r.doc.tree == parse(Encode(r.doc.text), Some(edited)).value &&
      r.doc.root == Materialize(r.doc.tree, Encode(r.doc.text), reg)
  {
    var e := EditRecord(d.text, start, oldEnd, newEnd, newText);
    Reparse(DecodeIgnore(NewBuffer(d.text, start, oldEnd, newText)), EditTree(d.tree, e), d.root, parse, reg)
  }

  /** Cutting at character boundaries, the edit replaces exactly the
      characters between them, and the reparsed buffer is the spliced one. */
  lemma EditAtBoundaries(d: Document, a: string, b: string, c: string, newEnd: int, newText: string,
                         parse: Parse, reg: Registry)
    requires d.text == a + b + c
    ensures var r := Edit(d, |Encode(a)|, |Encode(a + b)|, newEnd, newText, parse, reg);
      r.doc.text == a + newText + c &&
      Encode(r.doc.text) == NewBuffer(d.text, |Encode(a)|, |Encode(a + b)|, newText)
  {
    var buf := Encode(d.text);
    EncodeAppend(a + b, c);
    EncodeAppend(a, b);
    var s := |Encode(a)|;
    var oe := |Encode(a + b)|;
    assert Prefix(buf, s) == Encode(a);
    assert Suffix(buf, oe) == Encode(c);
    EncodeAppend(a, newText);
    EncodeAppend(a + newText, c);
    assert NewBuffer(d.text, s, oe, newText) == Encode(a + newText + c);
    DecodeEncode(a + newText + c);
  }

  /** On ASCII text, byte offsets are character indices: both versions give
      the same text. */
  lemma AsciiEditAgrees(d: Document, start: int, oldEnd: int, newEnd: int, newText: string,
                        parse: Parse, reg: Registry)
    requires IsAscii(d.text) && IsAscii(newText)
    ensures Edit(d, start, oldEnd, newEnd, newText, parse, reg).doc.text ==
            EditAsWritten(d, start, oldEnd, newEnd, newText, parse, reg).doc.text
  {
    var t := d.text;
    var spliced := Splice(t, start, oldEnd, newText);
    EncodeAscii(t);
    EncodeAscii(newText);
    var buf := Encode(t);
    var nb := NewBuffer(t, start, oldEnd, newText);
    assert |buf| == |t|;
    var i := PyIndex(|t|, start);
    var j := PyIndex(|t|, oldEnd);
    assert nb == buf[..i] + Encode(newText) + buf[j..];
    assert spliced == t[..i] + newText + t[j..];
    assert |nb| == |spliced|;
    forall k | 0 <= k < |nb| ensures nb[k] == spliced[k] as int && nb[k] < 0x80 {
      if k < i {
      } else if k < i + |newText| {
        assert nb[k] == Encode(newText)[k - i];
      } else {
        assert nb[k] == buf[j + (k - i - |newText|)];
      }
    }
    DecodeAscii(nb);
    assert DecodeIgnore(nb) == spliced;
  }

  /** Inserting two newlines at the end of "ab": the new end, byte 4, is at
      row 2, column 0 of the edited buffer, but the code as written locates it
      in the old two-byte buffer, at row 0, column 4. */
  lemma NewEndPointCounterexample()
    ensures EditRecordAsWritten("ab", 2, 2, 4).newEndPoint == Point(0, 4)
    ensures EditRecord("ab", 2, 2, 4, "\n\n").newEndPoint == Point(2, 0)
  {
    var ob := Encode("ab");
    EncodeAscii("ab");
    assert ob == [97, 98];
    assert Prefix(ob, 4) == ob;
    EncodeAscii("\n\n");
    var nb := NewBuffer("ab", 2, 2, "\n\n");
    assert Prefix(ob, 2) == ob && Suffix(ob, 2) == [];
    assert nb == [97, 98, 10, 10];
    assert Prefix(nb, 4) == nb;
    assert nb[..3] == [97, 98, 10];
  }

  /** Replacing the "1" of "é=1" (bytes 3 to 4, after the two-byte "é"):
      the code as written cuts the text at character 3 and 4 and keeps the
      "1", giving "é=12"; the byte splice gives "é=2". */
  lemma ByteOffsetCounterexample(d: Document, parse: Parse, reg: Registry)
    requires d.text == "é=1"
    ensures EditAsWritten(d, 3, 4, 4, "2", parse, reg).doc.text == "é=12"
    ensures Edit(d, 3, 4, 4, "2", parse, reg).doc.text == "é=2"
  {
    assert Splice(d.text, 3, 4, "2") == "é=12";
    assert |Encode("é=")| == 3 by {
      EncodeAppend("é", "=");
    }
    assert |Encode("é=" + "1")| == 4 by {
      EncodeAppend("é=", "1");
    }
    assert d.text == "é=" + "1" + "";
    EditAtBoundaries(d, "é=", "1", "", 4, "2", parse, reg);
    assert "é=" + "2" + "" == "é=2";
  }
}
