/**
  `ToCSVWriter`: a header line with every field name, then one line per record, each cell the
  `%v` text of the field (a slice or array as its elements joined with `,`), written by Go's
  `encoding/csv` writer with its defaults: `,` between cells, LF at the end of each line, and a
  cell put in double quotes, with its quotes doubled, when section 2 of RFC 4180 asks for it
  (rules 6 and 7) or when it starts with a space or is `\.`.
*/
module Csv {
  import opened Wrappers
  import opened Strings
  import opened Values

  // ---------------------------------------------------------------- the writer's encoding

  /** Go's `unicode.IsSpace`: the characters with the Unicode White_Space property. */
  predicate UnicodeSpace(c: char) {
    ('\t' <= c <= '\r') || c == ' ' || c == '\U{0085}' || c == '\U{00A0}' || c == '\U{1680}' ||
    ('\U{2000}' <= c <= '\U{200A}') || c == '\U{2028}' || c == '\U{2029}' || c == '\U{202F}' ||
    c == '\U{205F}' || c == '\U{3000}'
  }

  /**
    `fieldNeedsQuotes`: a non-empty cell is quoted when it holds a line break, a double quote or
    the separator, when it starts with a space, or when it is `\.`.
  */
  predicate NeedsQuotes(cell: string) {
    cell != [] &&
    (cell == "\\." || '\n' in cell || '\r' in cell || '"' in cell || ',' in cell || UnicodeSpace(cell[0]))
  }

  /** The inside of a quoted cell: every double quote doubled, everything else as it is. */
  function Escape(s: string): (r: string)
    ensures |r| >= |s|
  {
    if s == [] then []
    else (if s[0] == '"' then "\"\"" else [s[0]]) + Escape(s[1..])
  }

  /** One cell as the writer puts it on the line. */
  function EncodeCell(cell: string): string {
    if NeedsQuotes(cell) then "\"" + Escape(cell) + "\"" else cell
  }

  function EncodeCells(cells: seq<string>): (r: seq<string>)
    ensures |r| == |cells|
  {
    if cells == [] then [] else [EncodeCell(cells[0])] + EncodeCells(cells[1..])
  }

  /** `csv.Writer.Write`: the encoded cells separated by `,`, then LF. */
  function Line(cells: seq<string>): string {
    Join(EncodeCells(cells), ",") + "\n"
  }

  /** The lines of several records, one after the other. */
  function Lines(records: seq<seq<string>>): string {
    if records == [] then [] else Line(records[0]) + Lines(records[1..])
  }

  // ---------------------------------------------------------------- the cells and the document

  /**
    One cell: a slice or array is its elements' `%v` texts joined with `,` (no brackets, no
    trailing separator); any other value is its own `%v` text.
  */
  function CellText(v: Value): string {
    match v
    case VSlice(_, elems) => Join(Texts(elems), ",")
    case VArray(elems) => Join(Texts(elems), ",")
    case _ => Text(v)
  }

  /** The header: every field name, exported or not, in declaration order. */
  function Header(schema: Schema): (names: seq<string>)
    ensures |names| == |schema|
  {
    if schema == [] then [] else [schema[0].name] + Header(schema[1..])
  }

  /** The cells of one record, field by field. */
  function Row(rec: Record): (cells: seq<string>)
    ensures |cells| == |rec|
  {
    if rec == [] then [] else [CellText(rec[0])] + Row(rec[1..])
  }

  /** The rows of the records, in list order. */
  function Rows(recs: seq<Record>): (rows: seq<seq<string>>)
    ensures |rows| == |recs|
  {
    if recs == [] then [] else [Row(recs[0])] + Rows(recs[1..])
  }

  /** What `ToCSVWriter` writes: the header line, then one line per record. */
  function Document(schema: Schema, recs: seq<Record>): string {
    Line(Header(schema)) + Lines(Rows(recs))
  }

  /** The header names every field, in declaration order. */
  lemma {:induction false} HeaderAt(schema: Schema, i: nat)
    requires i < |schema|
    ensures Header(schema)[i] == schema[i].name
  {
    if i > 0 {
      HeaderAt(schema[1..], i - 1);
    }
  }

  /** Cell `i` of a row is the text of field `i`. */
  lemma {:induction false} RowAt(rec: Record, i: nat)
    requires i < |rec|
    ensures Row(rec)[i] == CellText(rec[i])
  {
    if i > 0 {
      RowAt(rec[1..], i - 1);
    }
  }

  /** Row `k` is the row of record `k`. */
  lemma {:induction false} RowsAt(recs: seq<Record>, k: nat)
    requires k < |recs|
    ensures Rows(recs)[k] == Row(recs[k])
  {
    if k > 0 {
      RowsAt(recs[1..], k - 1);
    }
  }

  // ---------------------------------------------------------------- an RFC 4180 reader

  /**
    The rest of a quoted cell, after its opening quote: its text, with doubled quotes read as
    one, and what follows the closing quote.
  */
  function Quoted(s: string): (r: Option<(string, string)>)
    ensures r.Some? ==> |r.value.1| < |s|
    decreases |s|
  {
    if s == [] then None
    else if s[0] == '"' then
      if |s| >= 2 && s[1] == '"' then
        match Quoted(s[2..])
        case None => None
        case Some(p) => Some(("\"" + p.0, p.1))
      else Some(([], s[1..]))
    else
      match Quoted(s[1..])
      case None => None
      case Some(p) => Some(([s[0]] + p.0, p.1))
  }

  /** An unquoted cell: everything up to the next `,` or LF. */
  function Unquoted(s: string): (r: (string, string))
    ensures |r.0| + |r.1| == |s|
  {
    if s == [] || s[0] == ',' || s[0] == '\n' then ([], s)
    else
      var p := Unquoted(s[1..]);
      ([s[0]] + p.0, p.1)
  }

  /** One cell, quoted or not, and what follows it. */
  function ReadCell(s: string): (r: Option<(string, string)>)
    ensures r.Some? ==> |r.value.1| <= |s|
  {
    if s != [] && s[0] == '"' then Quoted(s[1..]) else Some(Unquoted(s))
  }

  /** One record: cells separated by `,` up to the LF that ends it, and the text after that LF. */
  function ReadRecord(s: string): (r: Option<(seq<string>, string)>)
    ensures r.Some? ==> |r.value.1| < |s|
    decreases |s|
  {
    match ReadCell(s)
    case None => None
    case Some(p) =>
      var (cell, rest) := p;
      if rest == [] then None
      else if rest[0] == '\n' then Some(([cell], rest[1..]))
      else if rest[0] == ',' then
        match ReadRecord(rest[1..])
        case None => None
        case Some(q) => Some(([cell] + q.0, q.1))
      else None
  }

  /** A whole document: records until the text runs out. */
  function ReadDocument(s: string): Option<seq<seq<string>>>
    decreases |s|
  {
    if s == [] then Some([])
    else
      match ReadRecord(s)
      case None => None
      case Some(p) =>
        match ReadDocument(p.1)
        case None => None
        case Some(records) => Some([p.0] + records)
  }

  // ---------------------------------------------------------------- the round trip

  /** Rule 7: the escaped text, then the closing quote, reads back as the text. */
  lemma {:induction false} QuotedEscape(cell: string, rest: string)
    requires rest == [] || rest[0] != '"'
    ensures Quoted(Escape(cell) + "\"" + rest) == Some((cell, rest))
  {
    var s := Escape(cell) + "\"" + rest;
    if cell == [] {
      assert s == "\"" + rest;
      assert s[1..] == rest;
    } else if cell[0] == '"' {
      assert s == "\"\"" + (Escape(cell[1..]) + "\"" + rest);
      assert s[2..] == Escape(cell[1..]) + "\"" + rest;
      QuotedEscape(cell[1..], rest);
      assert "\"" + cell[1..] == cell;
    } else {
      assert s == [cell[0]] + (Escape(cell[1..]) + "\"" + rest);
      assert s[1..] == Escape(cell[1..]) + "\"" + rest;
      QuotedEscape(cell[1..], rest);
      assert [cell[0]] + cell[1..] == cell;
    }
  }

  /** A cell with no separator and no LF reads back up to the delimiter after it. */
  lemma {:induction false} UnquotedPlain(cell: string, rest: string)
    requires ',' !in cell && '\n' !in cell
    requires rest == [] || rest[0] == ',' || rest[0] == '\n'
    ensures Unquoted(cell + rest) == (cell, rest)
  {
    if cell == [] {
      assert cell + rest == rest;
    } else {
      assert (cell + rest)[1..] == cell[1..] + rest;
      UnquotedPlain(cell[1..], rest);
      assert [cell[0]] + cell[1..] == cell;
    }
  }

  /** A quoted cell reads back as its text. */
  lemma ReadQuotedCell(cell: string, rest: string)
    requires NeedsQuotes(cell)
    requires rest != [] && (rest[0] == ',' || rest[0] == '\n')
    ensures ReadCell(EncodeCell(cell) + rest) == Some((cell, rest))
  {
    var s := "\"" + (Escape(cell) + "\"" + rest);
    assert EncodeCell(cell) + rest == s;
    assert s[1..] == Escape(cell) + "\"" + rest;
    QuotedEscape(cell, rest);
  }

  /** A cell written as it is reads back up to the delimiter after it. */
  lemma ReadPlainCell(cell: string, rest: string)
    requires !NeedsQuotes(cell)
    requires rest != [] && (rest[0] == ',' || rest[0] == '\n')
    ensures ReadCell(EncodeCell(cell) + rest) == Some((cell, rest))
  {
    if cell == [] {
      assert EncodeCell(cell) + rest == rest;
    } else {
      assert '"' !in cell && ',' !in cell && '\n' !in cell;
      assert (cell + rest)[0] == cell[0];
      UnquotedPlain(cell, rest);
    }
  }

  /** Every cell, quoted or not, reads back as itself. */
  lemma ReadEncodedCell(cell: string, rest: string)
    requires rest != [] && (rest[0] == ',' || rest[0] == '\n')
    ensures ReadCell(EncodeCell(cell) + rest) == Some((cell, rest))
  {
    if NeedsQuotes(cell) {
      ReadQuotedCell(cell, rest);
    } else {
      ReadPlainCell(cell, rest);
    }
  }

  /** Rule 6 and the LF ending: one written line reads back as its cells. */
  lemma {:induction false} ReadLine(cells: seq<string>, rest: string)
    requires |cells| >= 1
    ensures ReadRecord(Line(cells) + rest) == Some((cells, rest))
  {
    var encoded := EncodeCells(cells);
    var first := EncodeCell(cells[0]);
    if |cells| == 1 {
      assert Line(cells) + rest == first + ("\n" + rest);
      ReadEncodedCell(cells[0], "\n" + rest);
      assert ("\n" + rest)[1..] == rest;
      assert [cells[0]] == cells;
    } else {
      var tail := Join(EncodeCells(cells[1..]), ",");
      assert encoded[1..] == EncodeCells(cells[1..]);
      assert Line(cells) + rest == first + ("," + (tail + "\n" + rest));
      ReadEncodedCell(cells[0], "," + (tail + "\n" + rest));
      assert ("," + (tail + "\n" + rest))[1..] == Line(cells[1..]) + rest;
      ReadLine(cells[1..], rest);
      assert [cells[0]] + cells[1..] == cells;
    }
  }

  /** Every written record reads back, in order, when none is empty. */
  lemma {:induction false} ReadLines(records: seq<seq<string>>)
    requires forall k :: 0 <= k < |records| ==> |records[k]| >= 1
    ensures ReadDocument(Lines(records)) == Some(records)
  {
    if records != [] {
      ReadLine(records[0], Lines(records[1..]));
      ReadLines(records[1..]);
      assert [records[0]] + records[1..] == records;
    }
  }

  /**
    The output law: reading the document back gives the header, then exactly one row per
    record in list order, every cell the `%v` text of its field.
  */
  lemma DocumentRoundTrip(schema: Schema, recs: seq<Record>)
    requires |schema| >= 1
    requires forall k :: 0 <= k < |recs| ==> |recs[k]| == |schema|
    ensures ReadDocument(Document(schema, recs)) == Some([Header(schema)] + Rows(recs))
  {
    var all := [Header(schema)] + Rows(recs);
    assert all[1..] == Rows(recs);
    forall k | 1 <= k < |all|
      ensures |all[k]| >= 1
    {
      RowsAt(recs, k - 1);
    }
    ReadLines(all);
  }

  /** A cell is written as it is exactly when it needs no quotes. */
  lemma EncodeCellVerbatim(cell: string)
    ensures EncodeCell(cell) == cell <==> !NeedsQuotes(cell)
  {
  }

  /** A slice cell: empty for no elements, the element's text alone for one, `,` between more. */
  lemma SliceCells(isNil: bool, elems: seq<Value>)
    ensures |elems| == 0 ==> CellText(VSlice(isNil, elems)) == []
    ensures |elems| == 1 ==> CellText(VSlice(isNil, elems)) == Text(elems[0])
    ensures |elems| >= 2 ==>
      CellText(VSlice(isNil, elems)) == Text(elems[0]) + "," + CellText(VSlice(isNil, elems[1..]))
  {
    if |elems| >= 1 {
      assert Texts(elems)[0] == Text(elems[0]) && Texts(elems)[1..] == Texts(elems[1..]);
    }
  }

  lemma LinesSnoc(records: seq<seq<string>>, last: seq<string>)
    ensures Lines(records + [last]) == Lines(records) + Line(last)
  {
    if records == [] {
      assert [] + [last] == [last];
    } else {
      assert (records + [last])[1..] == records[1..] + [last];
      LinesSnoc(records[1..], last);
    }
  }

  // ---------------------------------------------------------------- the procedures

  /** The `io.Writer` the document goes to, with everything written to it so far. */
  class Sink {
    var written: string

    constructor()
      ensures written == []
    {
      written := [];
    }

    /** `csv.Writer.Write` of one record, flushed. */
    method Write(cells: seq<string>)
      modifies this
      ensures written == old(written) + Line(cells)
    {
      written := written + Line(cells);
    }
  }

  /** The `heading` loop: one name per field. */
  method HeaderNames(schema: Schema) returns (heading: seq<string>)
    ensures heading == Header(schema)
  {
    heading := [];
    for i := 0 to |schema|
      invariant heading == Header(schema[..i])
    {
      HeaderSnoc(schema, i);
      heading := heading + [schema[i].name];
    }
    assert schema[..|schema|] == schema;
  }

  lemma HeaderSnoc(schema: Schema, i: nat)
    requires i < |schema|
    ensures Header(schema[..i + 1]) == Header(schema[..i]) + [schema[i].name]
  {
    assert schema[..i + 1] == schema[..i] + [schema[i]];
    HeaderAppend(schema[..i], schema[i]);
  }

  lemma {:induction false} HeaderAppend(schema: Schema, f: Field)
    ensures Header(schema + [f]) == Header(schema) + [f.name]
  {
    if schema == [] {
      assert [] + [f] == [f];
    } else {
      assert (schema + [f])[1..] == schema[1..] + [f];
      HeaderAppend(schema[1..], f);
    }
  }

  /**
    The cell loop: for a slice or array, each element's text followed by `,` except after the
    last; for anything else, its text.
  */
  method FormatCell(v: Value) returns (cell: string)
    ensures cell == CellText(v)
  {
    if v.VSlice? || v.VArray? {
      var elems := v.elems;
      var texts := Texts(elems);
      cell := "";
      for i := 0 to |elems|
        invariant i == 0 ==> cell == []
        invariant 0 < i < |elems| ==> cell == Join(texts[..i], ",") + ","
        invariant 0 < i == |elems| ==> cell == Join(texts[..i], ",")
      {
        TextsAt(elems, i);
        assert texts[..i + 1] == texts[..i] + [texts[i]];
        if i > 0 {
          JoinSnoc(texts[..i], texts[i], ",");
        }
        cell := cell + Text(elems[i]);
        if i != |elems| - 1 {
          cell := cell + ",";
        }
      }
      assert texts[..|elems|] == texts;
    } else {
      cell := Text(v);
    }
  }

  /** The row loop: one cell per field. */
  method FormatRow(rec: Record) returns (row: seq<string>)
    ensures row == Row(rec)
  {
    row := [];
    for i := 0 to |rec|
      invariant |row| == i && forall j :: 0 <= j < i ==> row[j] == CellText(rec[j])
    {
      var cell := FormatCell(rec[i]);
      row := row + [cell];
    }
    forall j | 0 <= j < |rec|
      ensures row[j] == Row(rec)[j]
    {
      RowAt(rec, j);
    }
  }

  /**
    `ToCSVWriter`: the header, then one row per record, each written as a line; the writer
    ends up holding the document.
  */
  method ToCSVWriter(schema: Schema, arr: seq<Record>, w: Sink)
    modifies w
    ensures w.written == old(w.written) + Document(schema, arr)
  {
    var heading := HeaderNames(schema);
    w.Write(heading);
    ghost var start := w.written;
    for k := 0 to |arr|
      invariant w.written == start + Lines(Rows(arr[..k]))
    {
      var row := FormatRow(arr[k]);
      DocumentStep(arr, k);
      AppendAssoc(start, Lines(Rows(arr[..k])), Line(row));
      w.Write(row);
    }
    assert arr[..|arr|] == arr;
    AppendAssoc(old(w.written), Line(heading), Lines(Rows(arr)));
  }

  /** One more record adds its line at the end. */
  lemma DocumentStep(arr: seq<Record>, k: nat)
    requires k < |arr|
    ensures Lines(Rows(arr[..k + 1])) == Lines(Rows(arr[..k])) + Line(Row(arr[k]))
  {
    RowsSnoc(arr, k);
    LinesSnoc(Rows(arr[..k]), Row(arr[k]));
  }

  lemma RowsSnoc(recs: seq<Record>, k: nat)
    requires k < |recs|
    ensures Rows(recs[..k + 1]) == Rows(recs[..k]) + [Row(recs[k])]
  {
    assert recs[..k + 1] == recs[..k] + [recs[k]];
    RowsAppend(recs[..k], recs[k]);
  }

  lemma {:induction false} RowsAppend(recs: seq<Record>, rec: Record)
    ensures Rows(recs + [rec]) == Rows(recs) + [Row(rec)]
  {
    if recs == [] {
      assert [] + [rec] == [rec];
    } else {
      assert (recs + [rec])[1..] == recs[1..] + [rec];
      RowsAppend(recs[1..], rec);
    }
  }

  // ---------------------------------------------------------------- the repository's example

  /** A two-cell line: each cell encoded, `,` between them, LF after. */
  lemma LineTwo(a: string, b: string)
    ensures Line([a, b]) == EncodeCell(a) + "," + EncodeCell(b) + "\n"
  {
    assert [a, b][1..] == [b] && [b][1..] == [];
    assert EncodeCells([b]) == [EncodeCell(b)];
    var e := EncodeCells([a, b]);
    assert e == [EncodeCell(a)] + [EncodeCell(b)];
    assert e[1..] == [EncodeCell(b)];
    assert Join(e[1..], ",") == EncodeCell(b);
    assert Join(e, ",") == EncodeCell(a) + "," + EncodeCell(b);
  }

  /** A two-field struct gives a two-name header. */
  lemma HeaderTwo(f: Field, g: Field)
    ensures Header([f, g]) == [f.name, g.name]
  {
    assert [f, g][1..] == [g] && [g][1..] == [];
  }

  /** A two-field record gives the two cells. */
  lemma RowTwo(x: Value, y: Value)
    ensures Row([x, y]) == [CellText(x), CellText(y)]
  {
    assert [x, y][1..] == [y] && [y][1..] == [];
  }

  lemma RowsThree(a: Record, b: Record, c: Record)
    ensures Rows([a, b, c]) == [Row(a), Row(b), Row(c)]
  {
    assert [a, b, c][1..] == [b, c] && [b, c][1..] == [c] && [c][1..] == [];
    assert Rows([c]) == [Row(c)];
    assert Rows([b, c]) == [Row(b)] + [Row(c)];
    assert Rows([a, b, c]) == [Row(a)] + [Row(b), Row(c)];
  }

  lemma LinesThree(r1: seq<string>, r2: seq<string>, r3: seq<string>)
    ensures Lines([r1, r2, r3]) == Line(r1) + Line(r2) + Line(r3)
  {
    assert [r1, r2, r3][1..] == [r2, r3] && [r2, r3][1..] == [r3] && [r3][1..] == [];
    assert Lines([r3]) == Line(r3) + [];
    assert Lines([r2, r3]) == Line(r2) + Lines([r3]);
    assert Lines([r1, r2, r3]) == Line(r1) + Lines([r2, r3]);
  }

  /** Three records: the header line, then their three lines in order. */
  lemma DocumentThree(schema: Schema, a: Record, b: Record, c: Record)
    ensures Document(schema, [a, b, c]) == Line(Header(schema)) + (Line(Row(a)) + Line(Row(b)) + Line(Row(c)))
  {
    RowsThree(a, b, c);
    LinesThree(Row(a), Row(b), Row(c));
  }

  lemma PlainNreq()
    ensures !NeedsQuotes("Nreq")
  {
  }

  lemma PlainResult()
    ensures !NeedsQuotes("result")
  {
  }

  /** The header line of the slice-result example. */
  lemma ExampleHeaderLine()
    ensures Line(["Nreq", "result"]) == "Nreq,result\n"
  {
    LineTwo("Nreq", "result");
    PlainNreq();
    PlainResult();
  }

  /** The first record: `Nreq` 1 and a nil slice, an empty cell. */
  lemma ExampleFirstLine()
    ensures Line(Row([VInt(1), VSlice(true, [])])) == "1,\n"
  {
    RowTwo(VInt(1), VSlice(true, []));
    SliceCells(true, []);
    assert CellText(VInt(1)) == "1";
    LineTwo("1", "");
  }

  /** The second record: `Nreq` 2 and a slice of one element, no trailing separator. */
  lemma ExampleSecondLine()
    ensures Line(Row([VInt(2), VSlice(false, [VStr("0")])])) == "2,0\n"
  {
    RowTwo(VInt(2), VSlice(false, [VStr("0")]));
    SliceCells(false, [VStr("0")]);
    assert CellText(VInt(2)) == "2";
    LineTwo("2", "0");
    assert !NeedsQuotes("2") && !NeedsQuotes("0");
  }

  /** The last record: its slice cell `0,1` holds the separator, so it is quoted: `3,"0,1"`. */
  lemma ExampleThirdLine()
    ensures Line(Row([VInt(3), VSlice(false, [VStr("0"), VStr("1")])])) == "3,\"0,1\"\n"
  {
    var elems := [VStr("0"), VStr("1")];
    RowTwo(VInt(3), VSlice(false, elems));
    SliceCells(false, elems);
    SliceCells(false, elems[1..]);
    assert elems[1..] == [VStr("1")];
    assert CellText(VSlice(false, elems)) == "0,1";
    assert CellText(VInt(3)) == "3";
    ExampleSliceRow();
  }

  /** The row `3,"0,1"` on its own. */
  lemma ExampleSliceRow()
    ensures Line(["3", "0,1"]) == "3,\"0,1\"\n"
  {
    LineTwo("3", "0,1");
    assert NeedsQuotes("0,1") by {
      assert "0,1"[1] == ',';
    }
    assert !NeedsQuotes("3");
    assert Escape("0,1") == "0,1";
  }

  /**
    The whole example: a struct with an exported `Nreq` and an unexported slice `result`,
    filled with 0, 1 and 2 elements, is written as the header and three rows.
  */
  lemma ExampleSliceDocument(schema: Schema, recs: seq<Record>)
    requires schema == [Field("Nreq", Int(Platform), true, Some("1,2,3")), Field("result", Other, false, None)]
    requires recs == [[VInt(1), VSlice(true, [])],
                      [VInt(2), VSlice(false, [VStr("0")])],
                      [VInt(3), VSlice(false, [VStr("0"), VStr("1")])]]
    ensures Document(schema, recs) == "Nreq,result\n" + ("1,\n" + "2,0\n" + "3,\"0,1\"\n")
  {
    var f, g := schema[0], schema[1];
    var r1, r2, r3 := recs[0], recs[1], recs[2];
    assert schema == [f, g] && recs == [r1, r2, r3];
    HeaderTwo(f, g);
    DocumentThree([f, g], r1, r2, r3);
    ExampleHeaderLine();
    ExampleFirstLine();
    ExampleSecondLine();
    ExampleThirdLine();
  }
}
