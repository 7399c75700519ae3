/** The CSV export of the browser builder (`exportCsv` in app.js): the schema joined by ";"
    as header, then one line per preview row with every field escaped, lines joined by "\n".
    A reader for that format is defined alongside, and the export is shown to be read back
    as the header and the rows' values. */
module BrowserExport {
  import opened Base
  import opened Text

  // ---------- writer ----------

  /** Every `"` doubled: `replace(/"/g, '""')`. */
  function DoubleQuotes(v: string): (d: string)
    ensures |d| >= |v|
    decreases |v|
  {
    if |v| == 0 then ""
    else (if v[0] == '"' then "\"\"" else [v[0]]) + DoubleQuotes(v[1..])
  }

  /** One exported field: the doubled text, enclosed in quotes when it contains ";", a quote
      or a line feed. */
  function EscapeField(v: string): string
  {
    var d := DoubleQuotes(v);
    if Has(d, ';') || Has(d, '"') || Has(d, '\n') then "\"" + d + "\"" else d
  }

  /** The escaped fields, in order. */
  function EscapedFields(fs: seq<string>): (es: seq<string>)
    ensures |es| == |fs|
    ensures forall i :: 0 <= i < |fs| ==> es[i] == EscapeField(fs[i])
  {
    seq(|fs|, i requires 0 <= i < |fs| => EscapeField(fs[i]))
  }

  /** One exported line: the escaped fields joined by ";". */
  function ExportLine(fs: seq<string>): string
  {
    Join(EscapedFields(fs), ";")
  }

  /** The values a preview row gives for the schema: `row[key] ?? ""`, key by key. */
  function RowValues(schema: seq<string>, row: Record): (vs: seq<string>)
    ensures |vs| == |schema|
    ensures forall j :: 0 <= j < |schema| ==> vs[j] == GetOr(row, schema[j])
  {
    seq(|schema|, j requires 0 <= j < |schema| => GetOr(row, schema[j]))
  }

  /** The exported lines of a list of field lists. */
  function LineTexts(lines: seq<seq<string>>): (ts: seq<string>)
    ensures |ts| == |lines|
    ensures forall i :: 0 <= i < |lines| ==> ts[i] == ExportLine(lines[i])
  {
    seq(|lines|, i requires 0 <= i < |lines| => ExportLine(lines[i]))
  }

  /** The values of every preview row under the schema. */
  function RowsValues(schema: seq<string>, rows: seq<Record>): (vs: seq<seq<string>>)
    ensures |vs| == |rows|
    ensures forall i :: 0 <= i < |rows| ==> vs[i] == RowValues(schema, rows[i])
  {
    seq(|rows|, i requires 0 <= i < |rows| => RowValues(schema, rows[i]))
  }

  /** The exported lines: the header as the plain join of the schema, then one line per row. */
  function ExportLines(schema: seq<string>, rows: seq<Record>): (ls: seq<string>)
    ensures |ls| == |rows| + 1
    ensures ls[0] == Join(schema, ";")
    ensures forall i :: 0 <= i < |rows| ==> ls[i + 1] == ExportLine(RowValues(schema, rows[i]))
  {
    var vs := RowsValues(schema, rows);
    var ts := LineTexts(vs);
    var ls := [Join(schema, ";")] + ts;
    assert forall i :: 0 <= i < |rows| ==> ls[i + 1] == ts[i];
    ls
  }

  /** `exportCsv`: nothing for an empty preview, otherwise the lines joined by "\n". */
  function ExportCsv(schema: seq<string>, rows: seq<Record>): (doc: Option<string>)
    ensures doc.None? <==> |rows| == 0
  {
    if |rows| == 0 then None else Some(Join(ExportLines(schema, rows), "\n"))
  }

  // ---------- reader ----------

  /** The rest of a quoted field after its opening quote: `""` stands for one quote, a lone
      quote closes the field. None when the closing quote is missing. */
  function ParseQuoted(s: string): (r: Option<(string, string)>)
    ensures r.Some? ==> |r.value.1| < |s|
    decreases |s|
  {
    if |s| == 0 then None
    else if s[0] == '"' then
      if |s| > 1 && s[1] == '"' then
        match ParseQuoted(s[2..])
        case None => None
        case Some(p) => Some(("\"" + p.0, p.1))
      else Some(("", s[1..]))
    else
      match ParseQuoted(s[1..])
      case None => None
      case Some(p) => Some(([s[0]] + p.0, p.1))
  }

  /** The characters that end a bare field. */
  predicate IsBareEnd(c: char)
  {
    c == ';' || c == '\n'
  }

  /** A field that does not start with a quote: everything up to the next ";" or line feed. */
  function ParseBare(s: string): (r: (string, string))
    ensures r.0 + r.1 == s
    ensures forall i :: 0 <= i < |r.0| ==> !IsBareEnd(r.0[i])
    ensures |r.1| == 0 || IsBareEnd(r.1[0])
  {
    var n := UntilLen(s, IsBareEnd);
    assert s[..n] + s[n..] == s;
    (s[..n], s[n..])
  }

  /** One field, quoted or bare, and the text after it. */
  function ParseField(s: string): (r: Option<(string, string)>)
    ensures r.Some? ==> |r.value.1| <= |s|
  {
    if |s| > 0 && s[0] == '"' then ParseQuoted(s[1..]) else Some(ParseBare(s))
  }

  /** The fields of one line, up to a line feed outside quotes or the end of the text. */
  function ParseFields(s: string): (r: Option<(seq<string>, string)>)
    ensures r.Some? ==> |r.value.1| <= |s|
    ensures r.Some? ==> |r.value.1| == 0 || r.value.1[0] == '\n'
    decreases |s|
  {
    match ParseField(s)
    case None => None
    case Some(p) =>
      if |p.1| > 0 && p.1[0] == ';' then
        match ParseFields(p.1[1..])
        case None => None
        case Some(q) => Some(([p.0] + q.0, q.1))
      else if |p.1| == 0 || p.1[0] == '\n' then Some(([p.0], p.1))
      else None
  }

  /** All lines of a document. */
  function ParseDocument(s: string): (r: Option<seq<seq<string>>>)
    decreases |s|
  {
    match ParseFields(s)
    case None => None
    case Some(p) =>
      if |p.1| == 0 then Some([p.0])
      else
        match ParseDocument(p.1[1..])
        case None => None
        case Some(ls) => Some([p.0] + ls)
  }

  // ---------- round trip ----------

  /** Text that does not start with a quote: what may follow a closing quote. */
  predicate FieldEnd(rest: string)
  {
    |rest| == 0 || rest[0] == ';' || rest[0] == '\n'
  }

  lemma {:induction false} ParseQuotedDoubled(v: string, rest: string)
    requires |rest| == 0 || rest[0] != '"'
    ensures ParseQuoted(DoubleQuotes(v) + "\"" + rest) == Some((v, rest))
    decreases |v|
  {
    if |v| > 0 {
      var s := DoubleQuotes(v) + "\"" + rest;
      var tail := DoubleQuotes(v[1..]) + "\"" + rest;
      ParseQuotedDoubled(v[1..], rest);
      if v[0] == '"' {
        assert s == "\"\"" + tail;
        assert s[2..] == tail;
        assert "\"" + v[1..] == v;
      } else {
        assert s == [v[0]] + tail;
        assert s[1..] == tail;
        assert [v[0]] + v[1..] == v;
      }
    } else {
      assert DoubleQuotes(v) + "\"" + rest == "\"" + rest;
    }
  }

  /** Doubling changes nothing in a text without quotes, and leaves a quote in one with. */
  lemma {:induction false} DoubleQuotesWithoutQuote(v: string)
    ensures !Has(DoubleQuotes(v), '"') ==> DoubleQuotes(v) == v
    decreases |v|
  {
    if |v| > 0 {
      DoubleQuotesWithoutQuote(v[1..]);
      var d := DoubleQuotes(v);
      var head := if v[0] == '"' then "\"\"" else [v[0]];
      assert d == head + DoubleQuotes(v[1..]);
      if !Has(d, '"') {
        assert d[0] == head[0];
        assert forall i :: 0 <= i < |DoubleQuotes(v[1..])| ==> DoubleQuotes(v[1..])[i] == d[|head| + i];
        assert [v[0]] + v[1..] == v;
      }
    }
  }

  /** Every character of the text is still in its doubled form. */
  lemma {:induction false} DoubleQuotesKeeps(v: string, i: nat)
    requires i < |v|
    ensures Has(DoubleQuotes(v), v[i])
    decreases |v|
  {
    var head := if v[0] == '"' then "\"\"" else [v[0]];
    var d := DoubleQuotes(v);
    assert d == head + DoubleQuotes(v[1..]);
    if i == 0 {
      assert d[0] == v[0];
    } else {
      DoubleQuotesKeeps(v[1..], i - 1);
      var j :| 0 <= j < |DoubleQuotes(v[1..])| && DoubleQuotes(v[1..])[j] == v[1..][i - 1];
      assert d[|head| + j] == v[i];
    }
  }

  /** A field is quoted exactly when it holds ";", a quote or a line feed: quoted, it is the
      doubled text between quotes; otherwise it is written as it is. */
  lemma EscapeFieldCases(v: string)
    ensures !PlainName(v) ==> EscapeField(v) == "\"" + DoubleQuotes(v) + "\""
    ensures PlainName(v) ==> EscapeField(v) == v
  {
    var d := DoubleQuotes(v);
    if !PlainName(v) {
      var i :| 0 <= i < |v| && (v[i] == ';' || v[i] == '"' || v[i] == '\n');
      DoubleQuotesKeeps(v, i);
    } else {
      DoubleQuotesNoQuote(v);
    }
  }

  /** A bare field is read up to the first field end. */
  lemma ParseBareClean(v: string, rest: string)
    requires forall i :: 0 <= i < |v| ==> !IsBareEnd(v[i])
    requires FieldEnd(rest)
    ensures ParseBare(v + rest) == (v, rest)
  {
    var s := v + rest;
    var n := UntilLen(s, IsBareEnd);
    assert forall i :: 0 <= i < |v| ==> !IsBareEnd(s[i]);
    assert |v| < |s| ==> IsBareEnd(s[|v|]);
    assert n == |v|;
    assert s[..n] == v && s[n..] == rest;
  }

  lemma ParseFieldEscaped(v: string, rest: string)
    requires FieldEnd(rest)
    ensures ParseField(EscapeField(v) + rest) == Some((v, rest))
  {
    var d := DoubleQuotes(v);
    if Has(d, ';') || Has(d, '"') || Has(d, '\n') {
      ParseQuotedDoubled(v, rest);
      var s := "\"" + d + "\"" + rest;
      assert s[1..] == d + "\"" + rest;
    } else {
      DoubleQuotesWithoutQuote(v);
      assert forall i :: 0 <= i < |v| ==> !IsBareEnd(v[i]);
      ParseBareClean(v, rest);
      var s := v + rest;
      if |s| > 0 {
        assert s[0] != '"' by {
          if |v| > 0 { assert s[0] == v[0]; assert !Has(d, '"'); assert d[0] == v[0]; }
        }
      }
    }
  }

  /** An exported line of two or more fields is the first escaped field, ";" and the line of
      the others. */
  lemma ExportLineCons(fs: seq<string>, rest: string)
    requires |fs| > 1
    ensures ExportLine(fs) + rest == EscapeField(fs[0]) + (";" + (ExportLine(fs[1..]) + rest))
  {
    assert EscapedFields(fs)[1..] == EscapedFields(fs[1..]);
    var a, x := EscapeField(fs[0]), ExportLine(fs[1..]);
    assert a + ";" + x + rest == a + (";" + (x + rest));
  }

  lemma ParseFieldsLast(f: string, rest: string)
    requires |rest| == 0 || rest[0] == '\n'
    ensures ParseFields(EscapeField(f) + rest) == Some(([f], rest))
  {
    ParseFieldEscaped(f, rest);
  }

  lemma ParseFieldsCons(f: string, tail: string, fs: seq<string>, rest: string)
    requires ParseFields(tail) == Some((fs, rest))
    ensures ParseFields(EscapeField(f) + (";" + tail)) == Some(([f] + fs, rest))
  {
    ParseFieldEscaped(f, ";" + tail);
    assert (";" + tail)[1..] == tail;
  }

  lemma ParseSingleFieldLine(fs: seq<string>, rest: string)
    requires |fs| == 1
    requires |rest| == 0 || rest[0] == '\n'
    ensures ParseFields(ExportLine(fs) + rest) == Some((fs, rest))
  {
    assert ExportLine(fs) == EscapeField(fs[0]);
    ParseFieldsLast(fs[0], rest);
    assert fs == [fs[0]];
  }

  lemma ParseFieldsStep(fs: seq<string>, rest: string)
    requires |fs| > 1
    requires ParseFields(ExportLine(fs[1..]) + rest) == Some((fs[1..], rest))
    ensures ParseFields(ExportLine(fs) + rest) == Some((fs, rest))
  {
    ExportLineCons(fs, rest);
    ParseFieldsCons(fs[0], ExportLine(fs[1..]) + rest, fs[1..], rest);
    assert [fs[0]] + fs[1..] == fs;
  }

  /** An exported line is read back as its fields, up to the line feed that ends it. */
  lemma {:induction false} ParseFieldsExported(fs: seq<string>, rest: string)
    requires |fs| > 0
    requires |rest| == 0 || rest[0] == '\n'
    ensures ParseFields(ExportLine(fs) + rest) == Some((fs, rest))
    decreases |fs|
  {
    if |fs| == 1 {
      ParseSingleFieldLine(fs, rest);
    } else {
      ParseFieldsExported(fs[1..], rest);
      ParseFieldsStep(fs, rest);
    }
  }

  lemma DocumentCons(lines: seq<seq<string>>)
    requires |lines| > 1
    ensures Join(LineTexts(lines), "\n") == ExportLine(lines[0]) + ("\n" + Join(LineTexts(lines[1..]), "\n"))
  {
    assert LineTexts(lines)[1..] == LineTexts(lines[1..]);
    var a, x := ExportLine(lines[0]), Join(LineTexts(lines[1..]), "\n");
    assert a + "\n" + x == a + ("\n" + x);
  }

  lemma ParseDocumentCons(line: seq<string>, tail: string, ls: seq<seq<string>>)
    requires |line| > 0
    requires ParseDocument(tail) == Some(ls)
    ensures ParseDocument(ExportLine(line) + ("\n" + tail)) == Some([line] + ls)
  {
    ParseFieldsExported(line, "\n" + tail);
    assert ("\n" + tail)[1..] == tail;
  }

  lemma ParseSingleLineDocument(lines: seq<seq<string>>)
    requires |lines| == 1 && |lines[0]| > 0
    ensures ParseDocument(Join(LineTexts(lines), "\n")) == Some(lines)
  {
    assert Join(LineTexts(lines), "\n") == ExportLine(lines[0]) + "";
    ParseFieldsExported(lines[0], "");
    assert lines == [lines[0]];
  }

  lemma ParseDocumentStep(lines: seq<seq<string>>)
    requires |lines| > 1 && |lines[0]| > 0
    requires ParseDocument(Join(LineTexts(lines[1..]), "\n")) == Some(lines[1..])
    ensures ParseDocument(Join(LineTexts(lines), "\n")) == Some(lines)
  {
    DocumentCons(lines);
    ParseDocumentCons(lines[0], Join(LineTexts(lines[1..]), "\n"), lines[1..]);
    assert [lines[0]] + lines[1..] == lines;
  }

  /** A document of exported lines, none of them without fields, is read back line by line. */
  lemma {:induction false} ParseDocumentLines(lines: seq<seq<string>>)
    requires |lines| > 0
    requires forall i :: 0 <= i < |lines| ==> |lines[i]| > 0
    ensures ParseDocument(Join(LineTexts(lines), "\n")) == Some(lines)
    decreases |lines|
  {
    if |lines| == 1 {
      ParseSingleLineDocument(lines);
    } else {
      ParseDocumentLines(lines[1..]);
      ParseDocumentStep(lines);
    }
  }

  /** A schema name a header may carry without escaping. */
  predicate PlainName(k: string)
  {
    forall i :: 0 <= i < |k| ==> k[i] != ';' && k[i] != '"' && k[i] != '\n'
  }

  /** For plain names the unescaped header is the escaped line of the schema. */
  lemma PlainHeader(schema: seq<string>)
    requires forall j :: 0 <= j < |schema| ==> PlainName(schema[j])
    ensures Join(schema, ";") == ExportLine(schema)
  {
    var es := EscapedFields(schema);
    forall j | 0 <= j < |schema| ensures es[j] == schema[j] {
      var d := DoubleQuotes(schema[j]);
      DoubleQuotesNoQuote(schema[j]);
    }
    assert es == schema;
  }

  lemma {:induction false} DoubleQuotesNoQuote(v: string)
    requires forall i :: 0 <= i < |v| ==> v[i] != '"'
    ensures DoubleQuotes(v) == v
    decreases |v|
  {
    if |v| > 0 {
      DoubleQuotesNoQuote(v[1..]);
      assert [v[0]] + v[1..] == v;
    }
  }

  lemma LineTextsCons(line: seq<string>, lines: seq<seq<string>>)
    ensures LineTexts([line] + lines) == [ExportLine(line)] + LineTexts(lines)
  {
  }

  /** Reading an export back gives the schema as first line and, for each preview row, its
      values under the schema, whatever the values contain. */
  lemma ExportReadsBack(schema: seq<string>, rows: seq<Record>)
    requires |rows| > 0 && |schema| > 0
    requires forall j :: 0 <= j < |schema| ==> PlainName(schema[j])
    ensures ParseDocument(ExportCsv(schema, rows).value)
      == Some([schema] + RowsValues(schema, rows))
  {
    var lines := [schema] + RowsValues(schema, rows);
    PlainHeader(schema);
    LineTextsCons(schema, RowsValues(schema, rows));
    ParseDocumentLines(lines);
  }
}
