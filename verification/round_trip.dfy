/** How the two converters compose. Going GFF -> JSON -> GFF reproduces every
    data line byte for byte when each line is clean: no empty field, a
    well-formed attribute column, canonical digit coordinates. Going
    JSON -> GFF -> JSON reproduces every record whose fields are non-empty and
    cannot be mistaken for a separator. pandas' other readings of a cell (NA
    tokens, quotes, numbers in a text column) are outside the model. */
module RoundTrip {
  import opened Wrappers
  import opened Text
  import Decimal
  import opened Schema
  import GffToJson
  import JsonToGff

  // ---------------------------------------------------------------------------
  // The attribute column

  /** The pair a segment holding `=` stands for: the split at its first `=`. */
  function PairOf(seg: string): (kv: (string, string))
    requires '=' in seg
    ensures '=' !in kv.0 && seg == kv.0 + "=" + kv.1
  {
    SplitFirst(seg, '=').value
  }

  function PairsOf(segs: seq<string>): (m: Attributes)
    requires forall i :: 0 <= i < |segs| ==> '=' in segs[i]
    ensures |m| == |segs| && forall i :: 0 <= i < |segs| ==> m[i] == PairOf(segs[i])
  {
    if |segs| == 0 then [] else [PairOf(segs[0])] + PairsOf(segs[1..])
  }

  /** An attribute column the writer could have produced: empty, or segments
      that each hold `=` and name distinct keys. */
  predicate WellFormedColumn(column: string) {
    var segs := Split(column, ';');
    column == "" || ((forall i :: 0 <= i < |segs| ==> '=' in segs[i]) && UniqueKeys(PairsOf(segs)))
  }

  /** Segments that all hold `=` and name keys new to the map are appended in
      order, the last one becoming the carried pair, with nothing reported. */
  lemma {:induction false} ParseWellFormed(st: GffToJson.ParseState, segs: seq<string>)
    requires forall i :: 0 <= i < |segs| ==> '=' in segs[i]
    requires UniqueKeys(st.attrs + PairsOf(segs))
    ensures GffToJson.ParseSegments(st, segs)
         == Ok(GffToJson.ParseState(st.attrs + PairsOf(segs),
                                    if |segs| == 0 then st.last else Some(PairOf(segs[|segs| - 1])),
                                    st.warnings))
    decreases |segs|
  {
    if |segs| > 0 {
      var rest := segs[1..];
      var kv := PairOf(segs[0]);
      var next := GffToJson.ParseState(st.attrs + [kv], Some(kv), st.warnings);
      WellFormedStep(st, segs);
      assert GffToJson.ParseSegments(st, segs) == GffToJson.ParseSegments(next, rest);
      ParseWellFormed(next, rest);
      assert |rest| > 0 ==> rest[|rest| - 1] == segs[|segs| - 1];
      assert next.attrs + PairsOf(rest) == st.attrs + PairsOf(segs);
    } else {
      assert st.attrs + PairsOf(segs) == st.attrs;
    }
  }

  /** The first of the segments appends its pair. */
  lemma {:induction false} WellFormedStep(st: GffToJson.ParseState, segs: seq<string>)
    requires |segs| > 0
    requires forall i :: 0 <= i < |segs| ==> '=' in segs[i]
    requires UniqueKeys(st.attrs + PairsOf(segs))
    ensures var kv := PairOf(segs[0]);
      && GffToJson.Step(st, segs[0]) == Ok(GffToJson.ParseState(st.attrs + [kv], Some(kv), st.warnings))
      && (st.attrs + [kv]) + PairsOf(segs[1..]) == st.attrs + PairsOf(segs)
  {
    var kv := PairOf(segs[0]);
    var ps := PairsOf(segs);
    var a := st.attrs;
    assert ps == [kv] + PairsOf(segs[1..]);
    NextKeyIsNew(a, ps);
    PutAppendsNewKey(a, kv.0, kv.1);
    AppendAssociates(a, [kv], PairsOf(segs[1..]));
  }

  /** In a map with unique keys, the key after a prefix is not in the prefix. */
  lemma {:induction false} NextKeyIsNew(a: Attributes, ps: Attributes)
    requires |ps| > 0 && UniqueKeys(a + ps)
    ensures ps[0].0 !in KeySet(a)
  {
    forall p | p in a ensures p.0 != ps[0].0 {
      var j :| 0 <= j < |a| && a[j] == p;
      assert (a + ps)[j] == p && (a + ps)[|a|] == ps[0];
    }
  }

  /** Writing the pairs of well-formed segments gives the segments back. */
  lemma {:induction false} TokensOfPairs(segs: seq<string>)
    requires forall i :: 0 <= i < |segs| ==> '=' in segs[i]
    ensures JsonToGff.Tokens(PairsOf(segs)) == segs
  {
  }

  /** Reading the tokens of a map whose keys hold no `=` gives the map back. */
  lemma {:induction false} PairsOfTokens(m: Attributes)
    requires forall i :: 0 <= i < |m| ==> '=' !in m[i].0
    ensures var ts := JsonToGff.Tokens(m);
      (forall i :: 0 <= i < |ts| ==> '=' in ts[i]) && PairsOf(ts) == m
  {
    var ts := JsonToGff.Tokens(m);
    forall i | 0 <= i < |m| ensures '=' in ts[i] && PairOf(ts[i]) == m[i] {
      assert ts[i] == JsonToGff.Token(m[i]);
    }
  }

  /** Serialising a parsed well-formed column gives the column back, and the
      parse reports nothing. */
  lemma {:induction false} RenderOfParse(column: string, last: Option<(string, string)>, warnings: seq<string>)
    requires WellFormedColumn(column)
    ensures var r := GffToJson.ParseAttributes(column, last, warnings);
      && r.Ok?
      && r.value.warnings == warnings
      && JsonToGff.RenderAttributes(r.value.attrs) == column
  {
    var segs := Split(column, ';');
    var st := GffToJson.ParseState([], last, warnings);
    if column == "" {
      assert segs == [""];
      assert GffToJson.ParseSegments(st, segs) == GffToJson.ParseSegments(st, []);
    } else {
      assert [] + PairsOf(segs) == PairsOf(segs);
      ParseWellFormed(st, segs);
      TokensOfPairs(segs);
      JoinOfSplit(column, ';');
    }
  }

  /** Parsing a serialised map gives back the same map, in the same order,
      with nothing reported. */
  lemma {:induction false} ParseOfRender(m: Attributes, last: Option<(string, string)>, warnings: seq<string>)
    requires UniqueKeys(m) && JsonToGff.Separable(m)
    ensures GffToJson.ParseAttributes(JsonToGff.RenderAttributes(m), last, warnings)
         == Ok(GffToJson.ParseState(m, if |m| == 0 then last else Some(m[|m| - 1]), warnings))
  {
    var st := GffToJson.ParseState([], last, warnings);
    if |m| == 0 {
      assert Split("", ';') == [""];
      assert GffToJson.ParseSegments(st, [""]) == GffToJson.ParseSegments(st, []);
    } else {
      JsonToGff.RenderSplitsIntoTokens(m);
      ParseTokens(m, st);
    }
  }

  /** The tokens of a non-empty map parse, from an empty map, as that map. */
  lemma {:induction false} ParseTokens(m: Attributes, st: GffToJson.ParseState)
    requires |m| > 0 && st.attrs == []
    requires UniqueKeys(m) && JsonToGff.Separable(m)
    ensures GffToJson.ParseSegments(st, JsonToGff.Tokens(m)) == Ok(GffToJson.ParseState(m, Some(m[|m| - 1]), st.warnings))
  {
    PairsOfTokens(m);
    ParseSegmentsOfPairs(st, JsonToGff.Tokens(m), m);
  }

  /** Well-formed segments whose pairs are `m`, keys unique, parse from an empty map as `m`. */
  lemma {:induction false} ParseSegmentsOfPairs(st: GffToJson.ParseState, segs: seq<string>, m: Attributes)
    requires |m| > 0 && st.attrs == [] && UniqueKeys(m)
    requires forall i :: 0 <= i < |segs| ==> '=' in segs[i]
    requires PairsOf(segs) == m
    ensures GffToJson.ParseSegments(st, segs) == Ok(GffToJson.ParseState(m, Some(m[|m| - 1]), st.warnings))
  {
    assert st.attrs + PairsOf(segs) == m;
    ParseWellFormed(st, segs);
  }

  // ---------------------------------------------------------------------------
  // GFF -> JSON -> GFF

  /** A data line the writer reproduces: nine fields, none of them empty
      (pandas reads an empty cell as NaN: `split` fails on it in the attribute
      column, and the writer's `join` fails on it elsewhere) or holding a
      carriage return (pandas' reader ends a line there), a well-formed
      attribute column, and coordinates that are either not digit strings or
      are below 2^64 with no superfluous leading zero. */
  predicate CleanRow(row: seq<string>) {
    && |row| == 9
    && (forall j :: 0 <= j < 9 ==> row[j] != "" && '\r' !in row[j])
    && WellFormedColumn(row[8])
    && (Decimal.IsDecimal(row[3]) ==> Decimal.IsCanonical(row[3]) && Decimal.ValueOf(row[3]) < Decimal.Limit64)
    && (Decimal.IsDecimal(row[4]) ==> Decimal.IsCanonical(row[4]) && Decimal.ValueOf(row[4]) < Decimal.Limit64)
  }

  /** The text of each data line: its fields joined by tabs. */
  function LinesOf(rows: seq<seq<string>>): (ls: seq<string>)
    ensures |ls| == |rows| && forall i :: 0 <= i < |rows| ==> ls[i] == Join(rows[i], '\t')
  {
    if |rows| == 0 then [] else [Join(rows[0], '\t')] + LinesOf(rows[1..])
  }

  /** The document the reader writes for its records. */
  function Document(recs: seq<Record>): (doc: seq<Entry>)
    ensures |doc| == |recs| && forall i :: 0 <= i < |recs| ==> doc[i] == ToEntry(recs[i])
  {
    if |recs| == 0 then [] else [ToEntry(recs[0])] + Document(recs[1..])
  }

  /** A coordinate cell is written back as it was read. */
  lemma {:induction false} CoordRestored(cell: string, numeric: bool)
    requires Decimal.IsDecimal(cell) ==> Decimal.IsCanonical(cell)
    requires numeric ==> Decimal.IsDecimal(cell)
    ensures JsonToGff.CoordText(Some(GffToJson.ReadCoord(cell, numeric))) == cell
  {
    if numeric {
      Decimal.StrOfValue(cell);
    }
  }

  /** Column by column, the entry written for a row's record is the row. */
  lemma {:induction false} RowRestored(row: seq<string>, numStart: bool, numEnd: bool, attrs: Attributes)
    requires |row| == 9
    requires Decimal.IsDecimal(row[3]) ==> Decimal.IsCanonical(row[3])
    requires Decimal.IsDecimal(row[4]) ==> Decimal.IsCanonical(row[4])
    requires numStart ==> Decimal.IsDecimal(row[3])
    requires numEnd ==> Decimal.IsDecimal(row[4])
    requires JsonToGff.RenderAttributes(attrs) == row[8]
    ensures JsonToGff.Columns(ToEntry(GffToJson.RecordOf(row, numStart, numEnd, attrs))) == row
  {
    CoordRestored(row[3], numStart);
    CoordRestored(row[4], numEnd);
    var cols := JsonToGff.Columns(ToEntry(GffToJson.RecordOf(row, numStart, numEnd, attrs)));
    assert cols[3] == row[3] && cols[4] == row[4] && cols[8] == row[8];
  }

  /** Every row after the first is still clean. */
  lemma {:induction false} CleanTail(rows: seq<seq<string>>)
    requires |rows| > 0 && forall i :: 0 <= i < |rows| ==> CleanRow(rows[i])
    ensures forall i :: 0 <= i < |rows[1..]| ==> CleanRow(rows[1..][i])
  {
    assert forall i :: 0 <= i < |rows[1..]| ==> rows[1..][i] == rows[i + 1];
  }

  /** The writer's lines for a document with one more entry in front. */
  lemma {:induction false} LinesCons(rec: Record, recs: seq<Record>, line: string, lines: seq<string>)
    requires JsonToGff.EntryLine(ToEntry(rec)) == Ok(line)
    requires JsonToGff.Lines(Document(recs)) == Ok(lines)
    ensures JsonToGff.Lines(Document([rec] + recs)) == Ok([line] + lines)
  {
    var doc := Document([rec] + recs);
    assert ([rec] + recs)[1..] == recs;
    assert doc[1..] == Document(recs);
  }

  lemma {:induction false} RowsRestored(rows: seq<seq<string>>, numStart: bool, numEnd: bool,
                                        last: Option<(string, string)>, warnings: seq<string>)
    requires GffToJson.NineColumns(rows)
    requires forall i :: 0 <= i < |rows| ==> CleanRow(rows[i])
    requires numStart ==> GffToJson.NumericColumn(rows, 3)
    requires numEnd ==> GffToJson.NumericColumn(rows, 4)
    ensures var r := GffToJson.ConvertRows(rows, numStart, numEnd, last, warnings);
      && r.Ok?
      && r.value.warnings == warnings
      && JsonToGff.Lines(Document(r.value.records)) == Ok(LinesOf(rows))
    decreases |rows|
  {
    if |rows| > 0 {
      var row := rows[0];
      var rest := rows[1..];
      RenderOfParse(row[8], last, warnings);
      var st := GffToJson.ParseAttributes(row[8], last, warnings).value;
      var rec := GffToJson.RecordOf(row, numStart, numEnd, st.attrs);
      RowRestored(row, numStart, numEnd, st.attrs);
      assert JsonToGff.EntryLine(ToEntry(rec)) == Ok(Join(row, '\t'));
      GffToJson.RestShaped(rows, numStart, numEnd);
      CleanTail(rows);
      RowsRestored(rest, numStart, numEnd, st.last, st.warnings);
      var tail := GffToJson.ConvertRows(rest, numStart, numEnd, st.last, st.warnings).value;
      GffToJson.ConvertRowsCons(rows, numStart, numEnd, last, warnings, st, tail);
      LinesCons(rec, tail.records, Join(row, '\t'), LinesOf(rest));
      assert LinesOf(rows) == [Join(row, '\t')] + LinesOf(rest);
    }
  }

  /** GFF -> JSON -> GFF: the file written back is the fixed header followed by
      the original data lines, unchanged and in order, and the reader reported
      nothing. */
  lemma {:induction false} GffRoundTrip(lines: seq<seq<string>>)
    requires |lines| >= 2
    requires forall i :: 1 <= i < |lines| ==> CleanRow(lines[i])
    ensures var c := GffToJson.Convert(lines);
      && c.Ok?
      && c.value.warnings == []
      && JsonToGff.Convert(Document(c.value.records))
         == Ok(JsonToGff.Header + "\n" + Join(LinesOf(lines[1..]), '\n'))
  {
    var rows := GffToJson.DataRows(lines);
    assert rows == lines[1..];
    assert forall i :: 0 <= i < |rows| ==> rows[i] == lines[i + 1];
    RowsRestored(rows, GffToJson.NumericColumn(rows, 3), GffToJson.NumericColumn(rows, 4), None, []);
  }

  // ---------------------------------------------------------------------------
  // JSON -> GFF -> JSON

  /** How the model reads a file into the table the reader takes: lines split
      on newlines, fields on tabs. */
  function ReadTable(text: string): seq<seq<string>> {
    var lines := Split(text, '\n');
    seq(|lines|, i requires 0 <= i < |lines| => Split(lines[i], '\t'))
  }

  /** Neither a tab nor a newline. */
  predicate SingleLine(s: string) {
    '\t' !in s && '\n' !in s
  }

  /** A field pandas reads back as written: single-line, and without a carriage
      return, at which pandas' reader also ends a line. */
  predicate PlainField(s: string) {
    SingleLine(s) && '\r' !in s
  }

  /** Reading loses nothing and invents no separator: joining each row by tabs
      and the rows by newlines gives the text back, and no cell holds a tab or
      a newline. */
  lemma {:induction false} ReadTableRejoins(text: string)
    ensures var table := ReadTable(text);
      && Join(LinesOf(table), '\n') == text
      && forall i, j :: 0 <= i < |table| && 0 <= j < |table[i]| ==> SingleLine(table[i][j])
  {
    var lines := Split(text, '\n');
    var table := ReadTable(text);
    forall i | 0 <= i < |lines|
      ensures LinesOf(table)[i] == lines[i]
      ensures forall j :: 0 <= j < |table[i]| ==> SingleLine(table[i][j])
    {
      JoinOfSplit(lines[i], '\t');
      SplitKeepsOut(lines[i], '\t', '\n');
    }
    assert LinesOf(table) == lines;
    JoinOfSplit(text, '\n');
  }

  /** A record the writer and reader carry through unchanged: numeric
      coordinates below 2^64, non-empty text fields and a non-empty separable
      attribute map with unique keys (an empty field or map is written as an
      empty cell, which pandas reads as NaN), and no tab, newline or carriage
      return in any text field, key or value. */
  predicate CleanRecord(r: Record) {
    && ReadableRecord(r)
    && |r.attributes| > 0
    && r.seqid != "" && r.source != "" && r.featureType != ""
    && r.score != "" && r.strand != "" && r.phase != ""
    && r.start.Number? && r.start.n < Decimal.Limit64 && r.end.Number? && r.end.n < Decimal.Limit64
    && PlainField(r.seqid) && PlainField(r.source) && PlainField(r.featureType)
    && PlainField(r.score) && PlainField(r.strand) && PlainField(r.phase)
    && forall i :: 0 <= i < |r.attributes| ==> PlainField(r.attributes[i].0) && PlainField(r.attributes[i].1)
  }

  /** Digits hold no tab or newline. */
  lemma {:induction false} DecimalSingleLine(s: string)
    requires Decimal.IsDecimal(s)
    ensures SingleLine(s)
  {
  }

  /** The attribute column of a map whose keys and values are single-line is
      single-line. */
  lemma {:induction false} RenderSingleLine(m: Attributes)
    requires forall i :: 0 <= i < |m| ==> SingleLine(m[i].0) && SingleLine(m[i].1)
    ensures SingleLine(JsonToGff.RenderAttributes(m))
  {
    var ts := JsonToGff.Tokens(m);
    forall i | 0 <= i < |ts| ensures SingleLine(ts[i]) {
      assert ts[i] == m[i].0 + "=" + m[i].1;
    }
    JoinKeepsOut(ts, ';', '\t');
    JoinKeepsOut(ts, ';', '\n');
  }

  /** Every column written for a clean record is single-line. */
  lemma {:induction false} RecordWritable(r: Record)
    requires CleanRecord(r)
    ensures JsonToGff.SingleLineColumns(ToEntry(r))
  {
    Decimal.ValueOfStr(r.start.n);
    Decimal.ValueOfStr(r.end.n);
    DecimalSingleLine(Decimal.Str(r.start.n));
    DecimalSingleLine(Decimal.Str(r.end.n));
    RenderSingleLine(r.attributes);
    var cols := JsonToGff.Columns(ToEntry(r));
    assert forall j :: 0 <= j < 9 ==> SingleLine(cols[j]);
  }

  /** A record whose written columns the reader turns back into it: numeric
      coordinates and a separable attribute map with unique keys. */
  predicate ReadableRecord(r: Record) {
    && r.start.Number? && r.end.Number?
    && UniqueKeys(r.attributes) && JsonToGff.Separable(r.attributes)
  }

  /** The columns written for each record. */
  function ColumnsOf(recs: seq<Record>): seq<seq<string>> {
    seq(|recs|, i requires 0 <= i < |recs| => JsonToGff.Columns(ToEntry(recs[i])))
  }

  /** `row` reads as `rec`, whatever pair an earlier record left behind, with
      nothing reported. */
  ghost predicate RowReadsAs(row: seq<string>, rec: Record) {
    && |row| == 9 && Decimal.IsDecimal(row[3]) && Decimal.IsDecimal(row[4])
    && forall last: Option<(string, string)> ::
         var p := GffToJson.ParseAttributes(row[8], last, []);
         p.Ok? && p.value.warnings == [] && GffToJson.RecordOf(row, true, true, p.value.attrs) == rec
  }

  /** The columns written for one readable record read back as that record. */
  lemma {:induction false} RecordRead(r: Record)
    requires ReadableRecord(r)
    ensures RowReadsAs(JsonToGff.Columns(ToEntry(r)), r)
  {
    Decimal.ValueOfStr(r.start.n);
    Decimal.ValueOfStr(r.end.n);
    forall last: Option<(string, string)>
      ensures var p := GffToJson.ParseAttributes(JsonToGff.Columns(ToEntry(r))[8], last, []);
        p.Ok? && p.value.warnings == [] && GffToJson.RecordOf(JsonToGff.Columns(ToEntry(r)), true, true, p.value.attrs) == r
    {
      ParseOfRender(r.attributes, last, []);
    }
  }

  /** Rows that each read as their record convert to exactly those records. */
  lemma {:induction false} RowsReadAs(rows: seq<seq<string>>, recs: seq<Record>, last: Option<(string, string)>)
    requires |rows| == |recs|
    requires forall i :: 0 <= i < |rows| ==> RowReadsAs(rows[i], recs[i])
    ensures GffToJson.NineColumns(rows) && GffToJson.NumericColumn(rows, 3) && GffToJson.NumericColumn(rows, 4)
    ensures GffToJson.ConvertRows(rows, true, true, last, []) == Ok(GffToJson.Conversion(recs, []))
    decreases |rows|
  {
    if |rows| > 0 {
      var st := GffToJson.ParseAttributes(rows[0][8], last, []).value;
      assert RowReadsAs(rows[0], recs[0]);
      forall i | 0 <= i < |rows| - 1 ensures RowReadsAs(rows[1..][i], recs[1..][i]) {
        assert rows[1..][i] == rows[i + 1] && recs[1..][i] == recs[i + 1];
      }
      RowsReadAs(rows[1..], recs[1..], st.last);
      GffToJson.ConvertRowsCons(rows, true, true, last, [], st, GffToJson.Conversion(recs[1..], []));
      assert [recs[0]] + recs[1..] == recs;
    }
  }

  lemma {:induction false} RecordsRestored(recs: seq<Record>, last: Option<(string, string)>)
    requires forall i :: 0 <= i < |recs| ==> ReadableRecord(recs[i])
    ensures var rows := ColumnsOf(recs);
      && GffToJson.NineColumns(rows)
      && GffToJson.NumericColumn(rows, 3)
      && GffToJson.NumericColumn(rows, 4)
      && GffToJson.ConvertRows(rows, true, true, last, []) == Ok(GffToJson.Conversion(recs, []))
  {
    var rows := ColumnsOf(recs);
    forall i | 0 <= i < |recs| ensures RowReadsAs(rows[i], recs[i]) {
      RecordRead(recs[i]);
    }
    RowsReadAs(rows, recs, last);
  }

  /** JSON -> GFF -> JSON: reading back the file written for a non-empty list of
      clean records gives exactly those records, with nothing reported. */
  lemma {:induction false} JsonRoundTrip(recs: seq<Record>)
    requires |recs| > 0
    requires forall i :: 0 <= i < |recs| ==> CleanRecord(recs[i])
    ensures var out := JsonToGff.Convert(Document(recs));
      && out.Ok?
      && GffToJson.Convert(ReadTable(out.value)) == Ok(GffToJson.Conversion(recs, []))
  {
    DocumentWritable(recs);
    WrittenTable(recs, Document(recs));
    var table := ReadTable(JsonToGff.Convert(Document(recs)).value);
    assert forall i :: 0 <= i < |recs| ==> ReadableRecord(recs[i]);
    ReadWritten(table, recs);
  }

  /** The data rows of the table read from a written file are the columns of
      each record. */
  lemma {:induction false} WrittenTable(recs: seq<Record>, doc: seq<Entry>)
    requires |recs| > 0 && doc == Document(recs)
    requires forall i :: 0 <= i < |doc| ==> doc[i].attributes.Some? && JsonToGff.SingleLineColumns(doc[i])
    ensures JsonToGff.Convert(doc).Ok?
    ensures GffToJson.DataRows(ReadTable(JsonToGff.Convert(doc).value)) == ColumnsOf(recs)
  {
    FileReadsAsColumns(doc);
    TableOfDocument(ReadTable(JsonToGff.Convert(doc).value), recs);
  }

  /** A table made of any first line and the columns of each entry of a
      record list's document. */
  lemma {:induction false} TableOfDocument(table: seq<seq<string>>, recs: seq<Record>)
    requires var doc := Document(recs);
      |table| == |doc| + 1 && forall i :: 0 <= i < |doc| ==> table[i + 1] == JsonToGff.Columns(doc[i])
    ensures GffToJson.DataRows(table) == ColumnsOf(recs)
  {
    TailOf(table, ColumnsOf(recs));
  }

  /** A table whose data rows are the columns of readable records reads as
      those records. */
  lemma {:induction false} ReadWritten(table: seq<seq<string>>, recs: seq<Record>)
    requires |recs| > 0
    requires forall i :: 0 <= i < |recs| ==> ReadableRecord(recs[i])
    requires GffToJson.DataRows(table) == ColumnsOf(recs)
    ensures GffToJson.Convert(table) == Ok(GffToJson.Conversion(recs, []))
  {
    RecordsRestored(recs, None);
  }

  /** The entries written for clean records all have attributes and
      single-line columns. */
  lemma {:induction false} DocumentWritable(recs: seq<Record>)
    requires forall i :: 0 <= i < |recs| ==> CleanRecord(recs[i])
    ensures var doc := Document(recs);
      forall i :: 0 <= i < |doc| ==> doc[i].attributes.Some? && JsonToGff.SingleLineColumns(doc[i])
  {
    forall i | 0 <= i < |recs| ensures JsonToGff.SingleLineColumns(ToEntry(recs[i])) {
      RecordWritable(recs[i]);
    }
  }

  /** The table read from a written file is the header line followed by the
      columns of each entry. */
  lemma {:induction false} FileReadsAsColumns(doc: seq<Entry>)
    requires |doc| > 0
    requires forall i :: 0 <= i < |doc| ==> doc[i].attributes.Some? && JsonToGff.SingleLineColumns(doc[i])
    ensures JsonToGff.Convert(doc).Ok?
    ensures var table := ReadTable(JsonToGff.Convert(doc).value);
      |table| == |doc| + 1 && forall i :: 0 <= i < |doc| ==> table[i + 1] == JsonToGff.Columns(doc[i])
  {
    JsonToGff.FileSplitsIntoLines(doc);
  }

  lemma {:induction false} TailOf(table: seq<seq<string>>, rows: seq<seq<string>>)
    requires |table| == |rows| + 1
    requires forall i :: 0 <= i < |rows| ==> table[i + 1] == rows[i]
    ensures GffToJson.DataRows(table) == rows
  {
    assert table[1..] == rows;
  }
}
