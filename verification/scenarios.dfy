/** Worked examples: typical attribute columns (empty segments, a malformed
    segment, a value holding `=`), the three outcomes of a segment without
    `=`, one short feature line read and written, and the record of the
    reader's docstring written and read back. Each example is a general lemma
    over a few segments or rows, then the instance. */
module Scenarios {
  import opened Wrappers
  import opened Text
  import Decimal
  import opened Schema
  import GffToJson
  import JsonToGff
  import RoundTrip

  // ---------------------------------------------------------------------------
  // General shapes

  /** A well-formed segment naming a key new to the map appends its pair. */
  lemma {:induction false} StepNewPair(st: GffToJson.ParseState, seg: string, k: string, v: string)
    requires SplitFirst(seg, '=') == Some((k, v))
    requires k !in KeySet(st.attrs)
    ensures GffToJson.Step(st, seg) == Ok(GffToJson.ParseState(st.attrs + [(k, v)], Some((k, v)), st.warnings))
  {
    PutAppendsNewKey(st.attrs, k, v);
  }

  /** Two well-formed segments with different keys, from an empty map. */
  lemma {:induction false} ParseTwo(st: GffToJson.ParseState, a: string, b: string, ka: string, va: string, kb: string, vb: string)
    requires st.attrs == []
    requires SplitFirst(a, '=') == Some((ka, va)) && SplitFirst(b, '=') == Some((kb, vb))
    requires ka != kb
    ensures GffToJson.ParseSegments(st, [a, b])
         == Ok(GffToJson.ParseState([(ka, va), (kb, vb)], Some((kb, vb)), st.warnings))
  {
    var st1 := GffToJson.ParseState([(ka, va)], Some((ka, va)), st.warnings);
    var st2 := GffToJson.ParseState([(ka, va), (kb, vb)], Some((kb, vb)), st.warnings);
    StepNewPair(st, a, ka, va);
    assert [a, b][1..] == [b];
    assert GffToJson.ParseSegments(st, [a, b]) == GffToJson.ParseSegments(st1, [b]);
    assert KeySet(st1.attrs) == {ka};
    StepNewPair(st1, b, kb, vb);
    assert st1.attrs + [(kb, vb)] == st2.attrs;
    assert [b][1..] == [];
    assert GffToJson.ParseSegments(st1, [b]) == GffToJson.ParseSegments(st2, []);
  }

  /** `a;;b;` parses as `a;b`. */
  lemma {:induction false} EmptyBetween(st: GffToJson.ParseState, a: string, b: string)
    requires a != "" && b != ""
    ensures GffToJson.ParseSegments(st, [a, "", b, ""]) == GffToJson.ParseSegments(st, [a, b])
  {
    GffToJson.EmptySegmentsIgnored(st, [a, "", b, ""]);
    assert [a, "", b, ""][1..] == ["", b, ""];
    assert ["", b, ""][1..] == [b, ""];
    assert [b, ""][1..] == [""];
    assert GffToJson.NonEmpty([""]) == [];
    assert GffToJson.NonEmpty([b, ""]) == [b];
    assert GffToJson.NonEmpty(["", b, ""]) == [b];
    assert GffToJson.NonEmpty([a, "", b, ""]) == [a] + [b];
    assert [a] + [b] == [a, b];
  }

  /** `a;m;b` with `a`, `b` well-formed and `m` a non-empty segment without `=`:
      `m` is reported once and otherwise the column parses as `a;b`. */
  lemma {:induction false} MalformedBetween(st: GffToJson.ParseState, a: string, m: string, b: string)
    requires '=' in a && '=' in b && m != "" && '=' !in m
    ensures var r := GffToJson.ParseSegments(st, [a, m, b]);
      && r.Ok?
      && r.value.warnings == st.warnings + [m]
      && GffToJson.Quiet(r) == GffToJson.Quiet(GffToJson.ParseSegments(st, [a, b]))
  {
    var segs := [a, m, b];
    assert segs[1..] == [m, b];
    assert [m, b][1..] == [b];
    assert [b][1..] == [];
    assert GffToJson.FirstNonEmpty(segs) == Some(a);
    GffToJson.MalformedIgnoredAfterFirstPair(st, segs);
    assert GffToJson.WellFormedOnly([b]) == [b];
    assert GffToJson.WellFormedOnly([m, b]) == [b];
    assert GffToJson.WellFormedOnly(segs) == [a] + [b];
    assert [a] + [b] == [a, b];
    assert GffToJson.Malformed([b]) == [];
    assert GffToJson.Malformed([m, b]) == [m];
    assert GffToJson.Malformed(segs) == [m];
  }

  /** `a;m;b` where `a` and `b` hold different keys and `m` has no `=`. */
  lemma {:induction false} MalformedBetweenPairs(a: string, m: string, b: string, ka: string, va: string, kb: string, vb: string)
    requires SplitFirst(a, '=') == Some((ka, va)) && SplitFirst(b, '=') == Some((kb, vb))
    requires ka != kb && m != "" && '=' !in m
    ensures var r := GffToJson.ParseSegments(GffToJson.ParseState([], None, []), [a, m, b]);
      && r.Ok?
      && r.value.attrs == [(ka, va), (kb, vb)]
      && r.value.warnings == [m]
  {
    var st := GffToJson.ParseState([], None, []);
    MalformedBetween(st, a, m, b);
    ParseTwo(st, a, b, ka, va, kb, vb);
  }

  /** A first line whose column is the single pair `k=v` and a second whose
      column is one segment without `=`: the second record gets `k=v`. */
  lemma {:induction false} LeakTwo(h: seq<string>, fields: seq<string>, a: string, b: string, k: string, v: string)
    requires |fields| == 8
    requires Split(a, ';') == [a] && SplitFirst(a, '=') == Some((k, v))
    requires Split(b, ';') == [b] && b != "" && '=' !in b
    ensures var r := GffToJson.Convert([h, fields + [a], fields + [b]]);
      r.Ok? && r.value.records[1].attributes == [(k, v)]
  {
    var row1, row2 := fields + [a], fields + [b];
    assert row1[8] == a && row2[8] == b;
    var st0 := GffToJson.ParseState([], None, []);
    var st1 := GffToJson.ParseState([(k, v)], Some((k, v)), []);
    StepNewPair(st0, a, k, v);
    assert [a][1..] == [];
    assert GffToJson.ParseSegments(st1, []) == Ok(st1);
    assert GffToJson.ParseAttributes(a, None, []) == Ok(st1);
    assert GffToJson.FirstNonEmpty([b]) == Some(b);
    GffToJson.PreviousPairLeaks(b, (k, v), []);
    var st2 := GffToJson.ParseAttributes(b, Some((k, v)), []).value;
    ConvertTwo(h, row1, row2, st1, st2);
  }

  /** A table of one data line: the conversion is that line's record. */
  lemma {:induction false} ConvertOne(h: seq<string>, row: seq<string>, st: GffToJson.ParseState)
    requires |row| == 9
    requires GffToJson.ParseAttributes(row[8], None, []) == Ok(st)
    ensures GffToJson.Convert([h, row])
      == Ok(GffToJson.Conversion(
              [Record(row[0], row[1], row[2],
                      GffToJson.ReadCoord(row[3], Decimal.IsDecimal(row[3])),
                      GffToJson.ReadCoord(row[4], Decimal.IsDecimal(row[4])),
                      row[5], row[6], row[7], st.attrs)],
              st.warnings))
  {
    var rows := [row];
    assert GffToJson.DataRows([h, row]) == rows;
    assert GffToJson.NineColumns(rows) && rows[0] == row;
    var ns := GffToJson.NumericColumn(rows, 3);
    var ne := GffToJson.NumericColumn(rows, 4);
    assert ns == Decimal.IsDecimal(row[3]) && ne == Decimal.IsDecimal(row[4]);
    assert rows[1..] == [];
    assert GffToJson.ConvertRows(rows[1..], ns, ne, st.last, st.warnings) == Ok(GffToJson.Conversion([], st.warnings));
    var rec := Record(row[0], row[1], row[2], GffToJson.ReadCoord(row[3], ns), GffToJson.ReadCoord(row[4], ne),
                      row[5], row[6], row[7], st.attrs);
    assert [rec] + [] == [rec];
    assert GffToJson.Convert([h, row]) == GffToJson.ConvertRows(rows, ns, ne, None, []);
  }

  /** A table of two data lines: the second record's map is parsed starting
      from the pair the first record's column left behind. */
  lemma {:induction false} ConvertTwo(h: seq<string>, row1: seq<string>, row2: seq<string>, st1: GffToJson.ParseState, st2: GffToJson.ParseState)
    requires |row1| == 9 && |row2| == 9
    requires GffToJson.ParseAttributes(row1[8], None, []) == Ok(st1)
    requires GffToJson.ParseAttributes(row2[8], st1.last, st1.warnings) == Ok(st2)
    ensures var r := GffToJson.Convert([h, row1, row2]);
      && r.Ok?
      && r.value.records[0].attributes == st1.attrs
      && r.value.records[1].attributes == st2.attrs
  {
    var rows := [row1, row2];
    assert GffToJson.DataRows([h, row1, row2]) == rows;
    var ns := GffToJson.NumericColumn(rows, 3);
    var ne := GffToJson.NumericColumn(rows, 4);
    assert GffToJson.NineColumns(rows);
    assert rows[1..] == [row2];
    assert [row2][1..] == [];
    var tail := GffToJson.ConvertRows([row2], ns, ne, st1.last, st1.warnings);
    assert GffToJson.ConvertRows([row2][1..], ns, ne, st2.last, st2.warnings) == Ok(GffToJson.Conversion([], st2.warnings));
    assert tail.Ok? && tail.value.records[0].attributes == st2.attrs;
    assert GffToJson.ConvertRows(rows, ns, ne, None, []).value.records == [GffToJson.ConvertRows(rows, ns, ne, None, []).value.records[0]] + tail.value.records;
  }

  // ---------------------------------------------------------------------------
  // Instances

  /** The splits at `=` of the segments used below. */
  lemma {:induction false} Pairs()
    ensures SplitFirst("ID=g1", '=') == Some(("ID", "g1"))
    ensures SplitFirst("Name=n1", '=') == Some(("Name", "n1"))
  {
    assert "ID=g1" == "ID" + ['='] + "g1";
    SplitFirstOfJoined("ID", "g1", '=');
    assert "Name=n1" == "Name" + ['='] + "n1";
    SplitFirstOfJoined("Name", "n1", '=');
  }

  /** A segment splits at its first `=` only: the value keeps the later ones. */
  lemma {:induction false} FirstEqualsSplits()
    ensures var r := GffToJson.Step(GffToJson.ParseState([], None, []), "a=b=c");
      r.Ok? && r.value.attrs == [("a", "b=c")]
  {
    assert "a=b=c" == "a" + ['='] + "b=c";
    SplitFirstOfJoined("a", "b=c", '=');
  }

  /** `ID=g1` then `Name=n1`, from an empty map. */
  lemma {:induction false} ParseIdName(st: GffToJson.ParseState)
    requires st.attrs == []
    ensures GffToJson.ParseSegments(st, ["ID=g1", "Name=n1"])
         == Ok(GffToJson.ParseState([("ID", "g1"), ("Name", "n1")], Some(("Name", "n1")), st.warnings))
  {
    Pairs();
    ParseTwo(st, "ID=g1", "Name=n1", "ID", "g1", "Name", "n1");
  }

  lemma {:induction false} SplitEmptySegments()
    ensures Split("ID=g1;;Name=n1;", ';') == ["ID=g1", "", "Name=n1", ""]
  {
    var segs := ["ID=g1", "", "Name=n1", ""];
    assert Join(segs, ';') == "ID=g1;;Name=n1;";
    SplitOfJoin(segs, ';');
  }

  /** `ID=g1;;Name=n1;` gives exactly `ID` and `Name`: the empty segments add nothing. */
  lemma {:induction false} EmptySegmentsExample()
    ensures GffToJson.ParseAttributes("ID=g1;;Name=n1;", None, [])
         == Ok(GffToJson.ParseState([("ID", "g1"), ("Name", "n1")], Some(("Name", "n1")), []))
  {
    SplitEmptySegments();
    var st := GffToJson.ParseState([], None, []);
    EmptyBetween(st, "ID=g1", "Name=n1");
    ParseIdName(st);
  }

  lemma {:induction false} NoEquals()
    ensures '=' !in "BADSEGMENT" && '=' !in "BAD"
  {
  }

  lemma {:induction false} SingleSegments()
    ensures Split("ID=g1", ';') == ["ID=g1"] && Split("BAD", ';') == ["BAD"]
  {
    SplitWithoutSeparator("ID=g1", ';');
    SplitWithoutSeparator("BAD", ';');
  }

  lemma {:induction false} LeakFacts()
    ensures Split("ID=g1", ';') == ["ID=g1"] && Split("BAD", ';') == ["BAD"]
    ensures SplitFirst("ID=g1", '=') == Some(("ID", "g1")) && '=' !in "BAD"
  {
    SingleSegments();
    Pairs();
    NoEquals();
  }

  lemma {:induction false} SplitMalformed()
    ensures Split("ID=g1;BADSEGMENT;Name=n1", ';') == ["ID=g1", "BADSEGMENT", "Name=n1"]
  {
    var segs := ["ID=g1", "BADSEGMENT", "Name=n1"];
    assert Join(segs, ';') == "ID=g1;BADSEGMENT;Name=n1";
    SplitOfJoin(segs, ';');
  }

  /** `ID=g1;BADSEGMENT;Name=n1` gives `ID` and `Name`, reports `BADSEGMENT`
      once, and does not abort. */
  lemma {:induction false} MalformedSegmentExample()
    ensures var r := GffToJson.ParseAttributes("ID=g1;BADSEGMENT;Name=n1", None, []);
      && r.Ok?
      && r.value.attrs == [("ID", "g1"), ("Name", "n1")]
      && r.value.warnings == ["BADSEGMENT"]
  {
    SplitMalformed();
    Pairs();
    NoEquals();
    MalformedBetweenPairs("ID=g1", "BADSEGMENT", "Name=n1", "ID", "g1", "Name", "n1");
  }

  /** A data line whose attribute column is `attrs`. */
  function Row(attrs: string): seq<string> {
    ["chr1", "src", "gene", "1", "9", ".", "+", ".", attrs]
  }

  /** Two data lines with the same first eight fields: a first whose column is
      `ID=g1` and a second whose only segment is `BAD`. The second record
      receives `ID=g1`, whatever the first line holds. */
  lemma {:induction false} LeakExample(h: seq<string>, fields: seq<string>)
    requires |fields| == 8
    ensures var r := GffToJson.Convert([h, fields + ["ID=g1"], fields + ["BAD"]]);
      r.Ok? && r.value.records[1].attributes == [("ID", "g1")]
  {
    LeakFacts();
    LeakTwo(h, fields, "ID=g1", "BAD", "ID", "g1");
  }

  /** A first record whose only segment is `BAD` aborts the conversion: no pair
      has been unpacked yet. */
  lemma {:induction false} UnboundExample()
    ensures GffToJson.Convert([["#"], Row("BAD")]) == Err(UnboundAttribute("BAD"))
  {
    var lines := [["#"], Row("BAD")];
    assert GffToJson.DataRows(lines) == [Row("BAD")];
    SplitWithoutSeparator("BAD", ';');
    assert GffToJson.FirstNonEmpty(["BAD"]) == Some("BAD");
    GffToJson.FirstRecordWithoutPairAborts(lines);
  }

  /** An abort first met on a later line: the first data line's column `;` holds
      only empty segments, so no pair is bound when the second line's segment
      without `=` is reached. */
  lemma {:induction false} LaterLineAborts(h: seq<string>, fields: seq<string>, bad: string)
    requires |fields| == 8
    requires bad != "" && ';' !in bad && '=' !in bad
    ensures GffToJson.Convert([h, fields + [";"], fields + [bad]]) == Err(UnboundAttribute(bad))
  {
    var lines := [h, fields + [";"], fields + [bad]];
    var rows := [fields + [";"], fields + [bad]];
    assert GffToJson.DataRows(lines) == rows;
    assert Join(["", ""], ';') == ";";
    SplitOfJoin(["", ""], ';');
    SplitWithoutSeparator(bad, ';');
    assert rows[1..][1..] == [];
    assert GffToJson.AllSegments(rows[1..]) == [bad] + GffToJson.AllSegments(rows[1..][1..]);
    var segs := ["", "", bad];
    assert segs[1..] == ["", bad] && segs[1..][1..] == [bad];
    assert GffToJson.FirstNonEmpty([bad]) == Some(bad);
    assert GffToJson.FirstNonEmpty(segs) == GffToJson.FirstNonEmpty(segs[1..][1..]);
    assert GffToJson.AllSegments(rows) == ["", ""] + [bad] + [] == segs;
    assert GffToJson.UnboundSegment(segs) == Some(bad);
    GffToJson.ConvertOutcome(lines);
  }

  /** The instance: a line with attributes `;`, then one with attributes `BAD`. */
  lemma {:induction false} LaterLineExample(h: seq<string>)
    ensures GffToJson.Convert([h, Row(";"), Row("BAD")]) == Err(UnboundAttribute("BAD"))
  {
    var fields := Row("")[..8];
    assert Row(";") == fields + [";"] && Row("BAD") == fields + ["BAD"];
    LaterLineAborts(h, fields, "BAD");
  }

  /** A data line of eight fields is refused. */
  lemma {:induction false} EightColumnsRefused()
    ensures GffToJson.Convert([["#"], Row("ID=g1")[..8]]) == Err(BadColumnCount)
  {
    assert GffToJson.DataRows([["#"], Row("ID=g1")[..8]]) == [Row("ID=g1")[..8]];
  }

  // ---------------------------------------------------------------------------
  // One short, illustrative feature line

  /** A document of one entry: the header, a newline, and that entry's line. */
  lemma {:induction false} WriteOne(e: Entry)
    requires e.attributes.Some?
    ensures JsonToGff.Convert([e]) == Ok(JsonToGff.Header + "\n" + Join(JsonToGff.Columns(e), '\t'))
  {
    var line := Join(JsonToGff.Columns(e), '\t');
    assert [e][1..] == [];
    assert JsonToGff.Lines([e][1..]) == Ok([]);
    assert [line] + [] == [line];
    assert JsonToGff.Lines([e]) == Ok([line]);
  }

  /** An illustrative feature line: a gene with two attributes. */
  function GeneRow(): seq<string> {
    ["chr1", "src", "gene", "1", "9", ".", "+", ".", "ID=g1;Name=n1"]
  }

  /** The record of that line. */
  function GeneRecord(): Record {
    Record("chr1", "src", "gene", Number(1), Number(9), ".", "+", ".", [("ID", "g1"), ("Name", "n1")])
  }

  lemma {:induction false} SplitIdName()
    ensures Split("ID=g1;Name=n1", ';') == ["ID=g1", "Name=n1"]
  {
    var segs := ["ID=g1", "Name=n1"];
    assert Join(segs, ';') == "ID=g1;Name=n1";
    SplitOfJoin(segs, ';');
  }

  lemma {:induction false} GeneCoordinates()
    ensures Decimal.IsDecimal("1") && Decimal.ValueOf("1") == 1 && Decimal.Str(1) == "1"
    ensures Decimal.IsDecimal("9") && Decimal.ValueOf("9") == 9 && Decimal.Str(9) == "9"
  {
    Decimal.ValueOfStr(1);
    Decimal.ValueOfStr(9);
    assert Decimal.Str(1) == "1";
    assert Decimal.Str(9) == "9";
  }

  /** The attribute column written for the map. */
  lemma {:induction false} GeneRender()
    ensures JsonToGff.RenderAttributes(GeneRecord().attributes) == "ID=g1;Name=n1"
  {
    RenderTwo(("ID", "g1"), ("Name", "n1"));
    assert "ID" + "=" + "g1" + ";" + ("Name" + "=" + "n1") == "ID=g1;Name=n1";
  }

  /** A two-entry map is written as its two tokens joined by `;`. */
  lemma {:induction false} RenderTwo(a: (string, string), b: (string, string))
    ensures JsonToGff.RenderAttributes([a, b]) == a.0 + "=" + a.1 + ";" + (b.0 + "=" + b.1)
  {
    var ts := JsonToGff.Tokens([a, b]);
    assert ts == [a.0 + "=" + a.1, b.0 + "=" + b.1];
    assert ts[1..] == [ts[1]];
    assert Join(ts, ';') == ts[0] + [';'] + ts[1];
  }

  /** The line reads as the record, whatever the first line holds. */
  lemma {:induction false} GeneRead(h: seq<string>)
    ensures GffToJson.Convert([h, GeneRow()]) == Ok(GffToJson.Conversion([GeneRecord()], []))
  {
    var row := GeneRow();
    SplitIdName();
    GeneCoordinates();
    assert row[8] == "ID=g1;Name=n1";
    ParseIdName(GffToJson.ParseState([], None, []));
    var st := GffToJson.ParseAttributes(row[8], None, []).value;
    ConvertOne(h, row, st);
  }

  /** Writing the record gives the line back after the header. */
  lemma {:induction false} GeneWrite()
    ensures JsonToGff.Convert([ToEntry(GeneRecord())]) == Ok(JsonToGff.Header + "\n" + Join(GeneRow(), '\t'))
  {
    var e := ToEntry(GeneRecord());
    GeneCoordinates();
    GeneRender();
    assert JsonToGff.Columns(e) == GeneRow();
    WriteOne(e);
  }

  // ---------------------------------------------------------------------------
  // The record of the reader's docstring

  /** The example record in the docstring of `funannotate_gff_to_json`. */
  function DocstringRecord(): Record {
    Record("scaffold001", "Funannotate", "gene", Number(1000), Number(2000), ".", "+", ".",
           [("ID", "gene0001"), ("Name", "gene1"), ("Note", "example gene")])
  }

  /** Its text fields, keys and values hold no separator. */
  lemma {:induction false} DocstringRecordClean()
    ensures RoundTrip.CleanRecord(DocstringRecord())
  {
    var r := DocstringRecord();
    DocstringKeys(r.attributes);
    assert RoundTrip.PlainField(r.seqid) && RoundTrip.PlainField(r.source);
    assert RoundTrip.PlainField(r.featureType) && RoundTrip.PlainField(r.score);
    assert RoundTrip.PlainField(r.strand) && RoundTrip.PlainField(r.phase);
  }

  /** The docstring's attribute map: distinct keys, and no separator in a key
      or value. */
  lemma {:induction false} DocstringKeys(m: Attributes)
    requires m == [("ID", "gene0001"), ("Name", "gene1"), ("Note", "example gene")]
    ensures UniqueKeys(m) && JsonToGff.Separable(m)
    ensures forall i :: 0 <= i < |m| ==> RoundTrip.PlainField(m[i].0) && RoundTrip.PlainField(m[i].1)
  {
    assert m[0].0 != m[1].0 && m[0].0 != m[2].0 && m[1].0 != m[2].0;
    Plain("ID");
    Plain("gene0001");
    Plain("Name");
    Plain("gene1");
    Plain("Note");
    Plain("example gene");
  }

  /** Letters, digits and spaces only: no separator of either format. */
  predicate Alphanumeric(s: string) {
    forall i :: 0 <= i < |s| ==> s[i] == ' ' || 'a' <= s[i] <= 'z' || 'A' <= s[i] <= 'Z' || '0' <= s[i] <= '9'
  }

  lemma {:induction false} Plain(s: string)
    requires Alphanumeric(s)
    ensures '=' !in s && ';' !in s && RoundTrip.PlainField(s)
  {
  }

  /** Writing the docstring record and reading the file back gives the record. */
  lemma {:induction false} DocstringRoundTrip()
    ensures var out := JsonToGff.Convert(RoundTrip.Document([DocstringRecord()]));
      && out.Ok?
      && GffToJson.Convert(RoundTrip.ReadTable(out.value)) == Ok(GffToJson.Conversion([DocstringRecord()], []))
  {
    DocstringRecordClean();
    RoundTrip.JsonRoundTrip([DocstringRecord()]);
  }
}
