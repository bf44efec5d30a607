/** The GFF-to-JSON direction (`funannotate_gff_to_json`): skip the first line,
    demand a nine-column table, copy columns 1-8 into a record and parse the
    ninth column into an insertion-ordered attribute map.

    The attribute loop is modelled as written. Python's `k, v` are locals of the
    whole function, so a segment without `=` reuses whatever pair was unpacked
    last: from the same record (no change), from an earlier record (that pair
    leaks in), or from nowhere (the function dies with an unbound local). The
    pair is threaded through the parse as `last`. */
module GffToJson {
  import opened Wrappers
  import opened Text
  import Decimal
  import opened Schema

  /** What the attribute loop carries from one segment to the next: the map being
      built, the last pair unpacked anywhere in the file so far, and the
      segments reported as malformed so far (the diagnostic `print`). */
  datatype ParseState = ParseState(attrs: Attributes, last: Option<(string, string)>, warnings: seq<string>)

  /** The pair the last unpacking left behind is stored in the current map. */
  predicate Coherent(st: ParseState) {
    st.last.Some? && Lookup(st.attrs, st.last.value.0) == Some(st.last.value.1)
  }

  /** One pass of the inner loop on one `;`-separated segment. */
  function Step(st: ParseState, seg: string): (r: Result<ParseState, Error>)
    ensures seg == "" ==> r == Ok(st)
    ensures r.Err? <==> seg != "" && '=' !in seg && st.last.None?
    ensures r.Err? ==> r.error == UnboundAttribute(seg)
    ensures r.Ok? ==> (UniqueKeys(st.attrs) ==> UniqueKeys(r.value.attrs))
    ensures r.Ok? && seg != "" ==> Coherent(r.value)
    ensures Coherent(st) && '=' !in seg ==> r.Ok? && r.value.attrs == st.attrs
    ensures '=' in seg ==>
      var kv := SplitFirst(seg, '=').value;
      && r.Ok?
      && r.value.last == Some(kv)
      && r.value.warnings == st.warnings
      && Lookup(r.value.attrs, kv.0) == Some(kv.1)
      && forall k :: k != kv.0 ==> Lookup(r.value.attrs, k) == Lookup(st.attrs, k)
    ensures seg != "" && '=' !in seg && st.last.Some? ==>
      var kv := st.last.value;
      && r.Ok?
      && r.value.last == st.last
      && r.value.warnings == st.warnings + [seg]
      && Lookup(r.value.attrs, kv.0) == Some(kv.1)
      && forall k :: k != kv.0 ==> Lookup(r.value.attrs, k) == Lookup(st.attrs, k)
  {
    if seg == "" then Ok(st)
    else
      match SplitFirst(seg, '=')
      case Some(kv) =>
        PutKeepsKeysUnique(st.attrs, kv.0, kv.1);
        Ok(ParseState(Put(st.attrs, kv.0, kv.1), Some(kv), st.warnings))
      case None =>
        match st.last
        case None => Err(UnboundAttribute(seg))
        case Some(kv) =>
          PutKeepsKeysUnique(st.attrs, kv.0, kv.1);
          PutSameValue(st.attrs, kv.0, kv.1);
          Ok(ParseState(Put(st.attrs, kv.0, kv.1), st.last, st.warnings + [seg]))
  }

  /** The inner loop over the segments of one attribute column. */
  function ParseSegments(st: ParseState, segs: seq<string>): (r: Result<ParseState, Error>)
    ensures r.Ok? ==> (UniqueKeys(st.attrs) ==> UniqueKeys(r.value.attrs))
    ensures r.Ok? ==> st.warnings <= r.value.warnings
    ensures r.Err? ==> r.error.UnboundAttribute?
    decreases |segs|
  {
    if |segs| == 0 then Ok(st)
    else
      match Step(st, segs[0])
      case Err(e) => Err(e)
      case Ok(next) => ParseSegments(next, segs[1..])
  }

  /** The attribute column of one record: split on `;`, start from an empty map. */
  function ParseAttributes(column: string, last: Option<(string, string)>, warnings: seq<string>): (r: Result<ParseState, Error>)
    ensures r.Ok? ==> UniqueKeys(r.value.attrs)
    ensures r.Ok? ==> warnings <= r.value.warnings
  {
    ParseSegments(ParseState([], last, warnings), Split(column, ';'))
  }

  predicate NineColumns(rows: seq<seq<string>>) {
    forall i :: 0 <= i < |rows| ==> |rows[i]| == 9
  }

  /** The table after the skipped first line has exactly nine columns; a table
      with no rows has none. */
  predicate WellShaped(rows: seq<seq<string>>) {
    |rows| > 0 && NineColumns(rows)
  }

  /** Every cell of column `j` is a digit string, so pandas reads the column as integers. */
  predicate NumericColumn(rows: seq<seq<string>>, j: nat)
    requires NineColumns(rows) && j < 9
  {
    forall i :: 0 <= i < |rows| ==> Decimal.IsDecimal(rows[i][j])
  }

  /** A `start` or `end` cell as pandas reads it: an integer in a numeric
      column, the text itself otherwise. */
  function ReadCoord(cell: string, numeric: bool): (c: Coord)
    requires numeric ==> Decimal.IsDecimal(cell)
    ensures numeric ==> c.Number? && c.n == Decimal.ValueOf(cell)
    ensures numeric ==> c.Number? && (Decimal.IsCanonical(cell) ==> Decimal.Str(c.n) == cell)
    ensures !numeric ==> c == Verbatim(cell)
  {
    if numeric then
      if Decimal.IsCanonical(cell) then
        Decimal.StrOfValue(cell);
        Number(Decimal.ValueOf(cell))
      else Number(Decimal.ValueOf(cell))
    else Verbatim(cell)
  }

  /** A digit cell of a numeric column reads as the number whose `str` is the
      cell without its leading zeros: `007` reads as 7, `000` as 0. */
  lemma {:induction false} ReadCoordStripsZeros(cell: string)
    requires Decimal.IsDecimal(cell)
    ensures var c := ReadCoord(cell, true);
      exists k :: 0 <= k < |cell| && (forall i :: 0 <= i < k ==> cell[i] == '0') && cell[k..] == Decimal.Str(c.n)
  {
    Decimal.StripZeros(cell);
  }

  /** `rec` holds columns 1-8 of `row` in order, and an attribute map with unique keys. */
  predicate FromColumns(rec: Record, row: seq<string>, numStart: bool, numEnd: bool)
    requires |row| == 9
    requires numStart ==> Decimal.IsDecimal(row[3])
    requires numEnd ==> Decimal.IsDecimal(row[4])
  {
    && rec.seqid == row[0]
    && rec.source == row[1]
    && rec.featureType == row[2]
    && rec.start == ReadCoord(row[3], numStart)
    && rec.end == ReadCoord(row[4], numEnd)
    && rec.score == row[5]
    && rec.strand == row[6]
    && rec.phase == row[7]
    && UniqueKeys(rec.attributes)
  }

  /** The record built from the first eight columns of a row and its parsed map. */
  function RecordOf(row: seq<string>, numStart: bool, numEnd: bool, attrs: Attributes): (rec: Record)
    requires |row| == 9
    requires numStart ==> Decimal.IsDecimal(row[3])
    requires numEnd ==> Decimal.IsDecimal(row[4])
    ensures UniqueKeys(attrs) ==> FromColumns(rec, row, numStart, numEnd)
    ensures rec.attributes == attrs
  {
    Record(row[0], row[1], row[2], ReadCoord(row[3], numStart), ReadCoord(row[4], numEnd),
           row[5], row[6], row[7], attrs)
  }

  /** The rows after the first keep the shape and the numeric columns. */
  lemma {:induction false} RestShaped(rows: seq<seq<string>>, numStart: bool, numEnd: bool)
    requires NineColumns(rows) && |rows| > 0
    requires numStart ==> NumericColumn(rows, 3)
    requires numEnd ==> NumericColumn(rows, 4)
    ensures NineColumns(rows[1..])
    ensures numStart ==> NumericColumn(rows[1..], 3)
    ensures numEnd ==> NumericColumn(rows[1..], 4)
  {
    assert forall i :: 0 <= i < |rows| - 1 ==> rows[1..][i] == rows[i + 1];
  }

  /** Prepending a record for a row keeps every record built from its row. */
  lemma {:induction false} FromColumnsCons(rec: Record, recs: seq<Record>, rows: seq<seq<string>>, numStart: bool, numEnd: bool)
    requires NineColumns(rows) && |rows| > 0 && |recs| == |rows| - 1
    requires numStart ==> NumericColumn(rows, 3)
    requires numEnd ==> NumericColumn(rows, 4)
    requires FromColumns(rec, rows[0], numStart, numEnd)
    requires NineColumns(rows[1..])
    requires numStart ==> NumericColumn(rows[1..], 3)
    requires numEnd ==> NumericColumn(rows[1..], 4)
    requires forall i :: 0 <= i < |recs| ==> FromColumns(recs[i], rows[1..][i], numStart, numEnd)
    ensures forall i :: 0 <= i < |rows| ==> FromColumns(([rec] + recs)[i], rows[i], numStart, numEnd)
  {
    forall i | 0 <= i < |rows| ensures FromColumns(([rec] + recs)[i], rows[i], numStart, numEnd) {
      if i > 0 {
        assert ([rec] + recs)[i] == recs[i - 1] && rows[i] == rows[1..][i - 1];
      }
    }
  }

  datatype Conversion = Conversion(records: seq<Record>, warnings: seq<string>)

  /** The outer loop over the data rows, carrying the last unpacked pair across records. */
  function ConvertRows(rows: seq<seq<string>>, numStart: bool, numEnd: bool,
                       last: Option<(string, string)>, warnings: seq<string>): (r: Result<Conversion, Error>)
    requires NineColumns(rows)
    requires numStart ==> NumericColumn(rows, 3)
    requires numEnd ==> NumericColumn(rows, 4)
    ensures r.Err? ==> r.error.UnboundAttribute?
    ensures r.Ok? ==> |r.value.records| == |rows|
    ensures r.Ok? ==> warnings <= r.value.warnings
    decreases |rows|
  {
    if |rows| == 0 then Ok(Conversion([], warnings))
    else
      var row := rows[0];
      match ParseAttributes(row[8], last, warnings)
      case Err(e) => Err(e)
      case Ok(st) =>
        var rec := RecordOf(row, numStart, numEnd, st.attrs);
        RestShaped(rows, numStart, numEnd);
        var tail := ConvertRows(rows[1..], numStart, numEnd, st.last, st.warnings);
        if tail.Err? then Err(tail.error)
        else
          Ok(Conversion([rec] + tail.value.records, tail.value.warnings))
  }

  /** One unfolding of the outer loop when the first row's column parses. */
  lemma {:induction false} ConvertRowsCons(rows: seq<seq<string>>, numStart: bool, numEnd: bool,
                        last: Option<(string, string)>, warnings: seq<string>,
                        st: ParseState, tail: Conversion)
    requires NineColumns(rows) && |rows| > 0
    requires numStart ==> NumericColumn(rows, 3)
    requires numEnd ==> NumericColumn(rows, 4)
    requires ParseAttributes(rows[0][8], last, warnings) == Ok(st)
    requires NineColumns(rows[1..])
    requires numStart ==> NumericColumn(rows[1..], 3)
    requires numEnd ==> NumericColumn(rows[1..], 4)
    requires ConvertRows(rows[1..], numStart, numEnd, st.last, st.warnings) == Ok(tail)
    ensures ConvertRows(rows, numStart, numEnd, last, warnings)
         == Ok(Conversion([RecordOf(rows[0], numStart, numEnd, st.attrs)] + tail.records, tail.warnings))
  {
  }

  /** Each record the outer loop builds holds the first eight columns of its
      row, in order, and an attribute map with unique keys. */
  lemma {:induction false} RowsFromColumns(rows: seq<seq<string>>, numStart: bool, numEnd: bool,
                                           last: Option<(string, string)>, warnings: seq<string>)
    requires NineColumns(rows)
    requires numStart ==> NumericColumn(rows, 3)
    requires numEnd ==> NumericColumn(rows, 4)
    ensures var r := ConvertRows(rows, numStart, numEnd, last, warnings);
      r.Ok? ==> forall i :: 0 <= i < |rows| ==> FromColumns(r.value.records[i], rows[i], numStart, numEnd)
    decreases |rows|
  {
    var r := ConvertRows(rows, numStart, numEnd, last, warnings);
    if |rows| > 0 && r.Ok? {
      var st := ParseAttributes(rows[0][8], last, warnings).value;
      RestShaped(rows, numStart, numEnd);
      var tail := ConvertRows(rows[1..], numStart, numEnd, st.last, st.warnings);
      RowsFromColumns(rows[1..], numStart, numEnd, st.last, st.warnings);
      ConvertRowsCons(rows, numStart, numEnd, last, warnings, st, tail.value);
      FromColumnsCons(RecordOf(rows[0], numStart, numEnd, st.attrs), tail.value.records, rows, numStart, numEnd);
    }
  }

  /** The pair and the diagnostics the outer loop carries into row `i`, after
      parsing the attribute columns of the rows before it. */
  function CarriedInto(rows: seq<seq<string>>, i: nat, last: Option<(string, string)>, warnings: seq<string>)
    : (Option<(string, string)>, seq<string>)
    requires NineColumns(rows) && i <= |rows|
    decreases i
  {
    if i == 0 then (last, warnings)
    else
      RestShaped(rows, false, false);
      match ParseAttributes(rows[0][8], last, warnings)
      case Err(_) => (last, warnings)
      case Ok(st) => CarriedInto(rows[1..], i - 1, st.last, st.warnings)
  }

  /** What row `i > 0` receives is what row `i - 1` of the rest receives after
      the first row's column is parsed. */
  lemma {:induction false} CarriedIntoCons(rows: seq<seq<string>>, i: nat, last: Option<(string, string)>, warnings: seq<string>)
    requires NineColumns(rows) && 0 < i <= |rows|
    requires ParseAttributes(rows[0][8], last, warnings).Ok?
    ensures var st := ParseAttributes(rows[0][8], last, warnings).value;
      && NineColumns(rows[1..])
      && CarriedInto(rows, i, last, warnings) == CarriedInto(rows[1..], i - 1, st.last, st.warnings)
      && (i < |rows| ==> rows[i] == rows[1..][i - 1])
  {
    RestShaped(rows, false, false);
  }

  /** `a` is the map that row `i`'s attribute column parses to, started from
      the pair and diagnostics that the rows before it left behind. */
  predicate ReadsAttributes(rows: seq<seq<string>>, i: nat, last: Option<(string, string)>, warnings: seq<string>,
                            a: Attributes)
    requires NineColumns(rows) && i < |rows|
  {
    var c := CarriedInto(rows, i, last, warnings);
    ParseAttributes(rows[i][8], c.0, c.1).Ok? && a == ParseAttributes(rows[i][8], c.0, c.1).value.attrs
  }

  /** Row `i > 0` of a table reads what row `i - 1` of the rest reads after the
      first row's column is parsed. */
  lemma {:induction false} ReadsAttributesCons(rows: seq<seq<string>>, i: nat, last: Option<(string, string)>,
                                               warnings: seq<string>, st: ParseState, a: Attributes)
    requires NineColumns(rows) && 0 < i < |rows|
    requires ParseAttributes(rows[0][8], last, warnings) == Ok(st)
    requires NineColumns(rows[1..]) && ReadsAttributes(rows[1..], i - 1, st.last, st.warnings, a)
    ensures ReadsAttributes(rows, i, last, warnings, a)
  {
    CarriedIntoCons(rows, i, last, warnings);
  }

  /** Each record's map is the parse of its row's attribute column, started
      from what the rows before it left behind. */
  lemma {:induction false} RowsAttributes(rows: seq<seq<string>>, numStart: bool, numEnd: bool,
                                          last: Option<(string, string)>, warnings: seq<string>)
    requires NineColumns(rows)
    requires numStart ==> NumericColumn(rows, 3)
    requires numEnd ==> NumericColumn(rows, 4)
    ensures var r := ConvertRows(rows, numStart, numEnd, last, warnings);
      r.Ok? ==> forall i :: 0 <= i < |rows| ==> ReadsAttributes(rows, i, last, warnings, r.value.records[i].attributes)
    decreases |rows|
  {
    var r := ConvertRows(rows, numStart, numEnd, last, warnings);
    if |rows| > 0 && r.Ok? {
      var st := ParseAttributes(rows[0][8], last, warnings).value;
      RestShaped(rows, numStart, numEnd);
      var tail := ConvertRows(rows[1..], numStart, numEnd, st.last, st.warnings).value;
      RowsAttributes(rows[1..], numStart, numEnd, st.last, st.warnings);
      ConvertRowsCons(rows, numStart, numEnd, last, warnings, st, tail);
      var recs := r.value.records;
      assert recs == [RecordOf(rows[0], numStart, numEnd, st.attrs)] + tail.records;
      assert recs[1..] == tail.records;
      AttributesCons(rows, last, warnings, st, recs, tail.records);
    }
  }

  /** The maps of a table's records, from those of the rest: the first row's is
      parsed from what came before, the others as in the rest. */
  lemma {:induction false} AttributesCons(rows: seq<seq<string>>, last: Option<(string, string)>, warnings: seq<string>,
                                          st: ParseState, recs: seq<Record>, tailRecs: seq<Record>)
    requires NineColumns(rows) && |rows| > 0 && NineColumns(rows[1..])
    requires ParseAttributes(rows[0][8], last, warnings) == Ok(st)
    requires |recs| == |rows| && recs[0].attributes == st.attrs && recs[1..] == tailRecs
    requires forall i :: 0 <= i < |tailRecs| ==> ReadsAttributes(rows[1..], i, st.last, st.warnings, tailRecs[i].attributes)
    ensures forall i :: 0 <= i < |rows| ==> ReadsAttributes(rows, i, last, warnings, recs[i].attributes)
  {
    forall i | 0 < i < |rows|
      ensures ReadsAttributes(rows, i, last, warnings, recs[i].attributes)
    {
      assert recs[i] == tailRecs[i - 1];
      ReadsAttributesCons(rows, i, last, warnings, st, recs[i].attributes);
    }
  }

  /** The lines after the first, which is skipped whatever it holds. */
  function DataRows(lines: seq<seq<string>>): (rows: seq<seq<string>>)
    ensures |lines| == 0 ==> rows == []
    ensures |lines| > 0 ==> [lines[0]] + rows == lines
  {
    if |lines| == 0 then [] else lines[1..]
  }

  /** The whole conversion: `lines` is the input already split into lines and
      each line into tab-separated fields, the first line included. */
  function Convert(lines: seq<seq<string>>): (r: Result<Conversion, Error>)
    ensures r == Err(BadColumnCount) <==> !WellShaped(DataRows(lines))
    ensures r.Ok? ==> |lines| >= 2 && |r.value.records| == |lines| - 1
    ensures r.Ok? ==>
      var rows := DataRows(lines);
      forall i :: 0 <= i < |rows| ==> FromColumns(r.value.records[i], rows[i], NumericColumn(rows, 3), NumericColumn(rows, 4))
    ensures r.Ok? ==>
      var rows := DataRows(lines);
      forall i :: 0 <= i < |rows| ==>
        var c := CarriedInto(rows, i, None, []);
        ParseAttributes(rows[i][8], c.0, c.1).Ok?
        && r.value.records[i].attributes == ParseAttributes(rows[i][8], c.0, c.1).value.attrs
  {
    var rows := DataRows(lines);
    if !WellShaped(rows) then Err(BadColumnCount)
    else
      RowsFromColumns(rows, NumericColumn(rows, 3), NumericColumn(rows, 4), None, []);
      RowsAttributes(rows, NumericColumn(rows, 3), NumericColumn(rows, 4), None, []);
      ConvertRows(rows, NumericColumn(rows, 3), NumericColumn(rows, 4), None, [])
  }

  // ---------------------------------------------------------------------------
  // Properties of the reader

  /** The first line is discarded unread: whatever it holds, the outcome is the same. */
  lemma {:induction false} HeaderIgnored(h: seq<string>, h': seq<string>, rest: seq<seq<string>>)
    ensures Convert([h] + rest) == Convert([h'] + rest)
  {
    assert DataRows([h] + rest) == rest == DataRows([h'] + rest);
  }

  /** The segments that are not empty, in order. */
  function NonEmpty(segs: seq<string>): (r: seq<string>)
    ensures forall i :: 0 <= i < |r| ==> r[i] != ""
  {
    if |segs| == 0 then []
    else (if segs[0] == "" then [] else [segs[0]]) + NonEmpty(segs[1..])
  }

  /** Empty segments (from `;;` or a trailing `;`) have no effect at all. */
  lemma {:induction false} EmptySegmentsIgnored(st: ParseState, segs: seq<string>)
    ensures ParseSegments(st, segs) == ParseSegments(st, NonEmpty(segs))
    decreases |segs|
  {
    if |segs| > 0 {
      var ne := NonEmpty(segs);
      if segs[0] == "" {
        assert ne == NonEmpty(segs[1..]);
        assert Step(st, segs[0]) == Ok(st);
        assert ParseSegments(st, segs) == ParseSegments(st, segs[1..]);
        EmptySegmentsIgnored(st, segs[1..]);
      } else {
        assert ne == [segs[0]] + NonEmpty(segs[1..]);
        assert ne[0] == segs[0] && ne[1..] == NonEmpty(segs[1..]);
        var r := Step(st, segs[0]);
        if r.Ok? {
          EmptySegmentsIgnored(r.value, segs[1..]);
        }
      }
    }
  }

  /** Every segment is empty or holds an `=`. */
  predicate NoMalformed(segs: seq<string>) {
    forall i :: 0 <= i < |segs| ==> segs[i] == "" || '=' in segs[i]
  }

  /** Reference reading of last-write-wins: the value given to `k` by the last
      segment whose key is `k`. */
  function LastValue(segs: seq<string>, k: string): Option<string> {
    if |segs| == 0 then None
    else
      var later := LastValue(segs[1..], k);
      if later.Some? then later
      else
        match SplitFirst(segs[0], '=')
        case Some(kv) => if kv.0 == k then Some(kv.1) else None
        case None => None
  }

  /** The keys the segments name: each well-formed segment's text before its first `=`. */
  function SegmentKeys(segs: seq<string>): set<string> {
    if |segs| == 0 then {}
    else
      (match SplitFirst(segs[0], '=')
       case Some(kv) => {kv.0}
       case None => {}) + SegmentKeys(segs[1..])
  }

  /** With no malformed segment the parse cannot fail, reports nothing, adds
      exactly the segments' keys, and each key ends with its last segment's value. */
  lemma {:induction false} LastWriteWins(st: ParseState, segs: seq<string>)
    requires NoMalformed(segs)
    ensures var r := ParseSegments(st, segs);
      && r.Ok?
      && r.value.warnings == st.warnings
      && KeySet(r.value.attrs) == KeySet(st.attrs) + SegmentKeys(segs)
      && forall k :: Lookup(r.value.attrs, k) == if LastValue(segs, k).Some? then LastValue(segs, k) else Lookup(st.attrs, k)
    decreases |segs|
  {
    if |segs| > 0 {
      var seg := segs[0];
      var next := Step(st, seg).value;
      assert NoMalformed(segs[1..]) by {
        forall i | 0 <= i < |segs[1..]| ensures segs[1..][i] == "" || '=' in segs[1..][i] {
          assert segs[1..][i] == segs[i + 1];
        }
      }
      assert ParseSegments(st, segs) == ParseSegments(next, segs[1..]);
      LastWriteWins(next, segs[1..]);
      if seg != "" {
        var kv := SplitFirst(seg, '=').value;
        assert next.attrs == Put(st.attrs, kv.0, kv.1);
        PutKeySet(st.attrs, kv.0, kv.1);
        assert SegmentKeys(segs) == {kv.0} + SegmentKeys(segs[1..]);
      } else {
        assert SegmentKeys(segs) == SegmentKeys(segs[1..]);
      }
    }
  }

  /** The same rule for one attribute column: its key set is exactly the set of
      segment keys and each value comes from that key's last segment. */
  lemma {:induction false} AttributesLastWriteWins(column: string, last: Option<(string, string)>, warnings: seq<string>)
    requires NoMalformed(Split(column, ';'))
    ensures var r := ParseAttributes(column, last, warnings);
      var segs := Split(column, ';');
      && r.Ok?
      && r.value.warnings == warnings
      && KeySet(r.value.attrs) == SegmentKeys(segs)
      && forall k :: Lookup(r.value.attrs, k) == LastValue(segs, k)
  {
    LastWriteWins(ParseState([], last, warnings), Split(column, ';'));
  }

  /** The segments that hold an `=`. */
  function WellFormedOnly(segs: seq<string>): (r: seq<string>)
    ensures forall i :: 0 <= i < |r| ==> '=' in r[i]
  {
    if |segs| == 0 then []
    else (if '=' in segs[0] then [segs[0]] else []) + WellFormedOnly(segs[1..])
  }

  /** The non-empty segments without an `=`: the ones the loop reports. */
  function Malformed(segs: seq<string>): (r: seq<string>)
    ensures forall i :: 0 <= i < |r| ==> r[i] != "" && '=' !in r[i]
  {
    if |segs| == 0 then []
    else (if segs[0] != "" && '=' !in segs[0] then [segs[0]] else []) + Malformed(segs[1..])
  }

  /** A parse outcome with its diagnostics erased. */
  function Quiet(r: Result<ParseState, Error>): Result<ParseState, Error> {
    match r
    case Ok(st) => Ok(st.(warnings := []))
    case Err(e) => Err(e)
  }

  /** The diagnostics gathered so far never steer the parse. */
  lemma {:induction false} DiagnosticsDoNotSteer(st: ParseState, w: seq<string>, segs: seq<string>)
    ensures Quiet(ParseSegments(st, segs)) == Quiet(ParseSegments(st.(warnings := w), segs))
    decreases |segs|
  {
    if |segs| > 0 {
      var st' := st.(warnings := w);
      match Step(st, segs[0])
      case Err(_) =>
      case Ok(next) =>
        var next' := Step(st', segs[0]).value;
        assert next' == next.(warnings := next'.warnings);
        DiagnosticsDoNotSteer(next, next'.warnings, segs[1..]);
    }
  }

  /** Once the map holds the last unpacked pair, a segment without `=` is only
      reported: the parse ends as the parse of the well-formed segments alone. */
  lemma {:induction false} MalformedIgnoredWhenBound(st: ParseState, segs: seq<string>)
    requires Coherent(st)
    ensures var r := ParseSegments(st, segs);
      && r.Ok?
      && r.value.warnings == st.warnings + Malformed(segs)
      && Quiet(r) == Quiet(ParseSegments(st, WellFormedOnly(segs)))
    decreases |segs|
  {
    if |segs| > 0 {
      var seg := segs[0];
      var rest := segs[1..];
      var next := Step(st, seg).value;
      assert ParseSegments(st, segs) == ParseSegments(next, rest);
      MalformedIgnoredWhenBound(next, rest);
      if '=' in seg {
        BoundWellFormedStep(st, segs);
      } else {
        BoundMalformedStep(st, segs);
      }
    }
  }

  /** One well-formed segment at the front: the same step with or without the malformed ones. */
  lemma {:induction false} BoundWellFormedStep(st: ParseState, segs: seq<string>)
    requires |segs| > 0 && '=' in segs[0]
    ensures var next := Step(st, segs[0]).value;
      && WellFormedOnly(segs) == [segs[0]] + WellFormedOnly(segs[1..])
      && ParseSegments(st, WellFormedOnly(segs)) == ParseSegments(next, WellFormedOnly(segs[1..]))
      && next.warnings + Malformed(segs[1..]) == st.warnings + Malformed(segs)
  {
    var wf := WellFormedOnly(segs);
    assert wf == [segs[0]] + WellFormedOnly(segs[1..]);
    assert wf[0] == segs[0] && wf[1..] == WellFormedOnly(segs[1..]);
    assert Malformed(segs) == Malformed(segs[1..]);
  }

  /** The step of `MalformedIgnoredWhenBound` for a first segment without `=`. */
  lemma {:induction false} BoundMalformedStep(st: ParseState, segs: seq<string>)
    requires Coherent(st) && |segs| > 0 && '=' !in segs[0]
    ensures var next := Step(st, segs[0]).value;
      && Quiet(ParseSegments(next, WellFormedOnly(segs[1..]))) == Quiet(ParseSegments(st, WellFormedOnly(segs)))
      && next.warnings + Malformed(segs[1..]) == st.warnings + Malformed(segs)
  {
    var seg := segs[0];
    var rest := segs[1..];
    var next := Step(st, seg).value;
    var wf := WellFormedOnly(rest);
    assert WellFormedOnly(segs) == wf;
    BoundMalformedKeepsState(st, seg);
    DiagnosticsDoNotSteer(st, next.warnings, wf);
    if seg == "" {
      assert Malformed(segs) == Malformed(rest);
    } else {
      assert Malformed(segs) == [seg] + Malformed(rest);
      AppendAssociates(st.warnings, [seg], Malformed(rest));
    }
  }

  /** With the pair bound, a segment without `=` changes only the diagnostics. */
  lemma {:induction false} BoundMalformedKeepsState(st: ParseState, seg: string)
    requires Coherent(st) && '=' !in seg
    ensures Step(st, seg).Ok? && Step(st, seg).value == st.(warnings := Step(st, seg).value.warnings)
  {
  }

  /** The first segment that is not empty, if any. */
  function FirstNonEmpty(segs: seq<string>): (r: Option<string>)
    ensures r.Some? ==> r.value != ""
  {
    if |segs| == 0 then None
    else if segs[0] != "" then Some(segs[0])
    else FirstNonEmpty(segs[1..])
  }

  /** Within one attribute column whose first non-empty segment is well-formed,
      every later segment without `=` is dropped and reported, as if only the
      well-formed segments were there. */
  lemma {:induction false} MalformedIgnoredAfterFirstPair(st: ParseState, segs: seq<string>)
    requires FirstNonEmpty(segs).Some? && '=' in FirstNonEmpty(segs).value
    ensures var r := ParseSegments(st, segs);
      && r.Ok?
      && r.value.warnings == st.warnings + Malformed(segs)
      && Quiet(r) == Quiet(ParseSegments(st, WellFormedOnly(segs)))
    decreases |segs|
  {
    var seg := segs[0];
    var rest := segs[1..];
    var next := Step(st, seg).value;
    assert ParseSegments(st, segs) == ParseSegments(next, rest);
    if seg == "" {
      assert next == st;
      assert FirstNonEmpty(segs) == FirstNonEmpty(rest);
      assert WellFormedOnly(segs) == WellFormedOnly(rest);
      assert Malformed(segs) == Malformed(rest);
      MalformedIgnoredAfterFirstPair(st, rest);
    } else {
      MalformedIgnoredWhenBound(next, rest);
      BoundWellFormedStep(st, segs);
    }
  }

  /** Some segment is not empty. */
  predicate HasNonEmpty(segs: seq<string>) {
    FirstNonEmpty(segs).Some?
  }

  /** With no `=` anywhere, each non-empty segment stores the stale pair again. */
  lemma {:induction false} StalePairReused(st: ParseState, segs: seq<string>, p: (string, string))
    requires st.last == Some(p)
    requires forall i :: 0 <= i < |segs| ==> '=' !in segs[i]
    ensures var r := ParseSegments(st, segs);
      && r.Ok?
      && r.value.last == Some(p)
      && r.value.attrs == if HasNonEmpty(segs) then Put(st.attrs, p.0, p.1) else st.attrs
    decreases |segs|
  {
    if |segs| > 0 {
      var seg := segs[0];
      var rest := segs[1..];
      var next := Step(st, seg).value;
      assert ParseSegments(st, segs) == ParseSegments(next, rest);
      StalePairReused(next, rest, p);
      if seg == "" {
        assert next == st;
        assert FirstNonEmpty(segs) == FirstNonEmpty(rest);
      } else {
        assert next.attrs == Put(st.attrs, p.0, p.1);
        assert HasNonEmpty(segs);
        PutSameValue(next.attrs, p.0, p.1);
      }
    }
  }

  /** A column whose segments all lack `=` takes the pair unpacked in an earlier
      record: that record's last attribute leaks into this one. */
  lemma {:induction false} PreviousPairLeaks(column: string, p: (string, string), warnings: seq<string>)
    requires forall i :: 0 <= i < |Split(column, ';')| ==> '=' !in Split(column, ';')[i]
    requires HasNonEmpty(Split(column, ';'))
    ensures var r := ParseAttributes(column, Some(p), warnings);
      r.Ok? && r.value.attrs == [p]
  {
    StalePairReused(ParseState([], Some(p), warnings), Split(column, ';'), p);
  }

  /** With no pair unpacked yet, a first non-empty segment without `=` aborts the parse. */
  lemma {:induction false} UnboundPairAborts(st: ParseState, segs: seq<string>)
    requires st.last.None?
    requires FirstNonEmpty(segs).Some? && '=' !in FirstNonEmpty(segs).value
    ensures ParseSegments(st, segs) == Err(UnboundAttribute(FirstNonEmpty(segs).value))
    decreases |segs|
  {
    if segs[0] == "" {
      UnboundPairAborts(st, segs[1..]);
    }
  }

  /** If the first data line's attribute column starts with a segment without
      `=`, the whole conversion aborts. */
  lemma {:induction false} FirstRecordWithoutPairAborts(lines: seq<seq<string>>)
    requires WellShaped(DataRows(lines))
    requires var segs := Split(DataRows(lines)[0][8], ';');
      FirstNonEmpty(segs).Some? && '=' !in FirstNonEmpty(segs).value
    ensures Convert(lines) == Err(UnboundAttribute(FirstNonEmpty(Split(DataRows(lines)[0][8], ';')).value))
  {
    var rows := DataRows(lines);
    UnboundPairAborts(ParseState([], None, []), Split(rows[0][8], ';'));
  }

  /** Once a pair has been unpacked the inner loop cannot abort, and a pair
      stays bound. */
  lemma {:induction false} BoundPairNeverAborts(st: ParseState, segs: seq<string>)
    requires st.last.Some?
    ensures var r := ParseSegments(st, segs);
      r.Ok? && r.value.last.Some?
    decreases |segs|
  {
    if |segs| > 0 {
      BoundPairNeverAborts(Step(st, segs[0]).value, segs[1..]);
    }
  }

  /** The segment that aborts a parse begun with no pair bound: the first
      non-empty segment, when it holds no `=`. */
  function UnboundSegment(segs: seq<string>): Option<string> {
    match FirstNonEmpty(segs)
    case Some(s) => if '=' in s then None else Some(s)
    case None => None
  }

  /** With no pair bound, the inner loop aborts exactly on `UnboundSegment`, and
      otherwise leaves a pair bound exactly when some segment is non-empty. */
  lemma {:induction false} UnboundParse(st: ParseState, segs: seq<string>)
    requires st.last.None?
    ensures var r := ParseSegments(st, segs);
      && (r.Err? <==> UnboundSegment(segs).Some?)
      && (r.Err? ==> r.error == UnboundAttribute(UnboundSegment(segs).value))
      && (r.Ok? ==> (r.value.last.Some? <==> FirstNonEmpty(segs).Some?))
    decreases |segs|
  {
    if |segs| > 0 {
      var next := Step(st, segs[0]);
      if segs[0] == "" {
        UnboundParse(st, segs[1..]);
      } else if '=' in segs[0] {
        BoundPairNeverAborts(next.value, segs[1..]);
      }
    }
  }

  /** The attribute segments of all rows, in file order. */
  function AllSegments(rows: seq<seq<string>>): seq<string>
    requires NineColumns(rows)
    decreases |rows|
  {
    if |rows| == 0 then []
    else
      RestShaped(rows, false, false);
      Split(rows[0][8], ';') + AllSegments(rows[1..])
  }

  /** The first non-empty segment of two runs is that of the first run, if it has one. */
  lemma {:induction false} FirstNonEmptyAppend(a: seq<string>, b: seq<string>)
    ensures FirstNonEmpty(a + b) == if FirstNonEmpty(a).Some? then FirstNonEmpty(a) else FirstNonEmpty(b)
    decreases |a|
  {
    if |a| == 0 {
      assert a + b == b;
    } else {
      assert (a + b)[0] == a[0] && (a + b)[1..] == a[1..] + b;
      FirstNonEmptyAppend(a[1..], b);
    }
  }

  /** Once a pair has been unpacked, no later row can abort the conversion. */
  lemma {:induction false} BoundRowsNeverAbort(rows: seq<seq<string>>, numStart: bool, numEnd: bool,
                                               p: (string, string), warnings: seq<string>)
    requires NineColumns(rows)
    requires numStart ==> NumericColumn(rows, 3)
    requires numEnd ==> NumericColumn(rows, 4)
    ensures ConvertRows(rows, numStart, numEnd, Some(p), warnings).Ok?
    decreases |rows|
  {
    if |rows| > 0 {
      BoundPairNeverAborts(ParseState([], Some(p), warnings), Split(rows[0][8], ';'));
      var st := ParseAttributes(rows[0][8], Some(p), warnings).value;
      RestShaped(rows, numStart, numEnd);
      BoundRowsNeverAbort(rows[1..], numStart, numEnd, st.last.value, st.warnings);
      var tail := ConvertRows(rows[1..], numStart, numEnd, st.last, st.warnings).value;
      ConvertRowsCons(rows, numStart, numEnd, Some(p), warnings, st, tail);
    }
  }

  /** From no bound pair, the outer loop aborts exactly on the unbound segment
      of all rows' segments taken in order. */
  lemma {:induction false} UnboundRows(rows: seq<seq<string>>, numStart: bool, numEnd: bool, warnings: seq<string>)
    requires NineColumns(rows)
    requires numStart ==> NumericColumn(rows, 3)
    requires numEnd ==> NumericColumn(rows, 4)
    ensures var r := ConvertRows(rows, numStart, numEnd, None, warnings);
      && (r.Err? <==> UnboundSegment(AllSegments(rows)).Some?)
      && (r.Err? ==> r.error == UnboundAttribute(UnboundSegment(AllSegments(rows)).value))
    decreases |rows|
  {
    if |rows| > 0 {
      var segs := Split(rows[0][8], ';');
      RestShaped(rows, numStart, numEnd);
      var rest := AllSegments(rows[1..]);
      assert AllSegments(rows) == segs + rest;
      FirstNonEmptyAppend(segs, rest);
      UnboundParse(ParseState([], None, warnings), segs);
      var p := ParseAttributes(rows[0][8], None, warnings);
      if p.Ok? {
        var st := p.value;
        if st.last.Some? {
          BoundRowsNeverAbort(rows[1..], numStart, numEnd, st.last.value, st.warnings);
        } else {
          UnboundRows(rows[1..], numStart, numEnd, st.warnings);
        }
        var tail := ConvertRows(rows[1..], numStart, numEnd, st.last, st.warnings);
        if tail.Ok? {
          ConvertRowsCons(rows, numStart, numEnd, None, warnings, st, tail.value);
        }
      }
    }
  }

  /** The whole outcome of the reader: it succeeds exactly when the table is
      well shaped and no segment without `=` comes before the first pair, in
      file order; in the second case it aborts naming that segment. */
  lemma {:induction false} ConvertOutcome(lines: seq<seq<string>>)
    ensures var rows := DataRows(lines);
      var r := Convert(lines);
      && (r.Ok? <==> WellShaped(rows) && UnboundSegment(AllSegments(rows)).None?)
      && (r.Err? && r.error.UnboundAttribute? <==> WellShaped(rows) && UnboundSegment(AllSegments(rows)).Some?)
      && (WellShaped(rows) && UnboundSegment(AllSegments(rows)).Some? ==>
            r == Err(UnboundAttribute(UnboundSegment(AllSegments(rows)).value)))
  {
    var rows := DataRows(lines);
    if WellShaped(rows) {
      UnboundRows(rows, NumericColumn(rows, 3), NumericColumn(rows, 4), []);
    }
  }
}
