/** The JSON-to-GFF direction (`funannotate_json_to_gff`): each document entry
    becomes one tab-separated line, its attribute map one `;`-joined column,
    and the file is a fixed header line followed by the lines joined by
    newlines. */
module JsonToGff {
  import opened Wrappers
  import opened Text
  import Decimal
  import opened Schema

  /** The first line of every file written. */
  const Header: string := "#gff-version 3"

  /** The `f"{key}={value}"` token of one attribute. */
  function Token(kv: (string, string)): (t: string)
    ensures '=' in t
    ensures '=' !in kv.0 ==> SplitFirst(t, '=') == Some(kv)
  {
    assert (kv.0 + "=" + kv.1)[|kv.0|] == '=';
    if '=' in kv.0 then kv.0 + "=" + kv.1
    else
      SplitFirstOfJoined(kv.0, kv.1, '=');
      kv.0 + "=" + kv.1
  }

  /** The tokens of a map, in map order. */
  function Tokens(m: Attributes): (ts: seq<string>)
    ensures |ts| == |m|
    ensures forall i :: 0 <= i < |m| ==> ts[i] == Token(m[i])
  {
    if |m| == 0 then [] else [Token(m[0])] + Tokens(m[1..])
  }

  /** The attribute column: the tokens joined by `;`. */
  function RenderAttributes(m: Attributes): (s: string)
    ensures s == "" <==> |m| == 0
  {
    var ts := Tokens(m);
    if |ts| == 0 then ""
    else
      assert Join(ts, ';')[..|ts[0]|] == ts[0] by {
        if |ts| > 1 {
          assert Join(ts, ';') == ts[0] + ([';'] + Join(ts[1..], ';'));
        }
      }
      Join(ts, ';')
  }

  /** `str(entry.get("start", ""))`: the decimal text of a number, the text of a
      string, and `""` when the field is absent. */
  function CoordText(c: Option<Coord>): (t: string)
    ensures c.None? ==> t == ""
    ensures c.Some? && c.value.Number? ==> Decimal.IsCanonical(t) && Decimal.ValueOf(t) == c.value.n
    ensures c.Some? && c.value.Verbatim? ==> t == c.value.s
  {
    match c
    case None => ""
    case Some(Number(n)) =>
      Decimal.ValueOfStr(n);
      Decimal.Str(n)
    case Some(Verbatim(s)) => s
  }

  /** The nine columns written for an entry, in file order. */
  function Columns(e: Entry): (cols: seq<string>)
    requires e.attributes.Some?
    ensures |cols| == 9
  {
    [ e.seqid.GetOr(""), e.source.GetOr(""), e.featureType.GetOr(""),
      CoordText(e.start), CoordText(e.end),
      e.score.GetOr(""), e.strand.GetOr(""), e.phase.GetOr(""),
      RenderAttributes(e.attributes.value) ]
  }

  /** One output line, or the `KeyError` raised by `entry["attributes"]`. */
  function EntryLine(e: Entry): (r: Result<string, Error>)
    ensures r.Err? <==> e.attributes.None?
    ensures r.Err? ==> r.error == MissingAttributes
  {
    match e.attributes
    case None => Err(MissingAttributes)
    case Some(_) => Ok(Join(Columns(e), '\t'))
  }

  /** The lines of all entries in document order; the first entry without
      attributes aborts before anything is written. */
  function Lines(doc: seq<Entry>): (r: Result<seq<string>, Error>)
    ensures r.Err? <==> exists i :: 0 <= i < |doc| && doc[i].attributes.None?
    ensures r.Err? ==> r.error == MissingAttributes
    ensures r.Ok? ==> |r.value| == |doc| && forall i :: 0 <= i < |doc| ==> EntryLine(doc[i]) == Ok(r.value[i])
    decreases |doc|
  {
    if |doc| == 0 then Ok([])
    else
      match EntryLine(doc[0])
      case Err(e) => Err(e)
      case Ok(line) =>
        match Lines(doc[1..])
        case Err(e) => Err(e)
        case Ok(rest) => Ok([line] + rest)
  }

  /** The whole file written: the header, a newline, then the lines joined by
      newlines with none after the last. */
  function Convert(doc: seq<Entry>): (r: Result<string, Error>)
    ensures r.Err? <==> exists i :: 0 <= i < |doc| && doc[i].attributes.None?
    ensures r.Err? ==> r.error == MissingAttributes
    ensures r.Ok? ==> |r.value| > |Header| && r.value[..|Header| + 1] == Header + "\n"
    ensures |doc| == 0 ==> r == Ok(Header + "\n")
  {
    match Lines(doc)
    case Err(e) => Err(e)
    case Ok(lines) =>
      var out := Header + "\n" + Join(lines, '\n');
      assert out[..|Header| + 1] == Header + "\n";
      assert |lines| == 0 ==> out == Header + "\n";
      Ok(out)
  }

  // ---------------------------------------------------------------------------
  // Properties of the writer

  /** No column of an entry holds a tab or a newline. */
  predicate SingleLineColumns(e: Entry)
    requires e.attributes.Some?
  {
    forall j :: 0 <= j < 9 ==> '\t' !in Columns(e)[j] && '\n' !in Columns(e)[j]
  }

  /** Splitting a written line on tabs gives back its nine columns: the fields in
      the fixed order, `""` for each absent one, the attribute column last. */
  lemma {:induction false} LineSplitsIntoColumns(e: Entry)
    requires e.attributes.Some? && SingleLineColumns(e)
    ensures var cols := Split(EntryLine(e).value, '\t');
      && cols == Columns(e)
      && cols[0] == e.seqid.GetOr("") && cols[1] == e.source.GetOr("") && cols[2] == e.featureType.GetOr("")
      && cols[3] == CoordText(e.start) && cols[4] == CoordText(e.end)
      && cols[5] == e.score.GetOr("") && cols[6] == e.strand.GetOr("") && cols[7] == e.phase.GetOr("")
      && cols[8] == RenderAttributes(e.attributes.value)
  {
    SplitOfJoin(Columns(e), '\t');
  }

  /** No key holds `=` or `;` and no value holds `;`: the map survives the trip
      through its text. */
  predicate Separable(m: Attributes) {
    forall i :: 0 <= i < |m| ==> '=' !in m[i].0 && ';' !in m[i].0 && ';' !in m[i].1
  }

  /** Splitting the attribute column on `;` gives back the tokens, one per
      entry in map order: no empty segment, so no leading, trailing or doubled `;`. */
  lemma {:induction false} RenderSplitsIntoTokens(m: Attributes)
    requires |m| > 0 && Separable(m)
    ensures var parts := Split(RenderAttributes(m), ';');
      && parts == Tokens(m)
      && forall i :: 0 <= i < |parts| ==> parts[i] != ""
  {
    var ts := Tokens(m);
    forall i | 0 <= i < |ts| ensures ';' !in ts[i] && ts[i] != "" {
      assert ts[i] == m[i].0 + "=" + m[i].1;
      assert ts[i][|m[i].0|] == '=';
    }
    SplitOfJoin(ts, ';');
  }

  /** Splitting the whole file on newlines gives the header line and then one
      line per entry, each splitting on tabs into that entry's columns. */
  lemma {:induction false} FileSplitsIntoLines(doc: seq<Entry>)
    requires |doc| > 0
    requires forall i :: 0 <= i < |doc| ==> doc[i].attributes.Some? && SingleLineColumns(doc[i])
    ensures Convert(doc).Ok?
    ensures var parts := Split(Convert(doc).value, '\n');
      && |parts| == |doc| + 1
      && parts[0] == Header
      && forall i :: 0 <= i < |doc| ==> Split(parts[i + 1], '\t') == Columns(doc[i])
  {
    var lines := Lines(doc).value;
    forall i | 0 <= i < |lines| ensures '\n' !in lines[i] && Split(lines[i], '\t') == Columns(doc[i]) {
      LineIsSingle(doc[i]);
    }
    SplitOfJoin(lines, '\n');
    assert Header + "\n" + Join(lines, '\n') == Header + ['\n'] + Join(lines, '\n');
    SplitAfterHead(Header, Join(lines, '\n'), '\n');
  }

  /** A written line holds no newline and splits on tabs into its columns. */
  lemma {:induction false} LineIsSingle(e: Entry)
    requires e.attributes.Some? && SingleLineColumns(e)
    ensures var line := EntryLine(e).value;
      '\n' !in line && Split(line, '\t') == Columns(e)
  {
    JoinKeepsOut(Columns(e), '\t', '\n');
    LineSplitsIntoColumns(e);
  }
}
