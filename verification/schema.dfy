/** The record shape both converters share: a GFF3 feature line as nine
    columns, with its ninth column held as an insertion-ordered map from
    attribute key to value (the Python `dict` the reader builds). */
module Schema {
  import opened Wrappers

  /** A Python `dict[str, str]`: pairs in insertion order, at most one per key
      when built through `Put`. */
  type Attributes = seq<(string, string)>

  function KeySet(m: Attributes): set<string> {
    set p | p in m :: p.0
  }

  predicate UniqueKeys(m: Attributes) {
    forall i, j :: 0 <= i < j < |m| ==> m[i].0 != m[j].0
  }

  /** `d.get(k)`: the value stored under `k`, found at its first position. */
  function Lookup(m: Attributes, k: string): (r: Option<string>)
    ensures r.Some? <==> k in KeySet(m)
    ensures r.Some? ==> (k, r.value) in m
  {
    if |m| == 0 then None
    else if m[0].0 == k then Some(m[0].1)
    else
      KeySetCons(m);
      Lookup(m[1..], k)
  }

  /** `d[k] = v`: `k` now maps to `v` and every other key keeps its value. */
  function Put(m: Attributes, k: string, v: string): (r: Attributes)
    ensures Lookup(r, k) == Some(v)
    ensures forall k' :: k' != k ==> Lookup(r, k') == Lookup(m, k')
  {
    if |m| == 0 then [(k, v)]
    else if m[0].0 == k then [(k, v)] + m[1..]
    else [m[0]] + Put(m[1..], k, v)
  }

  /** A new key goes to the end of the insertion order. */
  lemma {:induction false} PutAppendsNewKey(m: Attributes, k: string, v: string)
    requires k !in KeySet(m)
    ensures Put(m, k, v) == m + [(k, v)]
    decreases |m|
  {
    if |m| > 0 {
      KeySetCons(m);
      assert Put(m, k, v) == [m[0]] + Put(m[1..], k, v);
      PutAppendsNewKey(m[1..], k, v);
      assert [m[0]] + (m[1..] + [(k, v)]) == m + [(k, v)];
    }
  }

  /** The keys of a non-empty map: its first key and the keys of the rest. */
  lemma {:induction false} KeySetCons(m: Attributes)
    requires |m| > 0
    ensures KeySet(m) == {m[0].0} + KeySet(m[1..])
  {
    assert m == [m[0]] + m[1..];
  }

  /** An existing key keeps its place: the key order is unchanged. */
  lemma {:induction false} PutKeepsKeyOrder(m: Attributes, k: string, v: string)
    requires k in KeySet(m)
    ensures var r := Put(m, k, v);
      |r| == |m| && forall i :: 0 <= i < |m| ==> r[i].0 == m[i].0
    decreases |m|
  {
    if m[0].0 != k {
      assert k in KeySet(m[1..]) by {
        var p :| p in m && p.0 == k;
        var i :| 0 <= i < |m| && m[i] == p;
        assert i > 0 && m[1..][i - 1] == p;
      }
      PutKeepsKeyOrder(m[1..], k, v);
    }
  }

  /** Storing the value a key already has changes nothing. */
  lemma {:induction false} PutSameValue(m: Attributes, k: string, v: string)
    ensures Lookup(m, k) == Some(v) ==> Put(m, k, v) == m
    decreases |m|
  {
    if |m| > 0 && m[0].0 != k {
      PutSameValue(m[1..], k, v);
    }
  }

  /** The key set after `d[k] = v` is the old one plus `k`. */
  lemma {:induction false} PutKeySet(m: Attributes, k: string, v: string)
    ensures KeySet(Put(m, k, v)) == KeySet(m) + {k}
    decreases |m|
  {
    if |m| > 0 {
      KeySetCons(m);
      var r := Put(m, k, v);
      KeySetCons(r);
      if m[0].0 != k {
        PutKeySet(m[1..], k, v);
      }
    }
  }

  /** Assignment through `Put` never creates a second entry for a key. */
  lemma {:induction false} PutKeepsKeysUnique(m: Attributes, k: string, v: string)
    ensures UniqueKeys(m) ==> UniqueKeys(Put(m, k, v))
  {
    if UniqueKeys(m) {
      if k in KeySet(m) {
        PutKeepsKeyOrder(m, k, v);
      } else {
        PutAppendsNewKey(m, k, v);
        forall i | 0 <= i < |m| ensures m[i].0 != k {
          assert m[i] in m;
        }
      }
    }
  }

  /** Columns 4 and 5 (`start`, `end`). pandas turns a column made only of digit
      strings into integers and leaves any other column as text. */
  datatype Coord = Number(n: nat) | Verbatim(s: string)

  /** One feature line as the GFF-to-JSON reader builds it: every field present. */
  datatype Record = Record(
    seqid: string,
    source: string,
    featureType: string,
    start: Coord,
    end: Coord,
    score: string,
    strand: string,
    phase: string,
    attributes: Attributes)

  /** One entry of the JSON document as the JSON-to-GFF writer reads it: any
      field may be absent. */
  datatype Entry = Entry(
    seqid: Option<string>,
    source: Option<string>,
    featureType: Option<string>,
    start: Option<Coord>,
    end: Option<Coord>,
    score: Option<string>,
    strand: Option<string>,
    phase: Option<string>,
    attributes: Option<Attributes>)

  /** The document entry that the reader writes for a record. */
  function ToEntry(r: Record): (e: Entry)
    ensures e.seqid.Some? && e.source.Some? && e.featureType.Some? && e.start.Some? && e.end.Some?
    ensures e.score.Some? && e.strand.Some? && e.phase.Some?
    ensures e.attributes == Some(r.attributes)
  {
    Entry(Some(r.seqid), Some(r.source), Some(r.featureType), Some(r.start), Some(r.end),
          Some(r.score), Some(r.strand), Some(r.phase), Some(r.attributes))
  }

  datatype Error =
    | BadColumnCount               // the reader's table does not have exactly nine columns
    | UnboundAttribute(segment: string) // a segment without `=` before any well-formed one
    | MissingAttributes            // a document entry has no `attributes` key
}
