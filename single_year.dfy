/** The 2016-only normaliser that writes `data/filtered_census_data.csv`: two percentages
    per row, the coordinate filters, and no de-duplication. */
module SingleYear {
  import opened Cells
  import opened Frames
  import opened Census

  /** One output row, in the file's column order:
      name, percent elderly 65+, percent elderly 85+, Latitude, Longitude. */
  datatype FilteredRow = FilteredRow(
    name: string,
    percent65: Option<real>, percent85: Option<real>,
    latitude: real, longitude: real)

  /** The output row of a raw record that passed the coordinate filters. */
  function Normalize(r: CensusRecord): (out: FilteredRow)
    requires Located(r)
    ensures out.name == r.name
    ensures out.percent65 == CellPercent(r.count65in2016, r.total2016)
    ensures out.percent85 == CellPercent(r.count85in2016, r.total2016)
    ensures ToNumeric(r.latitude) == Some(out.latitude) && ToNumeric(r.longitude) == Some(out.longitude)
    ensures out.latitude != 0.0 && out.longitude != 0.0
  {
    FilteredRow(
      r.name,
      CellPercent(r.count65in2016, r.total2016),
      CellPercent(r.count85in2016, r.total2016),
      Latitude(r), Longitude(r))
  }

  function NormalizeAll(rows: seq<CensusRecord>): (out: seq<FilteredRow>)
    requires forall r :: r in rows ==> Located(r)
    ensures |out| == |rows|
    ensures forall i :: 0 <= i < |rows| ==> out[i] == Normalize(rows[i])
  {
    if rows == [] then [] else [Normalize(rows[0])] + NormalizeAll(rows[1..])
  }

  /** The whole script on a table: numeric mask, zero mask, then the per-row percentages. */
  function FilteredCensus(table: seq<CensusRecord>): seq<FilteredRow>
  {
    var numeric := Filter(table, NumericCoordinates);
    var located := Filter(numeric, NonZeroCoordinates);
    NormalizeAll(located)
  }

  /** Each output row is the normalised form of a located input row, in input order: the
      rows written are exactly the located rows, none merged and none reordered. */
  lemma {:induction false} FilteredCensusRows(table: seq<CensusRecord>)
    ensures FilteredCensus(table) == NormalizeAll(Filter(table, Located))
    ensures |FilteredCensus(table)| == |Filter(table, Located)|
    ensures Subseq(Filter(table, Located), table)
  {
    FilterTwice(table, NumericCoordinates, NonZeroCoordinates, Located);
    FilterIsSubseq(table, Located);
  }

  /** Every located row reaches the output, whatever its counts: rows with missing
      percentages are kept, and so is every repetition of a name. */
  lemma LocatedRowIsWritten(table: seq<CensusRecord>, i: nat)
    requires i < |table| && Located(table[i])
    ensures Normalize(table[i]) in FilteredCensus(table)
  {
    FilteredCensusRows(table);
    var located := Filter(table, Located);
    assert table[i] in located;
    var k :| 0 <= k < |located| && located[k] == table[i];
    assert FilteredCensus(table)[k] == Normalize(table[i]);
  }

  /** Nothing is written that did not come from a located input row. */
  lemma WrittenRowIsLocated(table: seq<CensusRecord>, x: FilteredRow)
    requires x in FilteredCensus(table)
    ensures exists r :: r in table && Located(r) && x == Normalize(r)
  {
    FilteredCensusRows(table);
    var located := Filter(table, Located);
    var k :| 0 <= k < |FilteredCensus(table)| && FilteredCensus(table)[k] == x;
    assert located[k] in located;
  }

  /** A 2016 total of 0 makes both percentages of that row missing. */
  lemma ZeroTotalGivesMissing(r: CensusRecord)
    requires Located(r) && ToNumeric(r.total2016) == Some(0.0)
    ensures Normalize(r).percent65 == None && Normalize(r).percent85 == None
  {
  }

  /** Two located rows with the same name both survive: there is no de-duplication. */
  lemma RepeatedNamesSurvive(a: CensusRecord, b: CensusRecord)
    requires Located(a) && Located(b) && a.name == b.name
    ensures |FilteredCensus([a, b])| == 2
    ensures FilteredCensus([a, b])[0].name == FilteredCensus([a, b])[1].name
  {
    FilteredCensusRows([a, b]);
    assert [a, b][1..] == [b];
  }
}
