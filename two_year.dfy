/** The two-year normaliser that writes `data/predictive_data.csv`: four percentages per
    row, the coordinate filters, then keep-first de-duplication by geographic name. */
module TwoYear {
  import opened Cells
  import opened Frames
  import opened Census

  /** One output row, in the file's seven-column order: name, 65+ 2016, 85+ 2016,
      65+ 2011, 85+ 2011, Latitude, Longitude. */
  datatype PredictiveRow = PredictiveRow(
    name: string,
    percent65in2016: Option<real>, percent85in2016: Option<real>,
    percent65in2011: Option<real>, percent85in2011: Option<real>,
    latitude: real, longitude: real)

  /** The output row of a raw record that passed the coordinate filters: each percentage
      is built from its own (threshold, year) pair of cells. */
  function Normalize(r: CensusRecord): (out: PredictiveRow)
    requires Located(r)
    ensures out.name == r.name
    ensures out.percent65in2016 == CellPercent(r.count65in2016, r.total2016)
    ensures out.percent85in2016 == CellPercent(r.count85in2016, r.total2016)
    ensures out.percent65in2011 == CellPercent(r.count65in2011, r.total2011)
    ensures out.percent85in2011 == CellPercent(r.count85in2011, r.total2011)
    ensures ToNumeric(r.latitude) == Some(out.latitude) && ToNumeric(r.longitude) == Some(out.longitude)
    ensures out.latitude != 0.0 && out.longitude != 0.0
  {
    PredictiveRow(
      r.name,
      CellPercent(r.count65in2016, r.total2016),
      CellPercent(r.count85in2016, r.total2016),
      CellPercent(r.count65in2011, r.total2011),
      CellPercent(r.count85in2011, r.total2011),
      Latitude(r), Longitude(r))
  }

  function NormalizeAll(rows: seq<CensusRecord>): (out: seq<PredictiveRow>)
    requires forall r :: r in rows ==> Located(r)
    ensures |out| == |rows|
    ensures forall i :: 0 <= i < |rows| ==> out[i] == Normalize(rows[i])
  {
    if rows == [] then [] else [Normalize(rows[0])] + NormalizeAll(rows[1..])
  }

  /** The raw rows the script keeps: located rows, then the first of each name. */
  function Selected(table: seq<CensusRecord>): (kept: seq<CensusRecord>)
    ensures forall r :: r in kept ==> r in table && Located(r)
  {
    var numeric := Filter(table, NumericCoordinates);
    var located := Filter(numeric, NonZeroCoordinates);
    KeepFirst(located, NameOf)
  }

  /** The whole script on a table. */
  function PredictiveData(table: seq<CensusRecord>): seq<PredictiveRow>
  {
    NormalizeAll(Selected(table))
  }

  /** The script as it runs: filters as masks, then one de-duplicating pass. */
  method BuildPredictiveData(table: seq<CensusRecord>) returns (out: seq<PredictiveRow>)
    ensures out == PredictiveData(table)
    ensures forall i, j :: 0 <= i < j < |out| ==> out[i].name != out[j].name
  {
    var numeric := Filter(table, NumericCoordinates);
    var located := Filter(numeric, NonZeroCoordinates);
    var unique := DropDuplicates(located, NameOf);
    out := NormalizeAll(unique);
    UniqueNames(table);
  }

  /** The rows written come from the input in its original order, de-duplication
      running after the coordinate filters. */
  lemma SelectedIsSubsequence(table: seq<CensusRecord>)
    ensures Selected(table) == KeepFirst(Filter(table, Located), NameOf)
    ensures Subseq(Selected(table), table)
  {
    var located := Filter(table, Located);
    FilterTwice(table, NumericCoordinates, NonZeroCoordinates, Located);
    KeepFirstIsSubseq(located, NameOf);
    FilterIsSubseq(table, Located);
    SubseqTransitive(Selected(table), located, table);
  }

  /** Output names are unique. */
  lemma UniqueNames(table: seq<CensusRecord>)
    ensures var out := PredictiveData(table);
      forall i, j :: 0 <= i < j < |out| ==> out[i].name != out[j].name
  {
    var located := Filter(Filter(table, NumericCoordinates), NonZeroCoordinates);
    KeepFirstUnique(located, NameOf);
  }

  /** A raw row is selected exactly when it is located and no earlier located row has
      its name: de-duplication keeps the first surviving row of each name. */
  lemma SelectedIffFirstOfItsName(table: seq<CensusRecord>, r: CensusRecord)
    ensures r in Selected(table) <==> exists i :: FirstWhere(table, Located, NameOf, i) && table[i] == r
  {
    SelectedIsSubsequence(table);
    FilterKeepFirstIff(table, Located, NameOf, r);
  }

  /** Each row written is the normalised form of the first located row with its name. */
  lemma WrittenRowIsFirstOfItsName(table: seq<CensusRecord>, x: PredictiveRow)
    requires x in PredictiveData(table)
    ensures exists i :: FirstWhere(table, Located, NameOf, i) && x == Normalize(table[i])
  {
    var kept := Selected(table);
    var j :| 0 <= j < |kept| && PredictiveData(table)[j] == x;
    SelectedIffFirstOfItsName(table, kept[j]);
  }

  /** The first located row of each name is written, whatever its counts: rows whose
      percentages are missing are not dropped. */
  lemma FirstOfItsNameIsWritten(table: seq<CensusRecord>, i: nat)
    requires FirstWhere(table, Located, NameOf, i)
    ensures Normalize(table[i]) in PredictiveData(table)
  {
    var kept := Selected(table);
    SelectedIffFirstOfItsName(table, table[i]);
    var j :| 0 <= j < |kept| && kept[j] == table[i];
    assert PredictiveData(table)[j] == Normalize(table[i]);
  }

  /** A total of 0 in one year makes that year's two percentages missing, and leaves the
      other year's percentages what they would be with any other total in its place. */
  lemma ZeroTotalGivesMissing(r: CensusRecord, other: string)
    requires Located(r)
    ensures ToNumeric(r.total2016) == Some(0.0) ==>
      Normalize(r).percent65in2016 == None && Normalize(r).percent85in2016 == None &&
      Normalize(r).percent65in2011 == Normalize(r.(total2016 := other)).percent65in2011 &&
      Normalize(r).percent85in2011 == Normalize(r.(total2016 := other)).percent85in2011
    ensures ToNumeric(r.total2011) == Some(0.0) ==>
      Normalize(r).percent65in2011 == None && Normalize(r).percent85in2011 == None &&
      Normalize(r).percent65in2016 == Normalize(r.(total2011 := other)).percent65in2016 &&
      Normalize(r).percent85in2016 == Normalize(r.(total2011 := other)).percent85in2016
  {
  }

  /** The 2011 percentages read only 2011 columns, and the 2016 percentages only 2016 columns. */
  lemma YearsAreIndependent(a: CensusRecord, b: CensusRecord)
    requires Located(a) && Located(b)
    ensures a.count65in2011 == b.count65in2011 && a.count85in2011 == b.count85in2011 && a.total2011 == b.total2011 ==>
      Normalize(a).percent65in2011 == Normalize(b).percent65in2011 && Normalize(a).percent85in2011 == Normalize(b).percent85in2011
    ensures a.count65in2016 == b.count65in2016 && a.count85in2016 == b.count85in2016 && a.total2016 == b.total2016 ==>
      Normalize(a).percent65in2016 == Normalize(b).percent65in2016 && Normalize(a).percent85in2016 == Normalize(b).percent85in2016
  {
  }
}
