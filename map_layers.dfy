/** The parts of the two map generators that do not depend on the browser: the missing-value
    mask on the census file, the heat-map points, the actual-data circle markers, the GeoJSON
    search features and the facility colour rule. Both generators share this code. */
module MapLayers {
  import opened Cells
  import opened Frames
  import Census
  import SingleYear
  import Facilities

  /** One row of `data/filtered_census_data.csv` as the generators read it back. A missing
      name (an empty cell) is the empty string. */
  datatype CensusPoint = CensusPoint(
    name: string, percent65: Option<real>, percent85: Option<real>,
    latitude: Option<real>, longitude: Option<real>)

  /** A row that survived `dropna` on the five columns, with its values unwrapped. */
  datatype PlotRow = PlotRow(name: string, percent65: real, percent85: real, latitude: real, longitude: real)

  /** The colour scale's range; heat weights and marker colours use values clamped to it. */
  const VMin: real := 0.0
  const VMax: real := 40.0

  /** `dropna(subset=[Latitude, Longitude, Geographic name, col65, col85])`. */
  predicate Plotted(r: CensusPoint)
  {
    r.latitude.Some? && r.longitude.Some? && r.name != "" && r.percent65.Some? && r.percent85.Some?
  }

  function AsPlotRow(r: CensusPoint): PlotRow
    requires Plotted(r)
  {
    PlotRow(r.name, r.percent65.value, r.percent85.value, r.latitude.value, r.longitude.value)
  }

  function AsPlotRows(rows: seq<CensusPoint>): (out: seq<PlotRow>)
    requires forall r :: r in rows ==> Plotted(r)
    ensures |out| == |rows|
    ensures forall i :: 0 <= i < |rows| ==> out[i] == AsPlotRow(rows[i])
  {
    if rows == [] then [] else [AsPlotRow(rows[0])] + AsPlotRows(rows[1..])
  }

  /** The table every layer is built from. */
  function PlotTable(table: seq<CensusPoint>): seq<PlotRow>
  {
    AsPlotRows(Filter(table, Plotted))
  }

  /** A row reaches the layers exactly when none of the five columns is missing; the order
      of the file is kept. */
  lemma PlotTableRows(table: seq<CensusPoint>)
    ensures Subseq(Filter(table, Plotted), table)
    ensures forall r :: r in Filter(table, Plotted) <==> r in table && Plotted(r)
    ensures |PlotTable(table)| == |Filter(table, Plotted)|
  {
    FilterIsSubseq(table, Plotted);
  }

  /** A row of the single-year file as it is read back: the coordinates are always present. */
  function ReadBack(r: SingleYear.FilteredRow): CensusPoint
  {
    CensusPoint(r.name, r.percent65, r.percent85, Some(r.latitude), Some(r.longitude))
  }

  /** A raw census row that passed the coordinate filters reaches the map exactly when it has
      a name, both 2016 counts are numbers and the 2016 total is a non-zero number. */
  lemma LocatedRowIsPlotted(r: Census.CensusRecord)
    requires Census.Located(r)
    ensures Plotted(ReadBack(SingleYear.Normalize(r))) <==>
      r.name != "" && ToNumeric(r.count65in2016).Some? && ToNumeric(r.count85in2016).Some? &&
      ToNumeric(r.total2016).Some? && ToNumeric(r.total2016).value != 0.0
  {
  }

  /** `min(max(p65, vmin), vmax)`: the heat weight and the marker colour input. */
  function HeatWeight(percent65: real): real
  {
    Clip(percent65, VMin, VMax)
  }

  datatype HeatPoint = HeatPoint(latitude: real, longitude: real, weight: real)

  /** The heat-map list comprehension: one weighted point per row. */
  function HeatData(rows: seq<PlotRow>): (heat: seq<HeatPoint>)
    ensures |heat| == |rows|
    ensures forall i :: 0 <= i < |rows| ==>
      heat[i].latitude == rows[i].latitude && heat[i].longitude == rows[i].longitude &&
      VMin <= heat[i].weight <= VMax &&
      (VMin <= rows[i].percent65 <= VMax ==> heat[i].weight == rows[i].percent65) &&
      (rows[i].percent65 < VMin ==> heat[i].weight == VMin) &&
      (rows[i].percent65 > VMax ==> heat[i].weight == VMax)
  {
    seq(|rows|, i requires 0 <= i < |rows| =>
      HeatPoint(rows[i].latitude, rows[i].longitude, HeatWeight(rows[i].percent65)))
  }

  /** What the page's script reads from a marker's options. Predicted markers carry the
      actual 65+ value of the merged row, missing when the name had no match. */
  datatype MarkerOptions =
    | Actual(percent65: real, percent85: real)
    | Predicted(predicted65: real, predicted85: real, actual65: Option<real>)

  /** A circle marker: its location, the value its colour is taken from, and its options. */
  datatype CircleMarker = CircleMarker(latitude: real, longitude: real, colourValue: real, options: MarkerOptions)

  /** The marker loop for the actual data: one circle marker per row, in row order, coloured
      by the same clamped value as the heat map. */
  method BuildActualMarkers(rows: seq<PlotRow>) returns (markers: seq<CircleMarker>)
    ensures |markers| == |rows|
    ensures forall i :: 0 <= i < |rows| ==>
      markers[i].latitude == rows[i].latitude && markers[i].longitude == rows[i].longitude &&
      markers[i].colourValue == HeatData(rows)[i].weight &&
      markers[i].options == Actual(rows[i].percent65, rows[i].percent85)
  {
    markers := [];
    var i := 0;
    while i < |rows|
      invariant 0 <= i <= |rows|
      invariant |markers| == i
      invariant forall j :: 0 <= j < i ==>
        markers[j] == CircleMarker(rows[j].latitude, rows[j].longitude, HeatWeight(rows[j].percent65),
          Actual(rows[j].percent65, rows[j].percent85))
    {
      var row := rows[i];
      var marker := CircleMarker(row.latitude, row.longitude, HeatWeight(row.percent65),
        Actual(row.percent65, row.percent85));
      markers := markers + [marker];
      i := i + 1;
    }
  }

  /** A facility marker: its location, icon colour and popup text parts. */
  datatype FacilityMarker = FacilityMarker(
    latitude: real, longitude: real, colour: string, name: string, facilityType: Option<string>)

  /** The healthcare marker loop: one marker per facility, in row order, coloured by type. */
  method BuildFacilityMarkers(rows: seq<Facilities.Facility>) returns (markers: seq<FacilityMarker>)
    ensures |markers| == |rows|
    ensures forall i :: 0 <= i < |rows| ==>
      markers[i].latitude == rows[i].latitude && markers[i].longitude == rows[i].longitude &&
      markers[i].colour == FacilityColor(rows[i].facilityType) &&
      markers[i].name == rows[i].facilityName && markers[i].facilityType == rows[i].facilityType
  {
    markers := [];
    var i := 0;
    while i < |rows|
      invariant 0 <= i <= |rows|
      invariant |markers| == i
      invariant forall j :: 0 <= j < i ==>
        markers[j] == FacilityMarker(rows[j].latitude, rows[j].longitude,
          FacilityColor(rows[j].facilityType), rows[j].facilityName, rows[j].facilityType)
    {
      var row := rows[i];
      markers := markers + [FacilityMarker(row.latitude, row.longitude,
        FacilityColor(row.facilityType), row.facilityName, row.facilityType)];
      i := i + 1;
    }
  }

  // ----- GeoJSON search layer -----

  /** A GeoJSON Point: its position holds longitude first, then latitude (section 3.1.1 of
      RFC 7946). */
  datatype Geometry = Point(coordinates: seq<real>)

  datatype Properties = Properties(name: string, lat: real, lon: real)

  datatype Feature = Feature(properties: Properties, geometry: Geometry)

  datatype FeatureCollection = FeatureCollection(features: seq<Feature>)

  /** Longitude of a position, read as section 3.1.1 of RFC 7946 lays it out. */
  function PositionLongitude(position: seq<real>): real
    requires |position| >= 2
  {
    position[0]
  }

  /** Latitude of a position, read as section 3.1.1 of RFC 7946 lays it out. */
  function PositionLatitude(position: seq<real>): real
    requires |position| >= 2
  {
    position[1]
  }

  /** The feature for one row: named after the row, positioned at the row's coordinates. */
  function PointFeature(row: PlotRow): (f: Feature)
    ensures |f.geometry.coordinates| == 2
    ensures PositionLatitude(f.geometry.coordinates) == row.latitude
    ensures PositionLongitude(f.geometry.coordinates) == row.longitude
    ensures f.properties == Properties(row.name, row.latitude, row.longitude)
  {
    Feature(Properties(row.name, row.latitude, row.longitude), Point([row.longitude, row.latitude]))
  }

  /** The feature loop: one Point feature per row, in row order; a reader following RFC 7946
      finds each row's own latitude and longitude, the same as in the feature's properties. */
  method BuildFeatures(rows: seq<PlotRow>) returns (collection: FeatureCollection)
    ensures |collection.features| == |rows|
    ensures forall i :: 0 <= i < |rows| ==>
      var f := collection.features[i];
      |f.geometry.coordinates| == 2 &&
      f.properties.name == rows[i].name &&
      PositionLatitude(f.geometry.coordinates) == rows[i].latitude == f.properties.lat &&
      PositionLongitude(f.geometry.coordinates) == rows[i].longitude == f.properties.lon
  {
    var features: seq<Feature> := [];
    var i := 0;
    while i < |rows|
      invariant 0 <= i <= |rows|
      invariant |features| == i
      invariant forall j :: 0 <= j < i ==> features[j] == PointFeature(rows[j])
    {
      features := features + [PointFeature(rows[i])];
      i := i + 1;
    }
    collection := FeatureCollection(features);
  }

  // ----- Facility colours -----

  /** `part` occurs in `text` starting at index `i`. */
  predicate OccursAt(text: string, part: string, i: int)
  {
    0 <= i <= |text| - |part| && text[i..i + |part|] == part
  }

  /** `part in text` for Python strings. */
  predicate Contains(text: string, part: string)
  {
    exists i | 0 <= i <= |text| - |part| :: OccursAt(text, part, i)
  }

  predicate IsHospital(text: string)
  {
    Contains(text, "Hospitals") || Contains(text, "acute hospital")
  }

  predicate IsCareHome(text: string)
  {
    Contains(text, "Nursing") || Contains(text, "Residential Care")
  }

  /** `get_facility_color`: hospitals first, then nursing and residential care, else beige.
      A type that is not a string is treated as the empty string. */
  function FacilityColor(facilityType: Option<string>): (colour: string)
    ensures var text := if facilityType.Some? then facilityType.value else "";
      && (colour == "lightred" <==> IsHospital(text))
      && (colour == "lightblue" <==> !IsHospital(text) && IsCareHome(text))
      && (colour == "beige" <==> !IsHospital(text) && !IsCareHome(text))
  {
    var text := if facilityType.Some? then facilityType.value else "";
    if IsHospital(text) then "lightred"
    else if IsCareHome(text) then "lightblue"
    else "beige"
  }

  /** A text lacking a character of `part` cannot contain `part`. */
  lemma MissingCharacter(text: string, part: string, c: char)
    requires c in part && forall i :: 0 <= i < |text| ==> text[i] != c
    ensures !Contains(text, part)
  {
    var k :| 0 <= k < |part| && part[k] == c;
    forall i | 0 <= i <= |text| - |part|
      ensures !OccursAt(text, part, i)
    {
      assert text[i..i + |part|][k] == text[i + k];
    }
  }

  /** The hospital test wins over the nursing test when a type mentions both. */
  lemma HospitalBeforeNursing(text: string)
    requires IsHospital(text) && IsCareHome(text)
    ensures FacilityColor(Some(text)) == "lightred"
    ensures FacilityColor(Some(text)) != "lightblue"
  {
  }

  /** Such types exist: "Nursing Hospitals" mentions both and is light red. */
  lemma NursingHospitalsIsLightRed()
    ensures IsHospital("Nursing Hospitals") && IsCareHome("Nursing Hospitals")
    ensures FacilityColor(Some("Nursing Hospitals")) == "lightred"
  {
    assert OccursAt("Nursing Hospitals", "Hospitals", 8);
    assert OccursAt("Nursing Hospitals", "Nursing", 0);
  }

  /** A type with none of the letters 'H', 'p', 'N', 'R' matches neither test and gives beige. */
  lemma NoMarkerLettersIsBeige(text: string)
    requires forall i :: 0 <= i < |text| ==>
      text[i] != 'H' && text[i] != 'p' && text[i] != 'N' && text[i] != 'R'
    ensures FacilityColor(Some(text)) == "beige"
  {
    MissingCharacter(text, "Hospitals", 'H');
    MissingCharacter(text, "acute hospital", 'p');
    MissingCharacter(text, "Nursing", 'N');
    MissingCharacter(text, "Residential Care", 'R');
  }

  /** A missing facility type gives beige, the same as an empty one. */
  lemma MissingTypeIsBeige()
    ensures FacilityColor(None) == "beige"
    ensures FacilityColor(Some("")) == "beige"
  {
    NoMarkerLettersIsBeige("");
  }

  /** The hospital type of the Open Database of Healthcare Facilities is light red. */
  lemma HospitalsAreLightRed()
    ensures FacilityColor(Some("Hospitals")) == "lightred"
  {
    assert OccursAt("Hospitals", "Hospitals", 0);
  }

  /** The nursing and residential care type is light blue. */
  lemma NursingIsLightBlue()
    ensures FacilityColor(Some("Nursing and residential care facilities")) == "lightblue"
  {
    var nursing := "Nursing and residential care facilities";
    assert OccursAt(nursing, "Nursing", 0);
    MissingCharacter(nursing, "Hospitals", 'H');
    MissingCharacter(nursing, "acute hospital", 'p');
  }

  /** The ambulatory care type matches neither test and is beige. */
  lemma AmbulatoryIsBeige()
    ensures FacilityColor(Some("Ambulatory health care services")) == "beige"
  {
    NoMarkerLettersIsBeige("Ambulatory health care services");
  }
}
