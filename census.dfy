/** What the two census normalisers share: the raw record of `data/census_data.csv`,
    the zero-total-as-missing percentage rule and the coordinate filter. */
module Census {
  import opened Cells

  /** One row of the census file, restricted to the columns the normalisers select.
      Every cell is still the raw CSV text. */
  datatype CensusRecord = CensusRecord(
    name: string,
    count65in2016: string, count85in2016: string, total2016: string,
    count65in2011: string, count85in2011: string, total2011: string,
    latitude: string, longitude: string)

  /** A total of 0 is replaced by a missing value before dividing. */
  function MissingIfZero(total: Option<real>): (r: Option<real>)
    ensures r.Some? <==> total.Some? && total.value != 0.0
    ensures r.Some? ==> r == total
  {
    if total == Some(0.0) then None else total
  }

  /** `count / total * 100` over columns that may be missing: a missing operand, or a zero
      total, gives a missing percentage instead of a division error or an infinity. */
  function Percent(count: Option<real>, total: Option<real>): (r: Option<real>)
    ensures r.Some? <==> count.Some? && total.Some? && total.value != 0.0
    ensures r.Some? ==> r.value * total.value == 100.0 * count.value
  {
    match (count, MissingIfZero(total))
    case (Some(c), Some(t)) => Some(c / t * 100.0)
    case _ => None
  }

  /** The percentage of a (count, total) pair of raw cells, after numeric coercion. */
  function CellPercent(count: string, total: string): Option<real>
  {
    Percent(ToNumeric(count), ToNumeric(total))
  }

  /** First coordinate mask over a census row. */
  predicate NumericCoordinates(r: CensusRecord)
  {
    NumericPair(r.latitude, r.longitude)
  }

  /** Second coordinate mask over a census row. */
  predicate NonZeroCoordinates(r: CensusRecord)
  {
    NonZeroPair(r.latitude, r.longitude)
  }

  /** The two masks together: the row has a usable position. */
  predicate Located(r: CensusRecord)
  {
    NumericCoordinates(r) && NonZeroCoordinates(r)
  }

  /** A row survives the coordinate filters exactly when both coordinates are numbers and
      neither is 0; a single zero coordinate is enough to drop it, not only the origin. */
  lemma LocatedMeans(r: CensusRecord)
    ensures Located(r) <==>
      exists lat: real, lon: real :: ToNumeric(r.latitude) == Some(lat) && ToNumeric(r.longitude) == Some(lon)
        && lat != 0.0 && lon != 0.0
  {
    if Located(r) {
      var lat, lon := ToNumeric(r.latitude).value, ToNumeric(r.longitude).value;
      assert ToNumeric(r.latitude) == Some(lat) && ToNumeric(r.longitude) == Some(lon);
    }
  }

  function Latitude(r: CensusRecord): real
    requires Located(r)
  {
    ToNumeric(r.latitude).value
  }

  function Longitude(r: CensusRecord): real
    requires Located(r)
  {
    ToNumeric(r.longitude).value
  }

  function NameOf(r: CensusRecord): string
  {
    r.name
  }
}
