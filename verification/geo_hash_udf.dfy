/** `GeoHashUDF`: the geohash of a point, guarded by null, coordinate and
    precision checks in that order. */
module GeoHashUdf {
  import opened Java
  import opened Libraries
  import opened Udf

  const PrecisionMsg: string := "Precision must be between 1 and 12"

  /** The precision the two-argument form's doc-comment promises; the
      library's own default is what it actually gets. */
  const DocumentedDefaultPrecision: int := 12

  /** Geohash precisions run from 1 to 12 characters inclusive. */
  predicate ValidPrecision(precision: int)
  {
    1 <= precision <= 12
  }

  /** `eval(lat, lon)`. */
  function Eval(gh: Geohash, lat: Option<real>, lon: Option<real>): (r: Result<Option<string>>)
    ensures lat.None? || lon.None? ==> r == Ok(None)
    ensures r.Err? <==> lat.Some? && lon.Some? && !ValidLatLon(lat.value, lon.value)
    ensures r.Err? ==> r.error == Exception(IllegalArgumentException, Some(CoordinatesMsg))
    ensures r.Ok? && r.value.Some? ==>
      lat.Some? && lon.Some? && r.value.value == gh.encodeLatLonDefault(lat.value, lon.value)
    ensures lat.Some? && lon.Some? && ValidLatLon(lat.value, lon.value) ==>
      r == Ok(Some(gh.encodeLatLonDefault(lat.value, lon.value)))
  {
    if lat.None? || lon.None? then
      Ok(None)
    else if lat.value < -90.0 || lat.value > 90.0 || lon.value < -180.0 || lon.value > 180.0 then
      Throw(IllegalArgumentException, CoordinatesMsg)
    else
      Ok(Some(gh.encodeLatLonDefault(lat.value, lon.value)))
  }

  /** `eval(lat, lon, precision)`. */
  function EvalWithPrecision(gh: Geohash, lat: Option<real>, lon: Option<real>, precision: Option<int>): (r: Result<Option<string>>)
    // A null argument wins over every range problem.
    ensures lat.None? || lon.None? || precision.None? ==> r == Ok(None)
    // The coordinate check fires before the precision check.
    ensures lat.Some? && lon.Some? && precision.Some? && !ValidLatLon(lat.value, lon.value) ==>
      r == Err(Exception(IllegalArgumentException, Some(CoordinatesMsg)))
    ensures lat.Some? && lon.Some? && precision.Some? && ValidLatLon(lat.value, lon.value) && !ValidPrecision(precision.value) ==>
      r == Err(Exception(IllegalArgumentException, Some(PrecisionMsg)))
    ensures r.Ok? && r.value.Some? ==>
      && lat.Some? && lon.Some? && precision.Some?
      && ValidLatLon(lat.value, lon.value) && ValidPrecision(precision.value)
      && r.value.value == gh.encodeLatLon(lat.value, lon.value, precision.value)
    ensures r.Ok? <==>
      (lat.None? || lon.None? || precision.None? ||
       (ValidLatLon(lat.value, lon.value) && ValidPrecision(precision.value)))
    ensures lat.Some? && lon.Some? && precision.Some?
            && ValidLatLon(lat.value, lon.value) && ValidPrecision(precision.value) ==>
      r == Ok(Some(gh.encodeLatLon(lat.value, lon.value, precision.value)))
  {
    if lat.None? || lon.None? || precision.None? then
      Ok(None)
    else if lat.value < -90.0 || lat.value > 90.0 || lon.value < -180.0 || lon.value > 180.0 then
      Throw(IllegalArgumentException, CoordinatesMsg)
    else if precision.value < 1 || precision.value > 12 then
      Throw(IllegalArgumentException, PrecisionMsg)
    else
      Ok(Some(gh.encodeLatLon(lat.value, lon.value, precision.value)))
  }

  /** When the library's default precision is 12, as the doc-comment says,
      the two-argument form is the three-argument form at precision 12. */
  lemma DefaultPrecisionIsTwelve(gh: Geohash, lat: Option<real>, lon: Option<real>)
    requires forall a: real, b: real :: gh.encodeLatLonDefault(a, b) == gh.encodeLatLon(a, b, DocumentedDefaultPrecision)
    ensures Eval(gh, lat, lon) == EvalWithPrecision(gh, lat, lon, Some(DocumentedDefaultPrecision))
  {
  }
}
