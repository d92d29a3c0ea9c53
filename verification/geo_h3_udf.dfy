/** `GeoH3UDF`: the H3 cell of a point, guarded by null, coordinate and
    resolution checks in that order. */
module GeoH3Udf {
  import opened Java
  import opened Libraries
  import opened Udf
  import H3Utils

  /** `eval(lat, lon)`: the guards, then `H3Utils.latLonToCell(lat, lon)`. */
  function Eval(h3: H3Core, lat: Option<real>, lon: Option<real>): (r: Result<Option<string>>)
    ensures lat.None? || lon.None? ==> r == Ok(None)
    ensures r.Err? <==> lat.Some? && lon.Some? && !ValidLatLon(lat.value, lon.value)
    ensures r.Err? ==> r.error == Exception(IllegalArgumentException, Some(CoordinatesMsg))
    ensures r.Ok? && r.value.Some? ==>
      lat.Some? && lon.Some? && r.value.value == h3.latLngToCellAddress(lat.value, lon.value, H3Utils.DefaultResolution)
    ensures lat.Some? && lon.Some? && ValidLatLon(lat.value, lon.value) ==>
      r == Ok(Some(h3.latLngToCellAddress(lat.value, lon.value, 7)))
  {
    if lat.None? || lon.None? then
      Ok(None)
    else if lat.value < -90.0 || lat.value > 90.0 || lon.value < -180.0 || lon.value > 180.0 then
      Throw(IllegalArgumentException, CoordinatesMsg)
    else
      Ok(Some(H3Utils.LatLonToCellDefault(h3, lat.value, lon.value).value))
  }

  /** `eval(lat, lon, resolution)`. */
  function EvalWithResolution(h3: H3Core, lat: Option<real>, lon: Option<real>, resolution: Option<int>): (r: Result<Option<string>>)
    ensures lat.None? || lon.None? || resolution.None? ==> r == Ok(None)
    // The coordinate check fires before the resolution check.
    ensures lat.Some? && lon.Some? && resolution.Some? && !ValidLatLon(lat.value, lon.value) ==>
      r == Err(Exception(IllegalArgumentException, Some(CoordinatesMsg)))
    ensures lat.Some? && lon.Some? && resolution.Some? && ValidLatLon(lat.value, lon.value)
            && !H3Utils.ValidResolution(resolution.value) ==>
      r == Err(Exception(IllegalArgumentException, Some(H3Utils.ResolutionMsg)))
    ensures r.Ok? && r.value.Some? ==>
      && lat.Some? && lon.Some? && resolution.Some?
      && ValidLatLon(lat.value, lon.value) && H3Utils.ValidResolution(resolution.value)
      && r.value.value == h3.latLngToCellAddress(lat.value, lon.value, resolution.value)
    ensures r.Ok? <==>
      (lat.None? || lon.None? || resolution.None? ||
       (ValidLatLon(lat.value, lon.value) && H3Utils.ValidResolution(resolution.value)))
    ensures lat.Some? && lon.Some? && resolution.Some?
            && ValidLatLon(lat.value, lon.value) && H3Utils.ValidResolution(resolution.value) ==>
      r == Ok(Some(h3.latLngToCellAddress(lat.value, lon.value, resolution.value)))
  {
    if lat.None? || lon.None? || resolution.None? then
      Ok(None)
    else if lat.value < -90.0 || lat.value > 90.0 || lon.value < -180.0 || lon.value > 180.0 then
      Throw(IllegalArgumentException, CoordinatesMsg)
    else if resolution.value < 0 || resolution.value > 15 then
      Throw(IllegalArgumentException, H3Utils.ResolutionMsg)
    else
      Ok(Some(H3Utils.LatLonToCell(h3, lat.value, lon.value, resolution.value).value))
  }

  /** The two-argument form is the three-argument form at resolution 7. */
  lemma DefaultResolutionIsSeven(h3: H3Core, lat: Option<real>, lon: Option<real>)
    ensures Eval(h3, lat, lon) == EvalWithResolution(h3, lat, lon, Some(7))
  {
  }
}
