/** `GeoContainedUDF`: containment of a point, given as numbers or as text,
    or of a second geometry, in a geometry. Null arguments give false. */
module GeoContainedUdf {
  import opened Java
  import opened Libraries
  import opened Udf
  import Spatial4JHelper

  const ErrorPrefix: string := "Error in geo_contained: "
  const InvalidNumberMsg: string := "Invalid latitude or longitude format: "

  /** `eval(Double latitude, Double longitude, String geo)`: every failure
      is rethrown as a RuntimeException. */
  function EvalPoint(lib: Spatial4J, h: Spatial4JHelper.Helper, lat: Option<real>, lon: Option<real>, geo: Option<string>): (r: Result<bool>)
    ensures geo.None? || lat.None? || lon.None? ==> r == Ok(false)
    ensures geo.Some? && lat.Some? && lon.Some? ==>
      var contained := Spatial4JHelper.ContainedPoint(lib, h, geo.value, lat.value, lon.value);
      && (contained.Ok? ==> r == contained)
      && (contained.Err? ==> r == Err(WrapAll(contained.error, ErrorPrefix)))
    ensures r.Err? ==> r.error.kind == RuntimeException
  {
    if geo.None? || lat.None? || lon.None? then
      Ok(false)
    else
      match Spatial4JHelper.ContainedPoint(lib, h, geo.value, lat.value, lon.value)
      case Ok(contained) => Ok(contained)
      case Err(e) => Err(WrapAll(e, ErrorPrefix))
  }

  /** `catch (NumberFormatException e)` around the two `Double.parseDouble`
      calls; nothing else is caught there. */
  function WrapNumberFormat(e: Exception): (w: Exception)
    ensures e.kind == NumberFormatException ==>
      w == Exception(RuntimeException, Some(Concat(InvalidNumberMsg, e.message)))
    ensures e.kind != NumberFormatException ==> w == e
  {
    if e.kind == NumberFormatException then
      Exception(RuntimeException, Some(Concat(InvalidNumberMsg, e.message)))
    else
      e
  }

  /** `eval(String latitude, String longitude, String geo)`: parses the
      latitude, then the longitude, with `parseDouble`, and hands the numbers
      to the Double form. */
  function EvalText(lib: Spatial4J, h: Spatial4JHelper.Helper, parseDouble: string -> Result<real>,
                    lat: Option<string>, lon: Option<string>, geo: Option<string>): (r: Result<bool>)
    ensures lat.None? || lon.None? ==> r == Ok(false)
    // An unparseable latitude is reported even when the longitude is bad too.
    ensures lat.Some? && lon.Some? && parseDouble(lat.value).Err? ==>
      r == Err(WrapNumberFormat(parseDouble(lat.value).error))
    ensures lat.Some? && lon.Some? && parseDouble(lat.value).Ok? && parseDouble(lon.value).Err? ==>
      r == Err(WrapNumberFormat(parseDouble(lon.value).error))
    // Parsed numbers go to the Double form, whose result passes unchanged.
    ensures lat.Some? && lon.Some? && parseDouble(lat.value).Ok? && parseDouble(lon.value).Ok? ==>
      r == EvalPoint(lib, h, Some(parseDouble(lat.value).value), Some(parseDouble(lon.value).value), geo)
  {
    if lat.None? || lon.None? then
      Ok(false)
    else
      match parseDouble(lat.value)
      case Err(e) => Err(WrapNumberFormat(e))
      case Ok(latitude) =>
        match parseDouble(lon.value)
        case Err(e) => Err(WrapNumberFormat(e))
        case Ok(longitude) => EvalPoint(lib, h, Some(latitude), Some(longitude), geo)
  }

  /** A null geometry with parseable coordinates reaches the Double form and
      gives false there. */
  lemma TextWithNullGeoIsFalse(lib: Spatial4J, h: Spatial4JHelper.Helper, parseDouble: string -> Result<real>, lat: string, lon: string)
    requires parseDouble(lat).Ok? && parseDouble(lon).Ok?
    ensures EvalText(lib, h, parseDouble, Some(lat), Some(lon), None) == Ok(false)
  {
  }

  /** `eval(String geo1, String geo2)`: true when geo1 CONTAINS geo2 (the
      method's doc-comment states the opposite direction). */
  function EvalShapes(lib: Spatial4J, h: Spatial4JHelper.Helper, geo1: Option<string>, geo2: Option<string>): (r: Result<bool>)
    ensures geo1.None? || geo2.None? ==> r == Ok(false)
    ensures geo1.Some? && geo2.Some? ==>
      var contained := Spatial4JHelper.Contained(lib, h, geo1.value, geo2.value);
      && (contained.Ok? ==> r == contained)
      && (contained.Err? ==> r == Err(WrapParseFailure(contained.error)))
  {
    if geo1.None? || geo2.None? then
      Ok(false)
    else
      match Spatial4JHelper.Contained(lib, h, geo1.value, geo2.value)
      case Ok(contained) => Ok(contained)
      case Err(e) => Err(WrapParseFailure(e))
  }

  /** The direction of the two-geometry form: true means the first geometry
      contains the second, never the other way round. */
  lemma EvalShapesIsFirstContainsSecond(lib: Spatial4J, h: Spatial4JHelper.Helper, geo1: string, geo2: string)
    requires EvalShapes(lib, h, Some(geo1), Some(geo2)) == Ok(true)
    ensures Spatial4JHelper.DecodeWith(lib, h, geo1).Ok? && Spatial4JHelper.DecodeWith(lib, h, geo2).Ok?
    ensures lib.relate(Spatial4JHelper.DecodeWith(lib, h, geo1).value, Spatial4JHelper.DecodeWith(lib, h, geo2).value) == Contains
  {
  }
}
