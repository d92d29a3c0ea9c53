/** `GeoAreaUDF`: the area of a geometry; null or blank text gives null. */
module GeoAreaUdf {
  import opened Java
  import opened Libraries
  import opened Udf
  import Spatial4JHelper

  /** `eval(geo)`. */
  function Eval(lib: Spatial4J, h: Spatial4JHelper.Helper, geo: Option<string>): (r: Result<Option<real>>)
    // Null, empty and whitespace-only text is never decoded.
    ensures geo.None? || IsBlank(geo.value) ==> r == Ok(None)
    ensures geo.Some? && !IsBlank(geo.value) ==>
      var area := Spatial4JHelper.Area(lib, h, geo.value);
      && (area.Ok? ==> r == Ok(Some(area.value)))
      && (area.Err? ==> r == Err(WrapParseFailure(area.error)))
  {
    if geo.None? then
      Ok(None)
    else
      TrimEmptyIffBlank(geo.value);
      if |Trim(geo.value)| == 0 then
        Ok(None)
      else
        match Spatial4JHelper.Area(lib, h, geo.value)
        case Ok(area) => Ok(Some(area))
        case Err(e) => Err(WrapParseFailure(e))
  }

  /** Text that neither reader accepts makes `eval` throw a RuntimeException. */
  lemma InvalidGeometryThrows(lib: Spatial4J, h: Spatial4JHelper.Helper)
    requires lib.geoJson(h.deserializer.context, "INVALID GEOMETRY").Failed?
    requires lib.wkt(h.deserializer.context, "INVALID GEOMETRY").Failed?
    ensures var r := Eval(lib, h, Some("INVALID GEOMETRY")); r.Err? && r.error.kind == RuntimeException
  {
  }
}
