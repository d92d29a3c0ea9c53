/** `GeoCoveringGeoHashesUDTF`: one row per geohash covering a geometry. */
module GeoCoveringGeoHashesUdtf {
  import opened Java
  import opened Libraries
  import opened Udf
  import Spatial4JHelper
  import GeoHashUdf

  const ErrorPrefix: string := "Error in geo_covering_geohashes: "
  const DefaultPrecision: int := 7

  /** The rows `eval(geo, precision)` emits, or the exception it throws. */
  function Rows(lib: Spatial4J, gh: Geohash, h: Spatial4JHelper.Helper, geo: Option<string>, precision: Option<int>): (r: Result<seq<string>>)
    // A null argument emits nothing and throws nothing.
    ensures geo.None? || precision.None? ==> r == Ok([])
    // A bad precision throws unwrapped, whatever the geometry text is.
    ensures geo.Some? && precision.Some? && !GeoHashUdf.ValidPrecision(precision.value) ==>
      r == Err(Exception(IllegalArgumentException, Some(GeoHashUdf.PrecisionMsg)))
    ensures geo.Some? && precision.Some? && GeoHashUdf.ValidPrecision(precision.value) ==>
      var covering := Spatial4JHelper.CoveringGeoHashes(lib, gh, h, geo.value, precision.value);
      && (covering.Ok? ==> r == covering)
      && (covering.Err? ==> r == Err(WrapAll(covering.error, ErrorPrefix)))
    // Everything thrown past the precision check is a RuntimeException.
    ensures r.Err? && r.error.kind != RuntimeException ==>
      && r.error.kind == IllegalArgumentException
      && geo.Some? && precision.Some? && !GeoHashUdf.ValidPrecision(precision.value)
  {
    if geo.None? || precision.None? then
      Ok([])
    else if precision.value < 1 || precision.value > 12 then
      Throw(IllegalArgumentException, GeoHashUdf.PrecisionMsg)
    else
      match Spatial4JHelper.CoveringGeoHashes(lib, gh, h, geo.value, precision.value)
      case Ok(geohashes) => Ok(geohashes)
      case Err(e) => Err(WrapAll(e, ErrorPrefix))
  }

  /** `eval(geo, precision)`: the guards, the helper call, and the
      `collect` loop over its list. */
  method Eval(lib: Spatial4J, gh: Geohash, h: Spatial4JHelper.Helper, geo: Option<string>, precision: Option<int>)
    returns (r: Result<seq<string>>)
    ensures r == Rows(lib, gh, h, geo, precision)
  {
    if geo.None? || precision.None? {
      return Ok([]);
    }
    if precision.value < 1 || precision.value > 12 {
      return Throw(IllegalArgumentException, GeoHashUdf.PrecisionMsg);
    }
    var covering := Spatial4JHelper.CoveringGeoHashes(lib, gh, h, geo.value, precision.value);
    if covering.Err? {
      return Err(WrapAll(covering.error, ErrorPrefix));
    }
    var rows := Collect([], covering.value);
    assert rows == covering.value;
    return Ok(rows);
  }

  /** `eval(geo)`: precision 7. */
  method EvalDefault(lib: Spatial4J, gh: Geohash, h: Spatial4JHelper.Helper, geo: Option<string>)
    returns (r: Result<seq<string>>)
    ensures r == Rows(lib, gh, h, geo, Some(DefaultPrecision))
  {
    r := Eval(lib, gh, h, geo, Some(DefaultPrecision));
  }

  /** A geometry text that cannot be decoded surfaces as a RuntimeException
      whose message is "Failed to parse geometry: " followed by the parse
      error's message, which itself ends with the text. */
  lemma ParseFailureNamesTheText(lib: Spatial4J, gh: Geohash, h: Spatial4JHelper.Helper, geo: string, precision: int)
    requires GeoHashUdf.ValidPrecision(precision)
    requires Spatial4JHelper.DecodeWith(lib, h, geo).Err?
    requires Spatial4JHelper.DecodeWith(lib, h, geo).error.kind == GeometryParseException
    ensures var r := Rows(lib, gh, h, Some(geo), Some(precision));
      && r.Err? && r.error.kind == RuntimeException && r.error.message.Some?
      && r.error.message.value[..|FailedToParseMsg|] == FailedToParseMsg
      && EndsWith(r.error.message.value, geo)
  {
    var e := Spatial4JHelper.DecodeWith(lib, h, geo).error;
    var m := e.message.value;
    assert Concat(FailedToParseMsg, e.message) == FailedToParseMsg + m;
    assert EndsWith(m, geo);
    assert (FailedToParseMsg + m)[|FailedToParseMsg + m| - |geo|..] == m[|m| - |geo|..];
  }
}
