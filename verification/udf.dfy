/** What the Flink function classes share: the coordinate guard, how they
    turn exceptions into RuntimeExceptions, the rows a table function emits
    through `collect`, and `isDeterministic`. */
module Udf {
  import opened Java
  import opened Libraries
  import Spatial4JHelper

  const FailedToParseMsg: string := "Failed to parse geometry: "
  const CoordinatesMsg: string := "lat or lon are out of boundaries for -90 to 90 and -180 to 180"

  /** The inclusive latitude and longitude ranges the point functions accept. */
  predicate ValidLatLon(lat: real, lon: real)
  {
    -90.0 <= lat <= 90.0 && -180.0 <= lon <= 180.0
  }

  /** `catch (GeometryParseException e)` rethrowing it as a RuntimeException
      prefixed "Failed to parse geometry: "; any other exception escapes as is. */
  function WrapParseFailure(e: Exception): (w: Exception)
    ensures e.kind == GeometryParseException ==>
      w == Exception(RuntimeException, Some(Concat(FailedToParseMsg, e.message)))
    ensures e.kind != GeometryParseException ==> w == e
  {
    if e.kind == GeometryParseException then
      Exception(RuntimeException, Some(Concat(FailedToParseMsg, e.message)))
    else
      e
  }

  /** The same catch followed by `catch (Exception e)` rethrowing everything
      else prefixed by `errorPrefix`: nothing escapes unwrapped. */
  function WrapAll(e: Exception, errorPrefix: string): (w: Exception)
    ensures w.kind == RuntimeException
    ensures e.kind == GeometryParseException ==> w == WrapParseFailure(e)
    ensures e.kind != GeometryParseException ==> w.message == Some(Concat(errorPrefix, e.message))
  {
    if e.kind == GeometryParseException then
      WrapParseFailure(e)
    else
      Exception(RuntimeException, Some(Concat(errorPrefix, e.message)))
  }

  /** `for (String item : items) collect(item);` appending to the rows
      emitted so far: every item, once, in list order. */
  method Collect(emitted: seq<string>, items: seq<string>) returns (rows: seq<string>)
    ensures |rows| == |emitted| + |items|
    ensures rows[..|emitted|] == emitted
    ensures forall i :: 0 <= i < |items| ==> rows[|emitted| + i] == items[i]
  {
    rows := emitted;
    var i := 0;
    while i < |items|
      invariant 0 <= i <= |items|
      invariant rows == emitted + items[..i]
    {
      rows := rows + [items[i]];
      i := i + 1;
    }
  }

  /** `open(context)` of every function backed by a helper: a new helper,
      then `configure(null)`. The helper reads with the library's default
      flags and is consistent with them. */
  function OpenHelper(defaults: FactoryFlags): (h: Spatial4JHelper.Helper)
    ensures Spatial4JHelper.Valid(h)
    ensures h.factory == defaults
    ensures h.deserializer.context.geo == defaults.geo
    ensures h.deserializer.context.normWrapLongitude == defaults.normWrapLongitude
  {
    Spatial4JHelper.Configure(Spatial4JHelper.NewHelper(defaults), None)
  }

  /** The scalar function classes that override `isDeterministic`. */
  datatype ScalarFunction = GeoHashUDF | GeoH3UDF | GeoContainedUDF | GeoIntersectedUDF | GeoAreaUDF

  /** `isDeterministic()`: every one of them declares itself deterministic,
      which the model bears out by giving each `eval` as a function of its
      arguments, the helper state and the library oracles. */
  function IsDeterministic(f: ScalarFunction): (r: bool)
    ensures r
  {
    match f
    case GeoHashUDF => true
    case GeoH3UDF => true
    case GeoContainedUDF => true
    case GeoIntersectedUDF => true
    case GeoAreaUDF => true
  }
}
