/** `GeoIntersectedUDF`: whether two geometries intersect; null gives false. */
module GeoIntersectedUdf {
  import opened Java
  import opened Libraries
  import opened Udf
  import Spatial4JHelper

  /** `eval(geo1, geo2)`. */
  function Eval(lib: Spatial4J, h: Spatial4JHelper.Helper, geo1: Option<string>, geo2: Option<string>): (r: Result<bool>)
    // Null short-circuits before either text is decoded.
    ensures geo1.None? || geo2.None? ==> r == Ok(false)
    ensures geo1.Some? && geo2.Some? ==>
      var intersects := Spatial4JHelper.Intersect(lib, h, geo1.value, geo2.value);
      && (intersects.Ok? ==> r == intersects)
      && (intersects.Err? ==> r == Err(WrapParseFailure(intersects.error)))
  {
    if geo1.None? || geo2.None? then
      Ok(false)
    else
      match Spatial4JHelper.Intersect(lib, h, geo1.value, geo2.value)
      case Ok(intersects) => Ok(intersects)
      case Err(e) => Err(WrapParseFailure(e))
  }

  /** Intersection is symmetric whenever Spatial4J's relation is: swapping
      the arguments gives the same answer. */
  lemma EvalSymmetric(lib: Spatial4J, h: Spatial4JHelper.Helper, geo1: string, geo2: string)
    requires forall a: Shape, b: Shape :: lib.intersects(lib.relate(a, b)) == lib.intersects(lib.relate(b, a))
    requires Spatial4JHelper.DecodeWith(lib, h, geo1).Ok? && Spatial4JHelper.DecodeWith(lib, h, geo2).Ok?
    ensures Eval(lib, h, Some(geo1), Some(geo2)) == Eval(lib, h, Some(geo2), Some(geo1))
  {
  }
}
