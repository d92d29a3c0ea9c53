/** `GeoCoveringH3UDTF`: one row per H3 cell covering a geometry. The
    helper's `coveringH3Cells` it calls is not part of this model and is
    taken as given. */
module GeoCoveringH3Udtf {
  import opened Java
  import opened Udf
  import H3Utils

  const ErrorPrefix: string := "Error in geo_covering_h3: "
  const DefaultResolution: int := 7

  /** The rows `eval(geo, resolution)` emits, or the exception it throws. */
  function Rows(coveringH3Cells: (string, int) -> Result<seq<string>>, geo: Option<string>, resolution: Option<int>): (r: Result<seq<string>>)
    ensures geo.None? || resolution.None? ==> r == Ok([])
    ensures geo.Some? && resolution.Some? && !H3Utils.ValidResolution(resolution.value) ==>
      r == Err(Exception(IllegalArgumentException, Some(H3Utils.ResolutionMsg)))
    ensures geo.Some? && resolution.Some? && H3Utils.ValidResolution(resolution.value) ==>
      var covering := coveringH3Cells(geo.value, resolution.value);
      && (covering.Ok? ==> r == covering)
      && (covering.Err? ==> r == Err(WrapAll(covering.error, ErrorPrefix)))
    ensures r.Err? && r.error.kind != RuntimeException ==>
      && r.error.kind == IllegalArgumentException
      && geo.Some? && resolution.Some? && !H3Utils.ValidResolution(resolution.value)
  {
    if geo.None? || resolution.None? then
      Ok([])
    else if resolution.value < 0 || resolution.value > 15 then
      Throw(IllegalArgumentException, H3Utils.ResolutionMsg)
    else
      match coveringH3Cells(geo.value, resolution.value)
      case Ok(cells) => Ok(cells)
      case Err(e) => Err(WrapAll(e, ErrorPrefix))
  }

  /** `eval(geo, resolution)`: the guards, the helper call, and the
      `collect` loop over its list. */
  method Eval(coveringH3Cells: (string, int) -> Result<seq<string>>, geo: Option<string>, resolution: Option<int>)
    returns (r: Result<seq<string>>)
    ensures r == Rows(coveringH3Cells, geo, resolution)
  {
    if geo.None? || resolution.None? {
      return Ok([]);
    }
    if resolution.value < 0 || resolution.value > 15 {
      return Throw(IllegalArgumentException, H3Utils.ResolutionMsg);
    }
    var covering := coveringH3Cells(geo.value, resolution.value);
    if covering.Err? {
      return Err(WrapAll(covering.error, ErrorPrefix));
    }
    var rows := Collect([], covering.value);
    assert rows == covering.value;
    return Ok(rows);
  }

  /** `eval(geo)`: resolution 7. */
  method EvalDefault(coveringH3Cells: (string, int) -> Result<seq<string>>, geo: Option<string>)
    returns (r: Result<seq<string>>)
    ensures r == Rows(coveringH3Cells, geo, Some(DefaultResolution))
  {
    r := Eval(coveringH3Cells, geo, Some(DefaultResolution));
  }
}
