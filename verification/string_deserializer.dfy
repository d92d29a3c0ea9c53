/** `Spatial4jStringDeserializer`: turns text into a shape by trying the
    GeoJSON reader first and the WKT reader second. */
module StringDeserializer {
  import opened Java
  import opened Libraries

  const UnableToDecodeMsg: string := "Unable to decode shape: "
  const ModelDoesNotSupportShapeMsg: string := "Spherical model does not support shape: "

  /** The phrase whose presence in an UnsupportedOperationException's message
      makes the GeoJSON rejection final. */
  const UnsupportedShapePhrase: string := "Unsupported shape"

  /** A deserializer is built over one spatial context; both readers it
      creates read under that context. */
  datatype Deserializer = Deserializer(context: SpatialContext)

  /** The GeoJSON reader rejected the shape kind: decoding stops here. */
  predicate RejectsShape(o: ReadOutcome)
  {
    o.Unsupported? && o.message.Some? && ContainsSubstring(o.message.value, UnsupportedShapePhrase)
  }

  /** The GeoJSON outcomes after which the WKT reader is tried. */
  predicate FallsThrough(o: ReadOutcome)
  {
    || o.ReadNull?
    || o.Failed?
    || (o.Unsupported? && o.message.Some? && !ContainsSubstring(o.message.value, UnsupportedShapePhrase))
  }

  /** The parse error thrown with the given prefix. */
  function ParseError(prefix: string, text: string): Exception
  {
    Exception(GeometryParseException, Some(prefix + text))
  }

  /** `getSpatial4JShapeFromString`. An UnsupportedOperationException whose
      message is null makes `getMessage().contains` throw a
      NullPointerException out of the catch block; that escape is kept. */
  function Decode(lib: Spatial4J, d: Deserializer, text: string): (r: Result<Shape>)
    // Success comes from GeoJSON when it produced a shape, otherwise from WKT
    // and only after a GeoJSON outcome that falls through.
    ensures r.Ok? <==>
      || lib.geoJson(d.context, text).Read?
      || (FallsThrough(lib.geoJson(d.context, text)) && lib.wkt(d.context, text).Read?)
    ensures lib.geoJson(d.context, text).Read? ==> r.value == lib.geoJson(d.context, text).shape
    ensures r.Ok? && !lib.geoJson(d.context, text).Read? ==> r.value == lib.wkt(d.context, text).shape
    // The only failures are parse errors and the null-message escape.
    ensures r.Err? ==> r.error.kind in {GeometryParseException, NullPointerException}
    ensures (r.Err? && r.error.kind == NullPointerException) <==> lib.geoJson(d.context, text) == Unsupported(None)
    // A parse error names its cause first and ends with the input text.
    ensures r.Err? && r.error.kind == GeometryParseException ==>
      && r.error.message.Some?
      && EndsWith(r.error.message.value, text)
      && (r.error == ParseError(ModelDoesNotSupportShapeMsg, text) <==> RejectsShape(lib.geoJson(d.context, text)))
      && (r.error == ParseError(UnableToDecodeMsg, text) <==> FallsThrough(lib.geoJson(d.context, text)))
  {
    var json := lib.geoJson(d.context, text);
    if json.Read? then
      Ok(json.shape)
    else if json.Unsupported? && json.message.None? then
      Err(Exception(NullPointerException, None))
    else if RejectsShape(json) then
      Err(ParseError(ModelDoesNotSupportShapeMsg, text))
    else
      var wkt := lib.wkt(d.context, text);
      if wkt.Read? then Ok(wkt.shape) else Err(ParseError(UnableToDecodeMsg, text))
  }

  /** A shape from the GeoJSON reader is returned as is: whatever the WKT
      reader would make of the same text does not matter. */
  lemma GeoJsonShapeWins(lib: Spatial4J, wkt: (SpatialContext, string) -> ReadOutcome, d: Deserializer, text: string)
    requires lib.geoJson(d.context, text).Read?
    ensures Decode(lib, d, text) == Ok(lib.geoJson(d.context, text).shape)
    ensures Decode(lib.(wkt := wkt), d, text) == Decode(lib, d, text)
  {
  }

  /** A GeoJSON rejection of the shape kind is final: the WKT reader is not
      consulted. */
  lemma RejectionIsFinal(lib: Spatial4J, wkt: (SpatialContext, string) -> ReadOutcome, d: Deserializer, text: string)
    requires RejectsShape(lib.geoJson(d.context, text))
    ensures Decode(lib, d, text) == Err(ParseError(ModelDoesNotSupportShapeMsg, text))
    ensures Decode(lib.(wkt := wkt), d, text) == Decode(lib, d, text)
  {
  }

  /** After a GeoJSON outcome that falls through, the result is exactly what
      the WKT reader decides, whichever of those outcomes it was. */
  lemma FallThroughDefersToWkt(lib: Spatial4J, json: (SpatialContext, string) -> ReadOutcome, d: Deserializer, text: string)
    requires FallsThrough(lib.geoJson(d.context, text))
    requires FallsThrough(json(d.context, text))
    ensures Decode(lib.(geoJson := json), d, text) == Decode(lib, d, text)
    ensures lib.wkt(d.context, text).Read? ==> Decode(lib, d, text) == Ok(lib.wkt(d.context, text).shape)
    ensures !lib.wkt(d.context, text).Read? ==> Decode(lib, d, text) == Err(ParseError(UnableToDecodeMsg, text))
  {
  }

  /** The null-message edge: a message-less UnsupportedOperationException
      escapes as a NullPointerException, while one with any message that
      lacks the phrase falls through to WKT. */
  lemma NullMessageEscapes(lib: Spatial4J, d: Deserializer, text: string, other: string)
    requires lib.geoJson(d.context, text) == Unsupported(None)
    requires !ContainsSubstring(other, UnsupportedShapePhrase)
    ensures Decode(lib, d, text) == Err(Exception(NullPointerException, None))
    ensures FallsThrough(Unsupported(Some(other)))
  {
  }

  /** Text that neither reader accepts, such as "INVALID GEOMETRY", is a
      parse error carrying the text. */
  lemma InvalidGeometryIsParseError(lib: Spatial4J, d: Deserializer)
    requires lib.geoJson(d.context, "INVALID GEOMETRY").Failed?
    requires lib.wkt(d.context, "INVALID GEOMETRY").Failed?
    ensures Decode(lib, d, "INVALID GEOMETRY") == Err(Exception(GeometryParseException, Some("Unable to decode shape: INVALID GEOMETRY")))
  {
    assert UnableToDecodeMsg + "INVALID GEOMETRY" == "Unable to decode shape: INVALID GEOMETRY";
  }
}
