/** The values and the foreign calls of the libraries flink-geo is glue over:
    Spatial4J (shapes, spatial relations, the GeoJSON and WKT readers, the
    context factory), JTS coordinates, the geohash library and Uber's H3.
    Every foreign call is a function-typed field of an oracle record, so the
    model says exactly which call is made with which arguments and never
    what the library computes. */
module Libraries {
  import opened Java

  /** A JTS `Coordinate`: x is the longitude, y the latitude. */
  datatype Coord = Coord(x: real, y: real)

  /** A JTS `LinearRing` needs its first and last coordinates equal. */
  predicate IsClosed(ring: seq<Coord>)
  {
    |ring| > 0 && ring[0] == ring[|ring| - 1]
  }

  /** The coordinate sequences JTS accepts for a `LinearRing`: empty, or
      closed with at least four coordinates. */
  predicate IsLinearRing(ring: seq<Coord>)
  {
    |ring| == 0 || (|ring| >= 4 && IsClosed(ring))
  }

  /** An H3 `LatLng`: latitude first. */
  datatype LatLng = LatLng(lat: real, lng: real)

  /** A Spatial4J `Rectangle`, as read through its getters. */
  datatype Rectangle = Rectangle(minX: real, maxX: real, minY: real, maxY: real)

  /** `c` is one of the four corners of `b`. */
  predicate IsCorner(b: Rectangle, c: Coord)
  {
    (c.x == b.minX || c.x == b.maxX) && (c.y == b.minY || c.y == b.maxY)
  }

  /** A Spatial4J `Shape`. The glue never looks inside one: it only hands
      shapes back to the library. Equality is there so a property can speak
      of two distinct shapes. */
  type Shape(==)

  /** Spatial4J's `SpatialRelation` enum. */
  datatype SpatialRelation = Within | Contains | Disjoint | Intersects

  /** The two public flags of the shared `SpatialContextFactory`. */
  datatype FactoryFlags = FactoryFlags(geo: bool, normWrapLongitude: bool)

  /** A `SpatialContext`: the flags it was made from, and a serial number
      that tells one `newSpatialContext()` result from another. */
  datatype SpatialContext = SpatialContext(geo: bool, normWrapLongitude: bool, serial: nat)

  /** What one call of a Spatial4J reader did. */
  datatype ReadOutcome =
    | Read(shape: Shape)                     // returned a shape
    | ReadNull                               // returned null
    | Unsupported(message: Option<string>)   // threw UnsupportedOperationException
    | Failed                                 // threw any other exception

  /** The Spatial4J calls the glue makes. */
  datatype Spatial4J = Spatial4J(
    geoJson: (SpatialContext, string) -> ReadOutcome,          // GeoJSONReader.read
    wkt: (SpatialContext, string) -> ReadOutcome,              // WKTReader.parse
    relate: (Shape, Shape) -> SpatialRelation,                 // Shape.relate
    intersects: SpatialRelation -> bool,                       // SpatialRelation.intersects
    boundingBox: Shape -> Rectangle,                           // Shape.getBoundingBox
    area: (Shape, SpatialContext) -> real,                     // Shape.getArea
    pointXY: (SpatialContext, real, real) -> Result<Shape>     // ShapeFactory.pointXY(x, y)
  )

  /** The geohash calls: `GeohashUtils.encodeLatLon` in both arities and
      `GeoHashKeysKt.geohashPoly`. */
  datatype Geohash = Geohash(
    encodeLatLon: (real, real, int) -> string,
    encodeLatLonDefault: (real, real) -> string,
    geohashPoly: (seq<Coord>, int, string, real) -> Result<seq<string>>
  )

  /** The `H3Core` calls. */
  datatype H3Core = H3Core(
    latLngToCellAddress: (real, real, int) -> string,
    cellToLatLng: string -> Result<LatLng>,
    polygonToCellAddresses: (seq<LatLng>, int) -> seq<string>,
    isValidCell: string -> Result<bool>
  )
}
