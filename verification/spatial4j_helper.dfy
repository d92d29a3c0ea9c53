/** `Spatial4JHelper`: configuration of the shared Spatial4J factory, and the
    spatial operations over geometry text (intersection, containment of a
    shape or a point, geohash covering, area). Every operation decodes its
    text arguments first, left to right, and a decoding failure is its
    result unchanged. */
module Spatial4JHelper {
  import opened Java
  import opened Libraries
  import opened StringDeserializer

  const GeoConfigParam: string := "ksql.functions._global_.spatial4j.geo"
  const NormWrapLongitudeConfigParam: string := "ksql.functions._global_.spatial4j.normWrapLongitude"

  /** The mode and threshold handed to `geohashPoly`. */
  const CoveringMode: string := "intersect"
  const CoveringThreshold: real := 0.0

  /** A `ShapeFactory` made by the shared factory for one context. */
  datatype ShapeFactory = ShapeFactory(context: SpatialContext)

  /** The helper's state: the shared mutable factory `scf`, and the context,
      deserializer and shape factory derived from it. */
  datatype Helper = Helper(
    factory: FactoryFlags,
    context: SpatialContext,
    deserializer: Deserializer,
    shapeFactory: ShapeFactory)

  /** `scf.newSpatialContext()`: a new context carrying the factory's flags. */
  function NewSpatialContext(f: FactoryFlags, serial: nat): SpatialContext
  {
    SpatialContext(f.geo, f.normWrapLongitude, serial)
  }

  /** The derived parts agree with the factory and with each other. */
  predicate Valid(h: Helper)
  {
    && h.context.geo == h.factory.geo
    && h.context.normWrapLongitude == h.factory.normWrapLongitude
    && h.deserializer.context == h.context
    && h.shapeFactory.context == h.context
  }

  /** The three rebuild statements that end the constructor and `configure`. */
  function Rebuild(f: FactoryFlags, serial: nat): Helper
  {
    var context := NewSpatialContext(f, serial);
    Helper(f, context, Deserializer(context), ShapeFactory(context))
  }

  /** The constructor; the factory's defaults are Spatial4J's. */
  function NewHelper(defaults: FactoryFlags): (h: Helper)
    ensures Valid(h)
    ensures h.factory == defaults
    ensures h.deserializer.context.geo == defaults.geo
    ensures h.deserializer.context.normWrapLongitude == defaults.normWrapLongitude
  {
    Rebuild(defaults, 0)
  }

  /** `args.get(key)`: null when the key is absent or mapped to null; a
      non-null value is represented by its `toString()`. */
  function Lookup(args: Option<map<string, Option<string>>>, key: string): Option<string>
  {
    if args.Some? && key in args.value then args.value[key] else None
  }

  /** `configure(args)`. */
  function Configure(h: Helper, args: Option<map<string, Option<string>>>): (r: Helper)
    ensures Valid(r)
    // The context, deserializer and shape factory are always rebuilt.
    ensures r.context.serial > h.context.serial
    // A flag changes only through its key mapping to a non-null value ...
    ensures Lookup(args, GeoConfigParam).None? ==> r.factory.geo == h.factory.geo
    ensures Lookup(args, NormWrapLongitudeConfigParam).None? ==>
      r.factory.normWrapLongitude == h.factory.normWrapLongitude
    // ... and is then set to Boolean.parseBoolean of that value.
    ensures Lookup(args, GeoConfigParam).Some? ==>
      (r.factory.geo <==> ParseBoolean(Lookup(args, GeoConfigParam).value))
    ensures Lookup(args, NormWrapLongitudeConfigParam).Some? ==>
      (r.factory.normWrapLongitude <==> ParseBoolean(Lookup(args, NormWrapLongitudeConfigParam).value))
    ensures args.None? ==> r.factory == h.factory
  {
    var geoValue := Lookup(args, GeoConfigParam);
    var wrapValue := Lookup(args, NormWrapLongitudeConfigParam);
    var geo := if geoValue.Some? then ParseBoolean(geoValue.value) else h.factory.geo;
    var wrap := if wrapValue.Some? then ParseBoolean(wrapValue.value) else h.factory.normWrapLongitude;
    Rebuild(FactoryFlags(geo, wrap), h.context.serial + 1)
  }

  /** Keys other than the two parameters are ignored. */
  lemma ConfigureIgnoresOtherKeys(h: Helper, args: map<string, Option<string>>, key: string, value: Option<string>)
    requires key != GeoConfigParam && key != NormWrapLongitudeConfigParam
    ensures Configure(h, Some(args[key := value])) == Configure(h, Some(args))
  {
  }

  /** Because the factory is shared and mutated in place, a flag set by one
      call survives a later call that does not mention its key. */
  lemma ConfigureFlagsPersist(h: Helper, first: Option<map<string, Option<string>>>, later: Option<map<string, Option<string>>>)
    requires Lookup(later, GeoConfigParam).None?
    requires Lookup(later, NormWrapLongitudeConfigParam).None?
    ensures Configure(Configure(h, first), later).factory == Configure(h, first).factory
  {
  }

  /** Re-applying the same arguments changes no flag. */
  lemma ConfigureIdempotent(h: Helper, args: Option<map<string, Option<string>>>)
    ensures Configure(Configure(h, args), args).factory == Configure(h, args).factory
  {
  }

  /** Decoding through the helper's current deserializer. */
  function DecodeWith(lib: Spatial4J, h: Helper, text: string): Result<Shape>
  {
    Decode(lib, h.deserializer, text)
  }

  /** `intersect(geo1, geo2)`. */
  function Intersect(lib: Spatial4J, h: Helper, geo1: string, geo2: string): (r: Result<bool>)
    ensures DecodeWith(lib, h, geo1).Err? ==> r == Err(DecodeWith(lib, h, geo1).error)
    ensures DecodeWith(lib, h, geo1).Ok? && DecodeWith(lib, h, geo2).Err? ==> r == Err(DecodeWith(lib, h, geo2).error)
    ensures r.Ok? <==> DecodeWith(lib, h, geo1).Ok? && DecodeWith(lib, h, geo2).Ok?
    ensures r.Ok? ==>
      r.value == lib.intersects(lib.relate(DecodeWith(lib, h, geo1).value, DecodeWith(lib, h, geo2).value))
  {
    var shape1 :- DecodeWith(lib, h, geo1);
    var shape2 :- DecodeWith(lib, h, geo2);
    Ok(lib.intersects(lib.relate(shape1, shape2)))
  }

  /** `contained(geo1, geo2)`: geo1 contains geo2, and only the CONTAINS
      relation counts. */
  function Contained(lib: Spatial4J, h: Helper, geo1: string, geo2: string): (r: Result<bool>)
    ensures DecodeWith(lib, h, geo1).Err? ==> r == Err(DecodeWith(lib, h, geo1).error)
    ensures DecodeWith(lib, h, geo1).Ok? && DecodeWith(lib, h, geo2).Err? ==> r == Err(DecodeWith(lib, h, geo2).error)
    ensures r.Ok? <==> DecodeWith(lib, h, geo1).Ok? && DecodeWith(lib, h, geo2).Ok?
    ensures r.Ok? ==>
      (r.value <==> lib.relate(DecodeWith(lib, h, geo1).value, DecodeWith(lib, h, geo2).value) == Contains)
  {
    var shape1 :- DecodeWith(lib, h, geo1);
    var shape2 :- DecodeWith(lib, h, geo2);
    Ok(lib.relate(shape1, shape2) == Contains)
  }

  /** `contained(geo1, lat, lon)`: the point is built with x = lon, y = lat
      by a shape factory for the current context. */
  function ContainedPoint(lib: Spatial4J, h: Helper, geo: string, lat: real, lon: real): (r: Result<bool>)
    ensures DecodeWith(lib, h, geo).Err? ==> r == Err(DecodeWith(lib, h, geo).error)
    ensures DecodeWith(lib, h, geo).Ok? && lib.pointXY(h.context, lon, lat).Err? ==>
      r == Err(lib.pointXY(h.context, lon, lat).error)
    ensures r.Ok? <==> DecodeWith(lib, h, geo).Ok? && lib.pointXY(h.context, lon, lat).Ok?
    ensures r.Ok? ==>
      (r.value <==> lib.relate(DecodeWith(lib, h, geo).value, lib.pointXY(h.context, lon, lat).value) == Contains)
  {
    var shape :- DecodeWith(lib, h, geo);
    var point :- lib.pointXY(h.context, lon, lat);
    Ok(lib.relate(shape, point) == Contains)
  }

  /** WITHIN, INTERSECTS and DISJOINT all make `contained` false. */
  lemma ContainedOnlyForContains(lib: Spatial4J, h: Helper, geo1: string, geo2: string)
    requires DecodeWith(lib, h, geo1).Ok? && DecodeWith(lib, h, geo2).Ok?
    requires lib.relate(DecodeWith(lib, h, geo1).value, DecodeWith(lib, h, geo2).value) in {Within, Intersects, Disjoint}
    ensures Contained(lib, h, geo1, geo2) == Ok(false)
  {
  }

  /** Containment is directional: when Spatial4J reports WITHIN for the
      converse of every CONTAINS between distinct shapes, two texts that
      decode to distinct shapes never contain each other. */
  lemma ContainedIsDirectional(lib: Spatial4J, h: Helper, geo1: string, geo2: string)
    requires forall a: Shape, b: Shape :: a != b && lib.relate(a, b) == Contains ==> lib.relate(b, a) == Within
    requires DecodeWith(lib, h, geo1).Ok? && DecodeWith(lib, h, geo2).Ok?
    requires DecodeWith(lib, h, geo1).value != DecodeWith(lib, h, geo2).value
    ensures !(Contained(lib, h, geo1, geo2) == Ok(true) && Contained(lib, h, geo2, geo1) == Ok(true))
  {
  }

  /** When Spatial4J counts CONTAINS as intersecting, containment implies
      intersection. */
  lemma ContainedImpliesIntersect(lib: Spatial4J, h: Helper, geo1: string, geo2: string)
    requires lib.intersects(Contains)
    requires Contained(lib, h, geo1, geo2) == Ok(true)
    ensures Intersect(lib, h, geo1, geo2) == Ok(true)
  {
  }

  /** The point form is the shape form with the point's text replaced by the
      point the factory builds from (x = lon, y = lat). */
  lemma ContainedPointIsContained(lib: Spatial4J, h: Helper, geo: string, lat: real, lon: real, pointText: string)
    requires DecodeWith(lib, h, pointText) == lib.pointXY(h.context, lon, lat)
    requires DecodeWith(lib, h, pointText).Ok?
    ensures ContainedPoint(lib, h, geo, lat, lon) == Contained(lib, h, geo, pointText)
  {
  }

  /** The ring handed to `createPolygon`: the bounding box's corners
      (minX,minY), (minX,maxY), (maxX,maxY), (maxX,minY), closed by
      repeating (minX,minY). */
  function BoxRing(b: Rectangle): (ring: seq<Coord>)
    ensures |ring| == 5 && IsLinearRing(ring)
    ensures ring[0] == Coord(b.minX, b.minY)
    // The walk goes up the west side first, even for a box that is a line or a point.
    ensures ring[1] == Coord(b.minX, b.maxY) && ring[3] == Coord(b.maxX, b.minY)
    ensures forall i :: 0 <= i < |ring| ==> IsCorner(b, ring[i])
    ensures forall c :: IsCorner(b, c) ==> c in ring
    // Every edge is axis-aligned, and the first one runs along y.
    ensures forall i :: 0 <= i < |ring| - 1 ==> ring[i].x == ring[i + 1].x || ring[i].y == ring[i + 1].y
    ensures ring[1].x == ring[0].x
    // A box with extent visits each corner exactly once before closing.
    ensures b.minX != b.maxX && b.minY != b.maxY ==>
      forall i, j :: 0 <= i < j < 4 ==> ring[i] != ring[j]
  {
    [Coord(b.minX, b.minY), Coord(b.minX, b.maxY), Coord(b.maxX, b.maxY), Coord(b.maxX, b.minY), Coord(b.minX, b.minY)]
  }

  /** `coveringGeoHashes(geo1, precision)`: the precision is passed on
      unchecked. */
  function CoveringGeoHashes(lib: Spatial4J, gh: Geohash, h: Helper, geo: string, precision: int): (r: Result<seq<string>>)
    ensures DecodeWith(lib, h, geo).Err? ==> r == Err(DecodeWith(lib, h, geo).error)
    ensures DecodeWith(lib, h, geo).Ok? ==>
      r == gh.geohashPoly(BoxRing(lib.boundingBox(DecodeWith(lib, h, geo).value)), precision, CoveringMode, CoveringThreshold)
  {
    var shape :- DecodeWith(lib, h, geo);
    gh.geohashPoly(BoxRing(lib.boundingBox(shape)), precision, CoveringMode, CoveringThreshold)
  }

  /** `area(geo)`: the area under the helper's current context. */
  function Area(lib: Spatial4J, h: Helper, geo: string): (r: Result<real>)
    ensures DecodeWith(lib, h, geo).Err? ==> r == Err(DecodeWith(lib, h, geo).error)
    ensures DecodeWith(lib, h, geo).Ok? ==> r == Ok(lib.area(DecodeWith(lib, h, geo).value, h.context))
  {
    var shape :- DecodeWith(lib, h, geo);
    Ok(lib.area(shape, h.context))
  }

  /** After `configure`, `area` decodes with the rebuilt deserializer and
      measures under the rebuilt context, whose flags are the configured
      ones: the earth model a configuration selects is the one areas are
      computed in. */
  lemma AreaUsesConfiguredContext(lib: Spatial4J, h: Helper, args: Option<map<string, Option<string>>>, geo: string)
    ensures var c := Configure(h, args);
      && c.deserializer.context == c.context
      && (Lookup(args, GeoConfigParam).Some? ==>
            (c.context.geo <==> ParseBoolean(Lookup(args, GeoConfigParam).value)))
      && (Lookup(args, GeoConfigParam).None? ==> c.context.geo == h.factory.geo)
      && (Decode(lib, Deserializer(c.context), geo).Ok? ==>
            Area(lib, c, geo) == Ok(lib.area(Decode(lib, Deserializer(c.context), geo).value, c.context)))
      && (Decode(lib, Deserializer(c.context), geo).Err? ==>
            Area(lib, c, geo) == Err(Decode(lib, Deserializer(c.context), geo).error))
  {
  }
}
