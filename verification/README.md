# flink-geo glue, modelled in Dafny

flink-geo exposes geospatial SQL functions to Apache Flink: `geo_hash`,
`geo_h3`, `geo_contained`, `geo_intersected`, `geo_area` (scalar functions)
and `geo_covering_geohashes`, `geo_covering_h3` (table functions). Behind
them sit three small Java classes:

- `Spatial4jStringDeserializer` decodes geometry text. It tries GeoJSON
  first and WKT second.
- `Spatial4JHelper` configures the shared Spatial4J context factory and
  offers intersection, containment (of a shape or of a point), geohash
  covering and area over geometry text.
- `H3Utils` puts resolution checks in front of Uber H3 and builds the
  boundary rings H3's polygon covering reads.

Everything else is library code (Spatial4J, JTS, the geohash library, H3).
The model gives every library call as a function-typed field of an oracle
record (`Libraries.Spatial4J`, `Libraries.Geohash`, `Libraries.H3Core`),
passed in as a parameter. The contracts therefore say exactly which call is
made, with which arguments and in which order, and what the glue does with
its answer — never what the library computes.

Java conventions used throughout:

- `null` is `Option.None`.
- A thrown exception is `Result.Err(Exception(kind, message))`.
- `prefix + e.getMessage()` renders a null message as `"null"`
  (`Java.Concat`).
- Coordinates are `real`: the glue only compares, swaps and copies them.
- A JTS `Coordinate` is `Coord(x = longitude, y = latitude)`.
- An H3 `LatLng` is `LatLng(lat, lng)`.

Modules follow the classes:

| module | models |
|---|---|
| `Java` | exceptions, null, string concatenation, `contains`, `trim`, `Boolean.parseBoolean` |
| `Libraries` | the library values and the oracle records |
| `StringDeserializer` | `Spatial4jStringDeserializer` |
| `Spatial4JHelper` | `Spatial4JHelper` |
| `H3Utils` | `H3Utils` |
| `CoveringRings` | how the two bounding-box rings relate |
| `Udf` | what the function classes share: coordinate guard, exception wrapping, `collect`, `open`, `isDeterministic` |
| `GeoHashUdf`, `GeoH3Udf`, `GeoContainedUdf`, `GeoIntersectedUdf`, `GeoAreaUdf` | the scalar functions |
| `GeoCoveringGeoHashesUdtf`, `GeoCoveringH3Udtf` | the table functions |

Two places where the code and its documentation disagree; the model follows
the code:

- The two-geometry `eval` of `GeoContainedUDF` is documented as "true if
  geo1 is contained within geo2". The code returns `contained(geo1, geo2)`,
  which is `geo1.relate(geo2) == CONTAINS`, so it answers whether geo1
  CONTAINS geo2. Its `@param` lines agree with the code.
  `GeoContainedUdf.EvalShapesIsFirstContainsSecond` states the direction.
- `GeoCoveringH3UDTF` calls `Spatial4JHelper.coveringH3Cells`, which the
  `Spatial4JHelper` class does not define. `GeoCoveringH3Udtf` takes it as
  an opaque parameter.

## Model

| member | source | states |
|---|---|---|
| Java.Concat | src/main/java/com/github/wlaforest/flink/geo/udfs/GeoAreaUDF.java:68 | The rethrown message is the prefix followed by the original message, unchanged; a null message is rendered as "null" after the prefix. |
| Java.ContainsSubstring | src/main/java/com/github/wlaforest/geo/Spatial4jStringDeserializer.java:55 | `contains` is true exactly when the phrase occurs at some index of the message. |
| Java.TrimEmptyIffBlank | src/main/java/com/github/wlaforest/flink/geo/udfs/GeoAreaUDF.java:61 | `trim()` is empty exactly for strings made only of characters up to U+0020, including the empty string. |
| Java.ParseBoolean | src/main/java/com/github/wlaforest/geo/Spatial4JHelper.java:72-73 | `Boolean.parseBoolean` is true exactly for the four letters t-r-u-e in any mix of case; every other value, including "yes" or " true", is false. |
| StringDeserializer.Decode | src/main/java/com/github/wlaforest/geo/Spatial4jStringDeserializer.java:46-70 | Success iff GeoJSON returned a shape, or GeoJSON fell through (null, another exception, or an unsupported-operation message without "Unsupported shape") and WKT returned a shape. A GeoJSON shape is returned as is. Failures are parse errors, plus a NullPointerException exactly when the unsupported-operation message is null. A parse error's message ends with the input; the "Spherical model" prefix comes iff the shape kind was rejected, and the "Unable to decode" prefix iff GeoJSON fell through. |
| StringDeserializer.GeoJsonShapeWins | src/main/java/com/github/wlaforest/geo/Spatial4jStringDeserializer.java:50-53 | A GeoJSON shape is the result whatever the WKT reader would say about the same text. |
| StringDeserializer.RejectionIsFinal | src/main/java/com/github/wlaforest/geo/Spatial4jStringDeserializer.java:54-56 | An "Unsupported shape" rejection fails with the "Spherical model does not support shape: " message, and the WKT reader cannot change that. |
| StringDeserializer.FallThroughDefersToWkt | src/main/java/com/github/wlaforest/geo/Spatial4jStringDeserializer.java:53-69 | Every fall-through GeoJSON outcome leads to the same result, which is the WKT shape or "Unable to decode shape: " + input. |
| StringDeserializer.NullMessageEscapes | src/main/java/com/github/wlaforest/geo/Spatial4jStringDeserializer.java:54-55 | A message-less unsupported-operation exception escapes as a NullPointerException, while any non-null message without the phrase falls through. |
| StringDeserializer.InvalidGeometryIsParseError | src/test/java/com/github/wlaforest/flink/geo/udfs/GeoCoveringH3UDTFTest.java:102-104 | Text that both readers fail on, "INVALID GEOMETRY", gives a GeometryParseException with message "Unable to decode shape: INVALID GEOMETRY". |
| Spatial4JHelper.NewHelper | src/main/java/com/github/wlaforest/geo/Spatial4JHelper.java:51-57 | The new helper's context, deserializer and shape factory all carry the factory's default flags. |
| Spatial4JHelper.Configure | src/main/java/com/github/wlaforest/geo/Spatial4JHelper.java:63-87 | The context, deserializer and shape factory are always rebuilt, consistently with the factory. A flag changes only when its key maps to a non-null value, and is then set to parseBoolean of it. A null map changes no flag. |
| Spatial4JHelper.ConfigureIgnoresOtherKeys | src/main/java/com/github/wlaforest/geo/Spatial4JHelper.java:69-82 | Adding or changing any key other than the two parameters gives the same helper. |
| Spatial4JHelper.ConfigureFlagsPersist | src/main/java/com/github/wlaforest/geo/Spatial4JHelper.java:46-87 | The factory is shared and mutated, so a flag set by one call survives a later call that leaves both keys out (including `configure(null)`). |
| Spatial4JHelper.ConfigureIdempotent | src/main/java/com/github/wlaforest/geo/Spatial4JHelper.java:71-81 | Re-applying the same arguments leaves the flags as the first application set them. |
| Spatial4JHelper.Intersect | src/main/java/com/github/wlaforest/geo/Spatial4JHelper.java:98-109 | geo1 is decoded first, then geo2, and the first decoding failure is the result unchanged. Otherwise the result is `intersects()` of geo1's relation to geo2. |
| Spatial4JHelper.Contained | src/main/java/com/github/wlaforest/geo/Spatial4JHelper.java:120-131 | Decoding happens first, in the same order and with the same error propagation. Otherwise the result is true iff geo1's relation to geo2 is CONTAINS. |
| Spatial4JHelper.ContainedPoint | src/main/java/com/github/wlaforest/geo/Spatial4JHelper.java:143-154 | The geometry is decoded before the point is built. The point is built with x = lon and y = lat under the current context, and its failure is propagated. The result is true iff the geometry's relation to the point is CONTAINS. |
| Spatial4JHelper.ContainedOnlyForContains | src/main/java/com/github/wlaforest/geo/Spatial4JHelper.java:129-130 | WITHIN, INTERSECTS and DISJOINT all give false. |
| Spatial4JHelper.ContainedIsDirectional | src/main/java/com/github/wlaforest/geo/Spatial4JHelper.java:120-131 | If the converse of CONTAINS is WITHIN, two distinct shapes never contain each other. |
| Spatial4JHelper.ContainedImpliesIntersect | src/main/java/com/github/wlaforest/geo/Spatial4JHelper.java:98-131 | If CONTAINS counts as intersecting, containment implies intersection. |
| Spatial4JHelper.ContainedPointIsContained | src/main/java/com/github/wlaforest/geo/Spatial4JHelper.java:143-154 | The point form equals the two-geometry form for a text that decodes to the point (x = lon, y = lat). |
| Spatial4JHelper.BoxRing | src/main/java/com/github/wlaforest/geo/Spatial4JHelper.java:171-178 | The ring has five points, is a valid closed JTS linear ring, starts at (minX, minY), goes to (minX, maxY) next and visits (maxX, minY) fourth, even for a box that is a line or a point. Its points are exactly the box's corners: every point is a corner and every corner occurs. Every edge is axis-aligned and the first runs along y. A box with extent visits four distinct corners before closing. |
| Spatial4JHelper.CoveringGeoHashes | src/main/java/com/github/wlaforest/geo/Spatial4JHelper.java:165-182 | Decoding happens first and its failure propagates. Otherwise the result is `geohashPoly` of the bounding-box ring with the precision unchecked, mode "intersect" and threshold 0. |
| Spatial4JHelper.Area | src/main/java/com/github/wlaforest/geo/Spatial4JHelper.java:191-196 | Decoding happens first and its failure propagates. Otherwise the result is the shape's area under the helper's current context. |
| Spatial4JHelper.AreaUsesConfiguredContext | src/main/java/com/github/wlaforest/geo/Spatial4JHelper.java:63-87 | After `configure`, `area` (lines 191-196) decodes with the rebuilt deserializer and measures under the rebuilt context, whose `geo` flag is the configured one, or the previous one when the key is absent. |
| H3Utils.LatLonToCell | src/main/java/com/github/wlaforest/geo/H3Utils.java:52-57 | Throws IllegalArgumentException with the resolution message iff the resolution is outside 0..15. Otherwise the result is H3's cell for (lat, lon). |
| H3Utils.LatLonToCellDefault | src/main/java/com/github/wlaforest/geo/H3Utils.java:66-68 | Never throws, and gives H3's cell at resolution 7. |
| H3Utils.CellToLatLon | src/main/java/com/github/wlaforest/geo/H3Utils.java:76-79 | Two elements, latitude first and longitude second. H3's failure is propagated. |
| H3Utils.CellCentreRoundTrip | src/main/java/com/github/wlaforest/geo/H3Utils.java:52-79 | The pair is latitude first: if H3 maps a cell's centre back to the cell, passing the array's two elements in order to `latLonToCell` recovers the cell (the latitude-first order that H3UtilsTest.java:71-88 checks). |
| H3Utils.RingToBoundary | src/main/java/com/github/wlaforest/geo/H3Utils.java:93-99 | One boundary point per coordinate except the last. Order is kept and each point is (lat = y, lng = x). |
| H3Utils.CollectBoundary | src/main/java/com/github/wlaforest/geo/H3Utils.java:93-99 | The index loop `i < coords.length - 1` builds exactly that boundary, including for an empty ring. |
| H3Utils.BoundaryDropsOnlyLast | src/main/java/com/github/wlaforest/geo/H3Utils.java:97-98 | Swapping the boundary back gives the ring minus its last coordinate. |
| H3Utils.BoundaryRoundTrip | src/main/java/com/github/wlaforest/geo/H3Utils.java:94-99 | For a closed ring, re-appending the first boundary point recovers the ring exactly. |
| H3Utils.PolygonToCells | src/main/java/com/github/wlaforest/geo/H3Utils.java:88-104 | Throws iff the resolution is outside 0..15, before reading the ring. Otherwise the result is H3's covering of the trimmed, swapped boundary. |
| H3Utils.BoxBoundary | src/main/java/com/github/wlaforest/geo/H3Utils.java:121-125 | Four points that are exactly the box's corners, every corner occurring. The walk goes (minLat, minLon), (minLat, maxLon), (maxLat, maxLon) and then the remaining corner, with axis-aligned edges going round. There is no closing repeat: the first and last points coincide iff the box has no height. |
| H3Utils.BoundingBoxToCells | src/main/java/com/github/wlaforest/geo/H3Utils.java:116-129 | Throws iff the resolution is outside 0..15. Otherwise the result is H3's covering of the open box boundary. |
| H3Utils.IsValidCell | src/main/java/com/github/wlaforest/geo/H3Utils.java:147-158 | True iff the address is non-null, non-empty and H3 answers true without throwing. It never throws. |
| H3Utils.IsValidCellRejectsNullAndEmpty | src/main/java/com/github/wlaforest/geo/H3Utils.java:147-158 | Null and "" are invalid without asking H3, so two H3 instances that disagree everywhere still agree on them. An address on which H3 throws is invalid. |
| CoveringRings.BoxBoundaryIsReversedBoxRing | src/main/java/com/github/wlaforest/geo/H3Utils.java:121-125 | H3's box boundary is the geohash box ring (Spatial4JHelper.java:174-178) walked backwards, its closing point dropped and each corner swapped. |
| CoveringRings.BoundingBoxCellsArePolygonCells | src/main/java/com/github/wlaforest/geo/H3Utils.java:116-129 | `boundingBoxToCells` of a box equals `polygonToCells` of the counter-walked closed box ring. |
| Udf.WrapParseFailure | src/main/java/com/github/wlaforest/flink/geo/udfs/GeoIntersectedUDF.java:66-70 | A GeometryParseException becomes a RuntimeException "Failed to parse geometry: " + message. Every other exception escapes unchanged. |
| Udf.WrapAll | src/main/java/com/github/wlaforest/flink/geo/udfs/GeoCoveringGeoHashesUDTF.java:85-89 | Nothing escapes unwrapped. Parse failures get the parse prefix and everything else gets the function's own prefix. |
| Udf.Collect | src/main/java/com/github/wlaforest/flink/geo/udfs/GeoCoveringGeoHashesUDTF.java:82-84 | Appends every item once, in list order, after the rows already emitted. |
| Udf.OpenHelper | src/main/java/com/github/wlaforest/flink/geo/udfs/GeoAreaUDF.java:45-51 | A new helper followed by `configure(null)` is consistent and reads with the factory's default flags. |
| Udf.IsDeterministic | src/main/java/com/github/wlaforest/flink/geo/udfs/GeoHashUDF.java:81-84 | Every scalar function class declares itself deterministic. |
| GeoHashUdf.Eval | src/main/java/com/github/wlaforest/flink/geo/udfs/GeoHashUDF.java:45-55 | Null gives null. Throws iff both are given and a coordinate is outside the inclusive ranges. In-range coordinates give the library's default-precision geohash. |
| GeoHashUdf.EvalWithPrecision | src/main/java/com/github/wlaforest/flink/geo/udfs/GeoHashUDF.java:65-79 | A null argument wins, then the coordinate check, then the precision check. Succeeds iff an argument is null or everything is in range. In-range input gives the geohash at the given precision. |
| GeoHashUdf.DefaultPrecisionIsTwelve | src/main/java/com/github/wlaforest/flink/geo/udfs/GeoHashUDF.java:39-54 | If the library's default precision is 12, as documented, the two-argument form is the three-argument form at 12. |
| GeoH3Udf.Eval | src/main/java/com/github/wlaforest/flink/geo/udfs/GeoH3UDF.java:54-64 | Null gives null. Throws iff a coordinate is out of range. In-range coordinates give H3's cell at resolution 7. |
| GeoH3Udf.EvalWithResolution | src/main/java/com/github/wlaforest/flink/geo/udfs/GeoH3UDF.java:74-88 | Null first, then coordinates, then resolution 0..15. Succeeds iff an argument is null or everything is in range. In-range input gives H3's cell at that resolution. |
| GeoH3Udf.DefaultResolutionIsSeven | src/main/java/com/github/wlaforest/flink/geo/udfs/GeoH3UDF.java:55-63 | The two-argument form equals the three-argument form at resolution 7 on every input. |
| GeoCoveringGeoHashesUdtf.Rows | src/main/java/com/github/wlaforest/flink/geo/udfs/GeoCoveringGeoHashesUDTF.java:71-91 | Null gives no rows. A bad precision throws an unwrapped IllegalArgumentException before parsing. Otherwise the rows are the helper's list and its errors are wrapped. Every other exception is a RuntimeException. |
| GeoCoveringGeoHashesUdtf.Eval | src/main/java/com/github/wlaforest/flink/geo/udfs/GeoCoveringGeoHashesUDTF.java:71-91 | The method with its `collect` loop emits exactly those rows or throws exactly that exception. |
| GeoCoveringGeoHashesUdtf.EvalDefault | src/main/java/com/github/wlaforest/flink/geo/udfs/GeoCoveringGeoHashesUDTF.java:99-101 | `eval(geo)` is `eval(geo, 7)`. |
| GeoCoveringGeoHashesUdtf.ParseFailureNamesTheText | src/main/java/com/github/wlaforest/flink/geo/udfs/GeoCoveringGeoHashesUDTF.java:85-86 | A parse failure surfaces as a RuntimeException that starts "Failed to parse geometry: " and ends with the geometry text. |
| GeoCoveringH3Udtf.Rows | src/main/java/com/github/wlaforest/flink/geo/udfs/GeoCoveringH3UDTF.java:70-90 | Null gives no rows. A resolution outside 0..15 throws unwrapped before the helper is called. Otherwise the rows are the helper's cell list, with errors wrapped "Error in geo_covering_h3: " or as parse failures. |
| GeoCoveringH3Udtf.Eval | src/main/java/com/github/wlaforest/flink/geo/udfs/GeoCoveringH3UDTF.java:70-90 | The `collect` loop emits exactly those rows. |
| GeoCoveringH3Udtf.EvalDefault | src/main/java/com/github/wlaforest/flink/geo/udfs/GeoCoveringH3UDTF.java:98-100 | `eval(geo)` is `eval(geo, 7)`. |
| GeoContainedUdf.EvalPoint | src/main/java/com/github/wlaforest/flink/geo/udfs/GeoContainedUDF.java:42-54 | Any null gives false. Otherwise the result is the helper's point containment, with every failure rethrown as a RuntimeException. |
| GeoContainedUdf.WrapNumberFormat | src/main/java/com/github/wlaforest/flink/geo/udfs/GeoContainedUDF.java:70-71 | A NumberFormatException becomes "Invalid latitude or longitude format: " + message. Nothing else is caught. |
| GeoContainedUdf.EvalText | src/main/java/com/github/wlaforest/flink/geo/udfs/GeoContainedUDF.java:64-73 | A null string gives false. An unparseable latitude is reported before the longitude. Parsed numbers give exactly the Double form's result. |
| GeoContainedUdf.TextWithNullGeoIsFalse | src/main/java/com/github/wlaforest/flink/geo/udfs/GeoContainedUDF.java:65-69 | A null geometry with parseable coordinates reaches the Double form and gives false. |
| GeoContainedUdf.EvalShapes | src/main/java/com/github/wlaforest/flink/geo/udfs/GeoContainedUDF.java:82-91 | Null gives false. Otherwise the result is `contained(geo1, geo2)`, with parse failures wrapped. |
| GeoContainedUdf.EvalShapesIsFirstContainsSecond | src/main/java/com/github/wlaforest/flink/geo/udfs/GeoContainedUDF.java:76-87 | True means both texts decode and geo1's relation to geo2 is CONTAINS. This is the direction of the `@param` lines, not that of the `@return` line. |
| GeoIntersectedUdf.Eval | src/main/java/com/github/wlaforest/flink/geo/udfs/GeoIntersectedUDF.java:61-71 | Null gives false without decoding. Otherwise the result is the helper's intersection, with parse failures wrapped. |
| GeoIntersectedUdf.EvalSymmetric | src/main/java/com/github/wlaforest/flink/geo/udfs/GeoIntersectedUDF.java:61-71 | For two texts that both decode, and a Spatial4J whose intersection test is symmetric, swapping the arguments does not change the answer. |
| GeoAreaUdf.Eval | src/main/java/com/github/wlaforest/flink/geo/udfs/GeoAreaUDF.java:60-70 | Null, empty or whitespace-only text gives null without decoding. Otherwise the result is the helper's area, with parse failures wrapped. |
| GeoAreaUdf.InvalidGeometryThrows | src/test/java/com/github/wlaforest/flink/geo/udfs/GeoAreaUDFTest.java:73-77 | "INVALID GEOMETRY", which neither reader accepts, makes `eval` throw a RuntimeException. |

## Left out

- The Spatial4J readers, `relate`, `SpatialRelation.intersects()`, `getBoundingBox`, `getArea` and `pointXY` are oracles. The WKT and GeoJSON grammars, the relation algebra and all floating-point geometry are library code.
- `GeoHashKeysKt.geohashPoly` and `GeohashUtils.encodeLatLon` are oracles. GeoHashKeysKt is not part of this model, so whether its cells cover the polygon, or are unique, is not stated.
- GeoHashUdf.Eval: the two-argument form's precision is whatever the geohash library's default is. The documented 12 is a hypothesis of `DefaultPrecisionIsTwelve`, not a fact of the model.
- H3 internals (`latLngToCellAddress`, `polygonToCellAddresses`, `cellToLatLng`, `isValidCell`) are oracles. Facts such as 15-character addresses, cell resolutions and centre accuracy are library behaviour.
- `H3Utils.getResolution` is a one-line pass-through to H3 with no glue of its own.
- `Spatial4JHelper.coveringH3Cells` is not defined in `Spatial4JHelper`. `GeoCoveringH3Udtf` takes it as a parameter.
- `Double.parseDouble` is a parameter of `GeoContainedUdf.EvalText`, and NaN and infinity are not representable as its result.
- Coordinates are exact reals. A NaN latitude or longitude, which passes every `<`/`>` guard in Java, is not representable.
- StringDeserializer.Decode and the helper operations take non-null text, so calling the helper directly with a null geometry (a NullPointerException in Java) is not modelled. Every function class checks for null before it calls the helper.
- Spatial4J's default factory flags are a parameter of `Spatial4JHelper.NewHelper` and `Udf.OpenHelper`.
- A new `SpatialContext` is represented by a serial number. Object identity and the context's other settings are not modelled.
- Calls the glue does not guard are total oracles, so they cannot throw in the model: `latLngToCellAddress`, `polygonToCellAddresses`, `relate`, `SpatialRelation.intersects()`, `getBoundingBox`, `getArea`, the encoders and JTS `createPolygon` (Spatial4JHelper.java:180), whose polygon is represented by its ring. In Java such an exception passes through the helper unchanged. The point form of `geo_contained` and both covering table functions catch every exception and would wrap it as `Udf.WrapAll` does. The other functions let it propagate.
- A NullPointerException has no message in the model, because the JVM's generated "helpful" message text is not modelled.
- Flink's `FunctionContext`, logging and `printStackTrace` are side effects with no result.
- Thread-safety of the shared mutable factory is not modelled: the model is sequential.
- `isDeterministic` of the table functions is not overridden and is not modelled.
