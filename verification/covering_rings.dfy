/** How the two bounding-box rings relate: the geohash covering's closed
    (x, y) ring from `Spatial4JHelper.coveringGeoHashes` and H3's open
    (lat, lng) ring from `H3Utils.boundingBoxToCells` trace the same four
    corners in opposite directions. */
module CoveringRings {
  import opened Libraries
  import Spatial4JHelper
  import H3Utils

  /** The elements of `s` in the opposite order. */
  function Reverse<T>(s: seq<T>): (r: seq<T>)
    ensures |r| == |s|
    ensures forall i :: 0 <= i < |s| ==> r[i] == s[|s| - 1 - i]
  {
    if |s| == 0 then [] else Reverse(s[1..]) + [s[0]]
  }

  /** H3's box ring is the geohash box ring walked backwards, with its
      closing coordinate dropped and each corner swapped to (lat, lng). */
  lemma BoxBoundaryIsReversedBoxRing(b: Rectangle)
    ensures H3Utils.BoxBoundary(b.minY, b.minX, b.maxY, b.maxX)
         == H3Utils.RingToBoundary(Reverse(Spatial4JHelper.BoxRing(b)))
  {
  }

  /** So H3's bounding-box covering of a box is its polygon covering of the
      counter-walked closed box ring. */
  lemma BoundingBoxCellsArePolygonCells(h3: H3Core, b: Rectangle, resolution: int)
    ensures H3Utils.BoundingBoxToCells(h3, b.minY, b.minX, b.maxY, b.maxX, resolution)
         == H3Utils.PolygonToCells(h3, Reverse(Spatial4JHelper.BoxRing(b)), resolution)
  {
    BoxBoundaryIsReversedBoxRing(b);
  }
}
