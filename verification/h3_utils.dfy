/** `H3Utils`: resolution checks in front of the H3 calls, and the boundary
    rings handed to H3's polygon covering. */
module H3Utils {
  import opened Java
  import opened Libraries

  const DefaultResolution: int := 7
  const ResolutionMsg: string := "H3 resolution must be between 0 and 15"

  /** H3 resolutions run from 0 to 15 inclusive. */
  predicate ValidResolution(resolution: int)
  {
    0 <= resolution <= 15
  }

  /** `latLonToCell(lat, lon, resolution)`. */
  function LatLonToCell(h3: H3Core, lat: real, lon: real, resolution: int): (r: Result<string>)
    ensures r.Err? <==> !ValidResolution(resolution)
    ensures r.Err? ==> r.error == Exception(IllegalArgumentException, Some(ResolutionMsg))
    ensures r.Ok? ==> r.value == h3.latLngToCellAddress(lat, lon, resolution)
  {
    if resolution < 0 || resolution > 15 then
      Throw(IllegalArgumentException, ResolutionMsg)
    else
      Ok(h3.latLngToCellAddress(lat, lon, resolution))
  }

  /** `latLonToCell(lat, lon)`: resolution 7, so it never throws. */
  function LatLonToCellDefault(h3: H3Core, lat: real, lon: real): (r: Result<string>)
    ensures r.Ok?
    ensures r.value == h3.latLngToCellAddress(lat, lon, 7)
  {
    LatLonToCell(h3, lat, lon, DefaultResolution)
  }

  /** `cellToLatLon(address)`: a two-element array, latitude first. */
  function CellToLatLon(h3: H3Core, address: string): (r: Result<seq<real>>)
    ensures r.Err? <==> h3.cellToLatLng(address).Err?
    ensures r.Err? ==> r.error == h3.cellToLatLng(address).error
    ensures r.Ok? ==>
      && |r.value| == 2
      && r.value[0] == h3.cellToLatLng(address).value.lat
      && r.value[1] == h3.cellToLatLng(address).value.lng
  {
    var center :- h3.cellToLatLng(address);
    Ok([center.lat, center.lng])
  }

  /** The pair comes back latitude first: when H3 maps a cell's centre back
      to that cell, feeding the pair to `latLonToCell` in array order
      recovers the cell. */
  lemma CellCentreRoundTrip(h3: H3Core, cell: string, resolution: int)
    requires ValidResolution(resolution)
    requires h3.cellToLatLng(cell).Ok?
    requires h3.latLngToCellAddress(h3.cellToLatLng(cell).value.lat, h3.cellToLatLng(cell).value.lng, resolution) == cell
    ensures CellToLatLon(h3, cell).Ok?
    ensures var c := CellToLatLon(h3, cell).value; LatLonToCell(h3, c[0], c[1], resolution) == Ok(cell)
  {
  }

  /** A JTS coordinate (x = longitude, y = latitude) as an H3 `LatLng`. */
  function ToLatLng(c: Coord): LatLng
  {
    LatLng(c.y, c.x)
  }

  /** An H3 `LatLng` back as a JTS coordinate. */
  function ToCoord(p: LatLng): Coord
  {
    Coord(p.lng, p.lat)
  }

  /** The boundary `polygonToCells` builds from an exterior ring: every
      coordinate but the last, in order, each swapped to (lat, lng). */
  function RingToBoundary(coords: seq<Coord>): (boundary: seq<LatLng>)
    ensures |boundary| == if |coords| == 0 then 0 else |coords| - 1
    ensures forall i :: 0 <= i < |boundary| ==> boundary[i].lat == coords[i].y && boundary[i].lng == coords[i].x
  {
    if |coords| <= 1 then [] else [ToLatLng(coords[0])] + RingToBoundary(coords[1..])
  }

  /** The loop of `polygonToCells`, statement for statement: it builds the
      same boundary. */
  method CollectBoundary(coords: seq<Coord>) returns (boundary: seq<LatLng>)
    ensures boundary == RingToBoundary(coords)
  {
    boundary := [];
    var i := 0;
    while i < |coords| - 1
      invariant 0 <= i <= if |coords| == 0 then 0 else |coords| - 1
      invariant |boundary| == i
      invariant forall k :: 0 <= k < i ==> boundary[k] == ToLatLng(coords[k])
    {
      boundary := boundary + [LatLng(coords[i].y, coords[i].x)];
      i := i + 1;
    }
  }

  /** Turning the boundary back into coordinates gives the ring without its
      closing coordinate. */
  lemma BoundaryDropsOnlyLast(coords: seq<Coord>)
    requires |coords| >= 1
    ensures Map(RingToBoundary(coords), ToCoord) == coords[..|coords| - 1]
  {
  }

  /** Applies `f` to every element. */
  function Map<A, B>(s: seq<A>, f: A -> B): (r: seq<B>)
    ensures |r| == |s|
    ensures forall i :: 0 <= i < |s| ==> r[i] == f(s[i])
  {
    seq(|s|, i requires 0 <= i < |s| => f(s[i]))
  }

  /** Closing the boundary again recovers a closed exterior ring exactly:
      only the duplicate closing coordinate was dropped. */
  lemma BoundaryRoundTrip(coords: seq<Coord>)
    requires |coords| >= 2 && IsClosed(coords)
    ensures var open := Map(RingToBoundary(coords), ToCoord); open + [open[0]] == coords
  {
    BoundaryDropsOnlyLast(coords);
  }

  /** `polygonToCells(polygon, resolution)` over the polygon's exterior ring;
      the resolution is checked before the ring is read. */
  function PolygonToCells(h3: H3Core, exterior: seq<Coord>, resolution: int): (r: Result<seq<string>>)
    ensures r.Err? <==> !ValidResolution(resolution)
    ensures r.Err? ==> r.error == Exception(IllegalArgumentException, Some(ResolutionMsg))
    ensures r.Ok? ==> r.value == h3.polygonToCellAddresses(RingToBoundary(exterior), resolution)
  {
    if resolution < 0 || resolution > 15 then
      Throw(IllegalArgumentException, ResolutionMsg)
    else
      Ok(h3.polygonToCellAddresses(RingToBoundary(exterior), resolution))
  }

  /** `p` is one of the four corners of the latitude/longitude box. */
  predicate IsBoxCorner(minLat: real, minLon: real, maxLat: real, maxLon: real, p: LatLng)
  {
    (p.lat == minLat || p.lat == maxLat) && (p.lng == minLon || p.lng == maxLon)
  }

  /** The open four-point ring `boundingBoxToCells` builds. */
  function BoxBoundary(minLat: real, minLon: real, maxLat: real, maxLon: real): (ring: seq<LatLng>)
    ensures |ring| == 4
    // Exactly the corners, each of them, starting east along the minimum latitude.
    ensures forall i :: 0 <= i < |ring| ==> IsBoxCorner(minLat, minLon, maxLat, maxLon, ring[i])
    ensures forall p :: IsBoxCorner(minLat, minLon, maxLat, maxLon, p) ==> p in ring
    ensures ring[0] == LatLng(minLat, minLon) && ring[1] == LatLng(minLat, maxLon) && ring[2] == LatLng(maxLat, maxLon)
    // Consecutive points share a latitude or a longitude, going round.
    ensures forall i :: 0 <= i < 3 ==> ring[i].lat == ring[i + 1].lat || ring[i].lng == ring[i + 1].lng
    ensures ring[3].lat == ring[0].lat || ring[3].lng == ring[0].lng
    // No closing repeat: first and last differ unless the box has no height.
    ensures ring[0] == ring[3] <==> minLat == maxLat
  {
    [LatLng(minLat, minLon), LatLng(minLat, maxLon), LatLng(maxLat, maxLon), LatLng(maxLat, minLon)]
  }

  /** `boundingBoxToCells(minLat, minLon, maxLat, maxLon, resolution)`. */
  function BoundingBoxToCells(h3: H3Core, minLat: real, minLon: real, maxLat: real, maxLon: real, resolution: int): (r: Result<seq<string>>)
    ensures r.Err? <==> !ValidResolution(resolution)
    ensures r.Err? ==> r.error == Exception(IllegalArgumentException, Some(ResolutionMsg))
    ensures r.Ok? ==> r.value == h3.polygonToCellAddresses(BoxBoundary(minLat, minLon, maxLat, maxLon), resolution)
  {
    if resolution < 0 || resolution > 15 then
      Throw(IllegalArgumentException, ResolutionMsg)
    else
      Ok(h3.polygonToCellAddresses(BoxBoundary(minLat, minLon, maxLat, maxLon), resolution))
  }

  /** `isValidCell(address)`: false for null or empty without asking H3, and
      false when H3 throws; it never throws itself. */
  function IsValidCell(h3: H3Core, address: Option<string>): (r: bool)
    ensures r <==> address.Some? && |address.value| > 0 && h3.isValidCell(address.value) == Ok(true)
  {
    if address.None? || |address.value| == 0 then
      false
    else
      match h3.isValidCell(address.value)
      case Ok(valid) => valid
      case Err(_) => false
  }

  /** Null and empty addresses are invalid without asking H3: two H3
      instances that disagree on every address still agree on them, and an
      H3 that throws on a non-empty address also makes it invalid. */
  lemma IsValidCellRejectsNullAndEmpty(h3: H3Core, other: H3Core, address: string)
    ensures !IsValidCell(h3, None) && !IsValidCell(h3, Some(""))
    ensures |address| == 0 ==> IsValidCell(h3, Some(address)) == IsValidCell(other, Some(address))
    ensures h3.isValidCell(address).Err? ==> !IsValidCell(h3, Some(address))
  {
  }
}
