/** The two pure-or-local steps shared by `create_kml_from_utm`
    (scripts/utm_coords_to_polygon_kml.py) and `create_polygon_from_utm`
    (scripts/utm_coords_to_polygon_shapefiles.py): the choice of the WGS 84 /
    UTM EPSG code from the zone and the hemisphere, and the closing of the
    caller's coordinate ring. Both scripts contain the same two steps. */
module UtmPolygon {
  import opened Geometry

  /** EPSG codes 326zz (WGS 84 / UTM zone zz north) and 327zz (south). */
  const NorthBase: int := 32600
  const SouthBase: int := 32700

  /** `c.upper()` on the ASCII letters; every other character is kept. */
  function UpperChar(c: char): char
  {
    if 'a' <= c <= 'z' then (c as int - 'a' as int + 'A' as int) as char else c
  }

  /** `s.upper()` restricted to ASCII case mapping, character by character:
      each lower-case ASCII letter becomes its capital, everything else stays. */
  function Upper(s: string): (r: string)
    ensures |r| == |s|
    ensures forall i :: 0 <= i < |s| && 'a' <= s[i] <= 'z' ==> r[i] as int == s[i] as int - 32
    ensures forall i :: 0 <= i < |s| && !('a' <= s[i] <= 'z') ==> r[i] == s[i]
    ensures forall c :: c in r ==> !('a' <= c <= 'z')
  {
    if s == [] then [] else [UpperChar(s[0])] + Upper(s[1..])
  }

  /** The test `hemisphere.upper() == "N"`. */
  predicate IsNorth(hemisphere: string)
  {
    Upper(hemisphere) == "N"
  }

  /** Exactly the strings "n" and "N" select the northern hemisphere. */
  lemma IsNorthExactly(hemisphere: string)
    ensures IsNorth(hemisphere) <==> hemisphere == "n" || hemisphere == "N"
  {
  }

  /** The EPSG code chosen for `utm_zone` and `hemisphere`. The zone is not
      range-checked; "n" and "N" give the northern code, every other string
      (including "" and "X") the southern one. */
  function EpsgCode(utmZone: int, hemisphere: string): (code: int)
    ensures hemisphere == "n" || hemisphere == "N" ==> code == 32600 + utmZone
    ensures hemisphere != "n" && hemisphere != "N" ==> code == 32700 + utmZone
  {
    IsNorthExactly(hemisphere);
    if IsNorth(hemisphere) then NorthBase + utmZone else SouthBase + utmZone
  }

  /** The hemisphere test ignores case: an upper-cased hemisphere selects the
      same code as the hemisphere as given. */
  lemma EpsgCaseInsensitive(utmZone: int, hemisphere: string)
    ensures EpsgCode(utmZone, Upper(hemisphere)) == EpsgCode(utmZone, hemisphere)
  {
  }

  /** For the same zone the southern code is the northern code plus 100. */
  lemma EpsgHemisphereGap(utmZone: int, north: string, south: string)
    requires IsNorth(north) && !IsNorth(south)
    ensures EpsgCode(utmZone, south) == EpsgCode(utmZone, north) + 100
  {
  }

  /** What the closing step yields: the closed ring, or the IndexError that
      `coordinates[0]` raises on an empty list. */
  datatype RingResult = Closed(coords: seq<Point>) | IndexError

  /** `coords` is a closed ring: its last vertex repeats its first. */
  predicate IsClosedRing(coords: seq<Point>)
  {
    |coords| > 0 && coords[0] == coords[|coords| - 1]
  }

  /** Closing a ring: when the first vertex differs from the last, the first is
      appended. The result is a closed ring that extends the input by at most
      one vertex, and by none when the input was already closed. */
  function CloseRing(coords: seq<Point>): (r: RingResult)
    ensures r.IndexError? <==> coords == []
    ensures r.Closed? ==> IsClosedRing(r.coords) && coords <= r.coords
    ensures r.Closed? ==> |r.coords| == |coords| + (if IsClosedRing(coords) then 0 else 1)
  {
    if coords == [] then IndexError
    else if coords[0] != coords[|coords| - 1] then Closed(coords + [coords[0]])
    else Closed(coords)
  }

  /** Closing an already closed ring changes nothing. */
  lemma CloseRingIdempotent(coords: seq<Point>)
    requires CloseRing(coords).Closed?
    ensures CloseRing(CloseRing(coords).coords) == CloseRing(coords)
  {
  }

  /** The caller's list of (X, Y) coordinates, which the closing step changes
      in place: every holder of a reference to it sees the appended vertex. */
  class CoordinateList {
    var coords: seq<Point>

    constructor (init: seq<Point>)
      ensures coords == init
    {
      coords := init;
    }

    /** Appends the first vertex when it differs from the last one. On an
        empty list reading the first vertex fails and nothing changes. */
    method Close() returns (result: RingResult)
      modifies this
      ensures result == CloseRing(old(coords))
      ensures result.Closed? ==> coords == result.coords
      ensures result.IndexError? ==> coords == old(coords)
    {
      if coords == [] {
        return IndexError;
      }
      if coords[0] != coords[|coords| - 1] {
        coords := coords + [coords[0]];
      }
      result := Closed(coords);
    }
  }
}
