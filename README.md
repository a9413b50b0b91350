# Clockwise ordering of UTM points, EPSG selection, ring closing and output names

This project models, in Dafny, the parts of the ArcGIS workflow-automation
scripts that have logic of their own. The rest of those scripts calls into a
closed geoprocessing library.

- `sort_clockwise` (scripts/sort_utm_clockwise.py) orders 2D points by angle
  around their centroid. It handles `None`, empty input and fewer than three
  points as guard cases. Otherwise it sorts by a normalised `atan2` key, looks
  for the smallest key, rotates the list to start there, and reverses the list
  in place when its first three points turn counter-clockwise.
  - Modules: `Geometry` (points, centroid, cross product), `ListOps` (slice
    rotation, `list.reverse()`, list copy), `StableSort` (Python's stable
    `sorted` with a key) and `ClockwiseSort` (the function itself).
  - `ClockwiseSort.SortClockwise` is the imperative model: an input array (`null`
    is `None`) and a fresh result array. It reverses in place with
    `ListOps.ReverseInPlace`.
  - It is proved equal to the specification function
    `ClockwiseOrder`, and the lemmas beside that function state the properties.
- The EPSG code and the ring-closing step are shared, line for line, by
  `create_kml_from_utm` (scripts/utm_coords_to_polygon_kml.py) and
  `create_polygon_from_utm` (scripts/utm_coords_to_polygon_shapefiles.py).
  Module `UtmPolygon` holds them.
  - The caller's coordinate list, which the step appends to in place, is the
    class `CoordinateList`.
- The line, polygon and shapefile names built by `process_points_to_polygon`
  (scripts/points_to_polygon_conversion.py) are in module `FeatureNames`.

Modelling choices:

- Coordinates are `real`, and the centroid is their exact mean.
- The angle key `(atan2(dy, dx) + 2π) % 2π` is the parameter
  `normalizedAtan2: (real, real) -> real`. It can be any deterministic function
  of `(dy, dx)`. No property of it is assumed, not even its range.
- Python's `sorted` is stable. It is modelled as a stable insertion sort. Its
  stability is stated as "for every key value, the points carrying it appear in
  the same order as in the input" (`StableSort.WithKey`).
- The comment at scripts/sort_utm_clockwise.py:36-38 says the sort reverses the
  order. The call at line 40 passes `reverse=False`. The model follows the code
  and sorts ascending.
- The docstring at line 13 says the original list is returned for fewer than three
  points. Line 21 returns a copy. The model follows the code.
- The smallest-key loop (lines 43-49) is kept as a method. It runs over a list
  already sorted ascending by the same key, and uses a strict `<`. So it always
  yields index 0, and the rotation at line 52 leaves the list unchanged
  (`ClockwiseSort.SmallestKeyIndexOfSorted`). For that reason the specification
  function `ClockwiseOrder` has no rotation step.

## Model

| member | source | states |
|---|---|---|
| `Geometry.SumX` | scripts/sort_utm_clockwise.py:24 | definition: the sum of the x coordinates, first point plus the sum of the rest |
| `Geometry.SumY` | scripts/sort_utm_clockwise.py:25 | definition: the sum of the y coordinates, first point plus the sum of the rest |
| `Geometry.Centroid` | scripts/sort_utm_clockwise.py:24-26 | the centroid times the number of points gives back the coordinate sums: it is their mean |
| `Geometry.SumPermutation` | scripts/sort_utm_clockwise.py:24-25 | the coordinate sums depend only on the multiset of points |
| `Geometry.CentroidPermutation` | scripts/sort_utm_clockwise.py:23-26 | reordering the input leaves the centroid, and so every angle key, unchanged |
| `Geometry.Cross` | scripts/sort_utm_clockwise.py:55-56 | definition: `(p2 - p1) x (p3 - p1)`; its properties are the four lemmas below |
| `Geometry.CrossSwap` | scripts/sort_utm_clockwise.py:55-56 | `cross_product(p1, p3, p2)` is the negation of `cross_product(p1, p2, p3)` |
| `Geometry.CrossRotate` | scripts/sort_utm_clockwise.py:55-56 | the cross product is unchanged when its three arguments are rotated |
| `Geometry.CrossDegenerate` | scripts/sort_utm_clockwise.py:55-56 | the cross product is 0 when two of the three points coincide |
| `Geometry.CrossReversed` | scripts/sort_utm_clockwise.py:55-59 | reading the three points backwards flips the sign of the cross product |
| `ListOps.Rotate` | scripts/sort_utm_clockwise.py:52 | definition: `s[k:] + s[:k]`, for `k` within the list; `RotateAt` states what it does |
| `ListOps.RotateAt` | scripts/sort_utm_clockwise.py:52 | `s[k:] + s[:k]` keeps length and multiset and puts `s[(i + k) mod n]` at position i |
| `ListOps.RotateByZero` | scripts/sort_utm_clockwise.py:52 | rotating by index 0 gives back the list |
| `ListOps.Reversed` | scripts/sort_utm_clockwise.py:59 | the reversed list has the list's length; `ReversedAt` gives its contents |
| `ListOps.ReversedAt` | scripts/sort_utm_clockwise.py:59 | position k of the reversed list holds position n - 1 - k of the list |
| `ListOps.ReversedMultiset` | scripts/sort_utm_clockwise.py:59 | reversal keeps every point with its multiplicity |
| `ListOps.ReverseInPlace` | scripts/sort_utm_clockwise.py:59 | `list.reverse()` leaves the array holding the reverse of its old contents |
| `ListOps.NewList` | scripts/sort_utm_clockwise.py:21 | the copy `points[:]` is a new list with the same elements in the same order |
| `StableSort.Insert` | scripts/sort_utm_clockwise.py:40 | one insertion step of the sort adds exactly the inserted point to the multiset |
| `StableSort.SortByKey` | scripts/sort_utm_clockwise.py:40 | `sorted` returns a permutation of its input, of the same length |
| `StableSort.SortByKeySorted` | scripts/sort_utm_clockwise.py:40 | the keys of the sorted list never decrease |
| `StableSort.SortByKeyStable` | scripts/sort_utm_clockwise.py:40 | for every key value, the points with that key keep their input order (stability) |
| `StableSort.SortedUnique` | scripts/sort_utm_clockwise.py:40 | when no two different elements share a key, two key-sorted lists with the same elements are equal |
| `StableSort.WithKeyReversed` | scripts/sort_utm_clockwise.py:40-59 | after a reversal, the points of each key appear in reverse order |
| `StableSort.ReversedSortedDescends` | scripts/sort_utm_clockwise.py:58-59 | reversing the ascending list gives non-increasing keys |
| `ClockwiseSort.AngleKey` | scripts/sort_utm_clockwise.py:29-40 | definition: the key of a point is `normalizedAtan2` of its offset `(dy, dx)` from the centroid, the lambda of line 40 |
| `ClockwiseSort.KeyOf` | scripts/sort_utm_clockwise.py:23-33 | definition: the angle key around the centroid of the given points |
| `ClockwiseSort.SortedByAngle` | scripts/sort_utm_clockwise.py:40 | definition: `sorted(points, key=angle_from_centroid, reverse=False)`; `ClockwiseOrderReversal` states that it ascends |
| `ClockwiseSort.TurnsCounterClockwise` | scripts/sort_utm_clockwise.py:58 | definition: the test `cross_product(...) > 0` on the first three points |
| `ClockwiseSort.ClockwiseOrder` | scripts/sort_utm_clockwise.py:17-61 | definition: the value `sort_clockwise` returns; the lemmas named `ClockwiseOrder...` below state its properties |
| `ClockwiseSort.SmallestKeyIndex` | scripts/sort_utm_clockwise.py:43-49 | the loop returns the first index holding the smallest key: no key is smaller, and every earlier key is strictly larger |
| `ClockwiseSort.FirstMinUnique` | scripts/sort_utm_clockwise.py:43-49 | only one index can be the first index of the smallest key, so the loop's result is determined |
| `ClockwiseSort.SmallestKeyIndexOfSorted` | scripts/sort_utm_clockwise.py:43-52 | on the list sorted by the same key the loop yields 0, and the rotation leaves the list unchanged |
| `ClockwiseSort.SortClockwise` | scripts/sort_utm_clockwise.py:17-61 | `None` or empty input gives a new empty list; otherwise the result is a new list equal to `ClockwiseOrder` of the input, which is not modified |
| `ClockwiseSort.ClockwiseOrderShortInput` | scripts/sort_utm_clockwise.py:17-21 | with fewer than three points the result equals the input, in the same order |
| `ClockwiseSort.ClockwiseOrderPermutation` | scripts/sort_utm_clockwise.py:40-61 | the result has the input's length and is a permutation of it |
| `ClockwiseSort.ClockwiseOrderReversal` | scripts/sort_utm_clockwise.py:40-61 | with three or more points: when the sorted list's first three points give a positive cross product, the result is its reverse with descending keys; otherwise it is the sorted list with ascending keys |
| `ClockwiseSort.ClockwiseOrderTies` | scripts/sort_utm_clockwise.py:40-61 | points with equal keys keep their input order in the result, or come in reverse input order when the list was reversed |
| `ClockwiseSort.ClockwiseOrderInputOrder` | scripts/sort_utm_clockwise.py:23-61 | when no two different points share an angle key, reordering the input gives the same result |
| `ClockwiseSort.ThreePointsEndClockwise` | scripts/sort_utm_clockwise.py:54-61 | with exactly three points, the result's cross product is never positive: clockwise or degenerate |
| `UtmPolygon.EpsgCode` | scripts/utm_coords_to_polygon_kml.py:20 | 32600 + zone for the hemisphere "n" or "N", 32700 + zone for every other string; the zone is not range-checked |
| `UtmPolygon.Upper` | scripts/utm_coords_to_polygon_kml.py:20 | ASCII upper-casing: keeps the length, maps each of 'a'..'z' to its capital, keeps every other character, and leaves no lower-case ASCII letter; Python's `upper()` can lengthen a string |
| `UtmPolygon.IsNorth` | scripts/utm_coords_to_polygon_kml.py:20 | definition: the test `hemisphere.upper() == "N"`; `IsNorthExactly` says which strings pass it |
| `UtmPolygon.IsNorthExactly` | scripts/utm_coords_to_polygon_kml.py:20 | `hemisphere.upper() == "N"` holds for exactly the strings "n" and "N" |
| `UtmPolygon.EpsgCaseInsensitive` | scripts/utm_coords_to_polygon_shapefiles.py:20 | upper-casing the hemisphere first does not change the chosen code |
| `UtmPolygon.EpsgHemisphereGap` | scripts/utm_coords_to_polygon_shapefiles.py:20 | for the same zone, the southern code is the northern code plus 100 |
| `UtmPolygon.CloseRing` | scripts/utm_coords_to_polygon_kml.py:25-26 | an empty list fails with IndexError; otherwise the result is a closed ring (last equals first) that extends the input, one vertex longer when it was open and unchanged when it was closed |
| `UtmPolygon.CloseRingIdempotent` | scripts/utm_coords_to_polygon_shapefiles.py:24-25 | closing an already closed ring changes nothing |
| `UtmPolygon.CoordinateList.Close` | scripts/utm_coords_to_polygon_shapefiles.py:24-25 | the caller's list object is changed in place to the closed ring; on an empty list it reports IndexError and is left unchanged |
| `FeatureNames.RemoveAll` | scripts/points_to_polygon_conversion.py:62 | `replace('$', '')` leaves no '$', and is shorter by the number of '$' |
| `FeatureNames.ReplaceAll` | scripts/points_to_polygon_conversion.py:62 | `replace(' ', '_')` keeps the length; every character of the result is '_' or a non-space character of the input |
| `FeatureNames.RemoveAllAt` | scripts/points_to_polygon_conversion.py:62 | each character other than the removed one keeps its order, shifted left by the number of removed characters before it |
| `FeatureNames.ReplaceAllAt` | scripts/points_to_polygon_conversion.py:62 | position i of the result is the replacement when the input had the replaced character there, and the input's character otherwise |
| `FeatureNames.BaseName` | scripts/points_to_polygon_conversion.py:79 | the common stem has no '$' and no ' ', and its length is the input's minus its number of '$' |
| `FeatureNames.LineName` | scripts/points_to_polygon_conversion.py:62 | definition: the stem followed by "_PointsToLine" |
| `FeatureNames.PolygonName` | scripts/points_to_polygon_conversion.py:79 | definition: the stem followed by "_Polygon" |
| `FeatureNames.ShapefileName` | scripts/points_to_polygon_conversion.py:93 | definition: the polygon name followed by ".shp"; `ShapefileNameShape` states its shape |
| `FeatureNames.BaseNameAt` | scripts/points_to_polygon_conversion.py:62 | every input character other than '$' keeps its order in the stem, shifted left by the number of '$' before it, with ' ' written as '_' |
| `FeatureNames.BaseNameIdempotent` | scripts/points_to_polygon_conversion.py:62 | deriving the stem twice gives the same stem; a name with no '$' or ' ' is its own stem |
| `FeatureNames.LineAndPolygonNames` | scripts/points_to_polygon_conversion.py:62-79 | the line name and the polygon name both start with the stem and always differ |
| `FeatureNames.ShapefileNameShape` | scripts/points_to_polygon_conversion.py:93 | the shapefile name is the polygon name followed by ".shp"; it and the line name contain no '$' and no ' ' |

## Left out

- Floating point: coordinates, the centroid and the cross product are exact reals. Rounding can change a cross product's sign or merge two keys in the program, and the model does not capture that. The program's floating-point sums at scripts/sort_utm_clockwise.py:24-25 depend on the summation order, so there the centroid, and so the keys, can depend on the input order; `CentroidPermutation` and `ClockwiseOrderInputOrder` hold for exact reals only.
- `math.atan2` and the `% (2 * math.pi)` normalisation (scripts/sort_utm_clockwise.py:29-33, 40, 44, 46) are one opaque key function. The model does not state that keys lie in [0, 2π), so clockwise order cannot be stated for more than three points. Only three points have a proved orientation (`ThreePointsEndClockwise`).
- `UtmPolygon.Upper`, `UtmPolygon.IsNorthExactly`: `str.upper()` is modelled for ASCII letters only. Python's `upper()` also maps non-ASCII letters, and lengthens some strings ('ß' becomes "SS"), while the model's keeps the length. No other character upper-cases to "N", so the hemisphere decision is the same.
- `ClockwiseSort.SortClockwise`: points are values here. In Python, the new result list holds the same point objects (each an `[x, y]` list) as the input, and the model cannot express that sharing. Only the outer list is new, and the model does capture that.
- Inputs outside the documented types are outside the model: the zone is an `int`, the hemisphere a string and each point a pair. Python accepts some of them without error: a float zone gives a float code, and a point with more than two coordinates is sorted by its first two and returned whole. Others fail in ways the model does not show: a one-coordinate point raises IndexError (with three or more points, at scripts/sort_utm_clockwise.py:25), and a `None` hemisphere raises AttributeError.
- Every call into the proprietary geoprocessing library is left out. These are foreign calls. They include spatial references, polygon construction, feature-class and geodatabase creation, insert cursors, projection, layer-to-KML, Points To Line, Feature To Polygon and Feature Class To Shapefile. The exception handling that turns their failures into `False` goes with them.
- `os.path.join`, `os.path.exists`, `os.makedirs` and all `print` output are file-system and console I/O and are left out.
- The module-level usage block of scripts/utm_coords_to_polygon_shapefiles.py (lines 48-56) and the `__main__` block of scripts/points_to_polygon_conversion.py are left out. They are I/O with placeholder data.
- scripts/fundamentals.py, scripts/basemaps.py, scripts/create_basic_layout.py, scripts/kml_to_featureclass_n_symbology.py, scripts/raster_file_information.py, scripts/arcgis_hello_world.py and scripts/split_malls_by_name.py are not part of this model. They are sequences of host-application calls with no logic of their own.
