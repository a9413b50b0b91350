/** The output names built by `process_points_to_polygon`
    (scripts/points_to_polygon_conversion.py): the input feature name with every
    '$' removed and every ' ' replaced by '_', followed by a suffix naming the
    product (line feature class, polygon feature class, shapefile). */
module FeatureNames {

  /** Number of occurrences of `c` in `s`. */
  function Count(s: string, c: char): nat
  {
    if s == [] then 0 else (if s[0] == c then 1 else 0) + Count(s[1..], c)
  }

  /** `s.replace(c, '')`: `s` without any `c`. */
  function RemoveAll(s: string, c: char): (r: string)
    ensures c !in r
    ensures |r| == |s| - Count(s, c)
  {
    if s == [] then []
    else (if s[0] == c then [] else [s[0]]) + RemoveAll(s[1..], c)
  }

  /** `s.replace(c, d)` for single characters: every `c` becomes `d`. */
  function ReplaceAll(s: string, c: char, d: char): (r: string)
    ensures |r| == |s|
    ensures forall x :: x in r ==> x == d || (x != c && x in s)
  {
    if s == [] then []
    else [if s[0] == c then d else s[0]] + ReplaceAll(s[1..], c, d)
  }

  /** `input.replace('$','').replace(' ', '_')`, the common stem of the names. */
  function BaseName(input: string): (r: string)
    ensures '$' !in r && ' ' !in r
    ensures |r| == |input| - Count(input, '$')
  {
    ReplaceAll(RemoveAll(input, '$'), ' ', '_')
  }

  /** Name of the line feature class produced by Points To Line. */
  function LineName(input: string): string
  {
    BaseName(input) + "_PointsToLine"
  }

  /** Name of the polygon feature class produced by Feature To Polygon. */
  function PolygonName(input: string): string
  {
    BaseName(input) + "_Polygon"
  }

  /** Name of the exported shapefile. */
  function ShapefileName(input: string): string
  {
    PolygonName(input) + ".shp"
  }

  /** Position i of `s`, when it is not `c`, lands at position
      i - (number of `c` before i) of `s.replace(c, '')`. */
  lemma {:induction false} RemoveAllAt(s: string, c: char, i: nat)
    requires i < |s| && s[i] != c
    ensures Count(s[..i], c) <= i
    ensures i - Count(s[..i], c) < |RemoveAll(s, c)|
    ensures RemoveAll(s, c)[i - Count(s[..i], c)] == s[i]
  {
    if i == 0 {
      assert s[..0] == [];
    } else {
      RemoveAllAt(s[1..], c, i - 1);
      assert s[..i][1..] == s[1..][..i - 1];
      assert s[..i][0] == s[0];
    }
  }

  lemma {:induction false} ReplaceAllAt(s: string, c: char, d: char, i: nat)
    requires i < |s|
    ensures ReplaceAll(s, c, d)[i] == if s[i] == c then d else s[i]
  {
    if i > 0 {
      ReplaceAllAt(s[1..], c, d, i - 1);
    }
  }

  /** Every character of the input other than '$' keeps its order in the base
      name, shifted left by the number of '$' before it, with ' ' written as '_'. */
  lemma BaseNameAt(input: string, i: nat)
    requires i < |input| && input[i] != '$'
    ensures Count(input[..i], '$') <= i
    ensures i - Count(input[..i], '$') < |BaseName(input)|
    ensures BaseName(input)[i - Count(input[..i], '$')]
            == if input[i] == ' ' then '_' else input[i]
  {
    RemoveAllAt(input, '$', i);
    ReplaceAllAt(RemoveAll(input, '$'), ' ', '_', i - Count(input[..i], '$'));
  }

  lemma {:induction false} RemoveAllAbsent(s: string, c: char)
    requires c !in s
    ensures RemoveAll(s, c) == s
  {
    if s != [] {
      RemoveAllAbsent(s[1..], c);
    }
  }

  lemma {:induction false} ReplaceAllAbsent(s: string, c: char, d: char)
    requires c !in s
    ensures ReplaceAll(s, c, d) == s
  {
    if s != [] {
      ReplaceAllAbsent(s[1..], c, d);
    }
  }

  /** A name with neither '$' nor ' ' is its own base name; in particular
      deriving the base name twice changes nothing more. */
  lemma BaseNameIdempotent(input: string)
    ensures BaseName(BaseName(input)) == BaseName(input)
    ensures '$' !in input && ' ' !in input ==> BaseName(input) == input
  {
    var b := BaseName(input);
    RemoveAllAbsent(b, '$');
    ReplaceAllAbsent(b, ' ', '_');
    if '$' !in input && ' ' !in input {
      RemoveAllAbsent(input, '$');
      ReplaceAllAbsent(input, ' ', '_');
    }
  }

  /** The line and polygon names share the base name as their prefix and
      still differ, so the two feature classes never overwrite each other. */
  lemma LineAndPolygonNames(input: string)
    ensures LineName(input)[..|BaseName(input)|] == BaseName(input)
    ensures PolygonName(input)[..|BaseName(input)|] == BaseName(input)
    ensures LineName(input) != PolygonName(input)
  {
  }

  /** The shapefile name is the polygon name with the extension ".shp"; like
      every derived name, it contains no '$' and no ' '. */
  lemma ShapefileNameShape(input: string)
    ensures ShapefileName(input)[..|PolygonName(input)|] == PolygonName(input)
    ensures ShapefileName(input)[|PolygonName(input)|..] == ".shp"
    ensures '$' !in ShapefileName(input) && ' ' !in ShapefileName(input)
    ensures '$' !in LineName(input) && ' ' !in LineName(input)
  {
  }
}
