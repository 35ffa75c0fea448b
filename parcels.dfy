/**
 * The parcel filter-and-merge pipeline: find the division by its number,
 * turn its geometry into a shape with a bounding box, keep every parcel
 * whose box overlaps the division's box and that the division contains,
 * and merge the kept parcels into one footprint.
 *
 * The geometry library is not modelled: its operations are the function
 * values of a `Shapely` record, about which nothing is assumed.
 */
module ParcelSelection {
  import opened Wrappers
  import opened Bounds

  /** The division the run selects. */
  const DivisionNum: string := "3927"

  /** The property of a division feature that holds its four-digit number. */
  const DivisionNumKey: string := "DIVISION_NUM"

  /**
   * The outcome of converting a GeoJSON geometry into a shape. A null
   * geometry (or one without a type) makes the converter raise
   * AttributeError; any other malformed geometry raises something else.
   */
  datatype Conversion<G> = Shaped(geom: G) | AttributeFailure | OtherFailure

  /**
   * The geometry operations the pipeline calls: conversion of a raw
   * geometry `J` into a shape `G`, its bounding box, exact containment
   * (`contains(outer, inner)`) and the union of a list of shapes.
   */
  datatype Shapely<!J, !G> = Shapely(
    shape: J -> Conversion<G>,
    bounds: G -> BoundingBox,
    contains: (G, G) -> bool,
    unionAll: seq<G> -> G)

  /** A GeoJSON feature: its properties and its raw geometry. */
  datatype Feature<J> = Feature(properties: map<string, string>, geometry: J)

  /** The selected division: its shape and that shape's bounding box. */
  datatype Division<G> = Division(geom: G, bbox: BoundingBox)

  /** The ways a run can end without writing a footprint. */
  datatype LoadError =
    | DivisionNotFound(divnum: string)     // "Division <divnum> not found."
    | MissingProperty(key: string)         // a division feature without the key
    | DivisionGeometryFailed               // the division's geometry did not convert
    | ParcelGeometryFailed                 // a parcel geometry raised other than AttributeError

  // ---------------------------------------------------------------------
  // Division lookup

  /** The feature is the division with number `divnum`. */
  predicate IsDivision<J>(f: Feature<J>, divnum: string) {
    DivisionNumKey in f.properties && f.properties[DivisionNumKey] == divnum
  }

  /** The search reads the feature's number and moves past it. */
  predicate PassedOver<J>(f: Feature<J>, divnum: string) {
    DivisionNumKey in f.properties && f.properties[DivisionNumKey] != divnum
  }

  /** Index i holds the first feature the search stops at with a match. */
  ghost predicate FirstMatchAt<J>(features: seq<Feature<J>>, divnum: string, i: int) {
    0 <= i < |features| && IsDivision(features[i], divnum) &&
    forall j :: 0 <= j < i ==> PassedOver(features[j], divnum)
  }

  /** Index i holds the first feature without the key, before any match. */
  ghost predicate FirstMissingAt<J>(features: seq<Feature<J>>, divnum: string, i: int) {
    0 <= i < |features| && DivisionNumKey !in features[i].properties &&
    forall j :: 0 <= j < i ==> PassedOver(features[j], divnum)
  }

  /** What the search over the division features yields, front to back. */
  function LookupDivision<J>(features: seq<Feature<J>>, divnum: string): Result<Feature<J>, LoadError>
    decreases |features|
  {
    if features == [] then Failure(DivisionNotFound(divnum))
    else if DivisionNumKey !in features[0].properties then Failure(MissingProperty(DivisionNumKey))
    else if features[0].properties[DivisionNumKey] == divnum then Success(features[0])
    else LookupDivision(features[1..], divnum)
  }

  /** The search returns the first matching feature. */
  lemma {:induction false} LookupReturnsFirstMatch<J>(features: seq<Feature<J>>, divnum: string, i: int)
    requires FirstMatchAt(features, divnum, i)
    ensures LookupDivision(features, divnum) == Success(features[i])
    decreases |features|
  {
    if i > 0 {
      assert PassedOver(features[0], divnum);
      LookupReturnsFirstMatch(features[1..], divnum, i - 1);
    }
  }

  /** The search succeeds only with a first matching feature. */
  lemma {:induction false} LookupSucceedsOnlyOnMatch<J>(features: seq<Feature<J>>, divnum: string)
    requires LookupDivision(features, divnum).Success?
    ensures exists i :: FirstMatchAt(features, divnum, i) &&
                        features[i] == LookupDivision(features, divnum).value
    decreases |features|
  {
    if IsDivision(features[0], divnum) {
      assert FirstMatchAt(features, divnum, 0);
    } else {
      LookupSucceedsOnlyOnMatch(features[1..], divnum);
      var i :| FirstMatchAt(features[1..], divnum, i) &&
               features[1..][i] == LookupDivision(features[1..], divnum).value;
      assert FirstMatchAt(features, divnum, i + 1);
    }
  }

  /**
   * The search fails with "not found", naming the division, exactly when
   * every feature carries a number and none of them is `divnum`.
   */
  lemma {:induction false} LookupNotFound<J>(features: seq<Feature<J>>, divnum: string)
    ensures LookupDivision(features, divnum) == Failure(DivisionNotFound(divnum)) <==>
            forall j :: 0 <= j < |features| ==> PassedOver(features[j], divnum)
    decreases |features|
  {
    if features != [] {
      LookupNotFound(features[1..], divnum);
      if forall j :: 0 <= j < |features[1..]| ==> PassedOver(features[1..][j], divnum) {
        if PassedOver(features[0], divnum) {
          forall j | 0 <= j < |features| ensures PassedOver(features[j], divnum) {
            if j > 0 { assert features[j] == features[1..][j - 1]; }
          }
        }
      }
    }
  }

  /**
   * The search aborts on a missing number exactly when a feature without
   * the key comes before any match.
   */
  lemma {:induction false} LookupMissingProperty<J>(features: seq<Feature<J>>, divnum: string)
    ensures LookupDivision(features, divnum) == Failure(MissingProperty(DivisionNumKey)) <==>
            exists i :: FirstMissingAt(features, divnum, i)
    decreases |features|
  {
    if features != [] {
      LookupMissingProperty(features[1..], divnum);
      if DivisionNumKey !in features[0].properties {
        assert FirstMissingAt(features, divnum, 0);
      } else {
        if exists i :: FirstMissingAt(features[1..], divnum, i) {
          var i :| FirstMissingAt(features[1..], divnum, i);
          if PassedOver(features[0], divnum) {
            assert FirstMissingAt(features, divnum, i + 1);
          }
        }
        if exists i :: FirstMissingAt(features, divnum, i) {
          var i :| FirstMissingAt(features, divnum, i);
          assert i > 0;
          assert FirstMissingAt(features[1..], divnum, i - 1);
        }
      }
    }
  }

  /** The `for ... break / else raise` search over the division features. */
  method FindDivision<J>(features: seq<Feature<J>>, divnum: string) returns (r: Result<Feature<J>, LoadError>)
    ensures r == LookupDivision(features, divnum)
  {
    var i := 0;
    while i < |features|
      invariant 0 <= i <= |features|
      invariant LookupDivision(features, divnum) == LookupDivision(features[i..], divnum)
    {
      var properties := features[i].properties;
      if DivisionNumKey !in properties {
        return Failure(MissingProperty(DivisionNumKey));
      }
      if properties[DivisionNumKey] == divnum {
        return Success(features[i]);
      }
      assert features[i..][1..] == features[i + 1..];
      i := i + 1;
    }
    r := Failure(DivisionNotFound(divnum));
  }

  /** The found division's shape and bounding box, or why there is none. */
  function DivisionOf<J, G>(ops: Shapely<J, G>, features: seq<Feature<J>>, divnum: string): Result<Division<G>, LoadError>
  {
    match LookupDivision(features, divnum)
    case Failure(e) => Failure(e)
    case Success(f) =>
      match ops.shape(f.geometry)
      case Shaped(g) => Success(Division(g, ops.bounds(g)))
      case _ => Failure(DivisionGeometryFailed)
  }

  /**
   * A loaded division is the first matching feature's converted shape, and
   * its box is that shape's bounds.
   */
  lemma DivisionIsFirstMatch<J, G>(ops: Shapely<J, G>, features: seq<Feature<J>>, divnum: string)
    requires DivisionOf(ops, features, divnum).Success?
    ensures var div := DivisionOf(ops, features, divnum).value;
            div.bbox == ops.bounds(div.geom) &&
            exists i :: FirstMatchAt(features, divnum, i) &&
                        ops.shape(features[i].geometry) == Shaped(div.geom)
  {
    LookupSucceedsOnlyOnMatch(features, divnum);
  }

  /**
   * The converse: once the search stops at the first match, loading yields
   * that feature's shape with its bounds when its geometry converts, and
   * the division geometry error exactly when it does not.
   */
  lemma FirstMatchDecidesDivision<J, G>(ops: Shapely<J, G>, features: seq<Feature<J>>, divnum: string, i: int)
    requires FirstMatchAt(features, divnum, i)
    ensures match ops.shape(features[i].geometry)
            case Shaped(g) => DivisionOf(ops, features, divnum) == Success(Division(g, ops.bounds(g)))
            case _ => DivisionOf(ops, features, divnum) == Failure(DivisionGeometryFailed)
  {
    LookupReturnsFirstMatch(features, divnum, i);
  }

  /** Looks the division up and converts its geometry; nothing here is caught. */
  method LoadDivision<J, G>(ops: Shapely<J, G>, features: seq<Feature<J>>, divnum: string)
    returns (r: Result<Division<G>, LoadError>)
    ensures r == DivisionOf(ops, features, divnum)
  {
    var found := FindDivision(features, divnum);
    if found.Failure? {
      return Failure(found.error);
    }
    var converted := ops.shape(found.value.geometry);
    if !converted.Shaped? {
      return Failure(DivisionGeometryFailed);
    }
    var divisionGeom := converted.geom;
    r := Success(Division(divisionGeom, ops.bounds(divisionGeom)));
  }

  // ---------------------------------------------------------------------
  // Parcel filter

  /** The parcel passes the cheap box test and the exact containment test. */
  predicate Selected<J, G>(ops: Shapely<J, G>, div: Division<G>, g: G) {
    BoundsIntersect(div.bbox, ops.bounds(g)) && ops.contains(div.geom, g)
  }

  /** The feature's geometry converts and its shape's box overlaps the division's box. */
  ghost predicate PassesBoxTest<J, G>(ops: Shapely<J, G>, div: Division<G>, f: Feature<J>) {
    ops.shape(f.geometry).Shaped? && BoundsIntersect(div.bbox, ops.bounds(ops.shape(f.geometry).geom))
  }

  /** The feature's geometry converts and its shape is selected. */
  ghost predicate Kept<J, G>(ops: Shapely<J, G>, div: Division<G>, f: Feature<J>) {
    ops.shape(f.geometry).Shaped? && Selected(ops, div, ops.shape(f.geometry).geom)
  }

  /** The feature's geometry raises something other than AttributeError. */
  ghost predicate Malformed<J, G>(ops: Shapely<J, G>, f: Feature<J>) {
    ops.shape(f.geometry).OtherFailure?
  }

  /**
   * What the parcel loop has built after the given features, taken in
   * order: a null geometry is skipped, any other conversion error ends the
   * run, and a shape is appended when it is selected.
   */
  function SelectParcels<J, G>(ops: Shapely<J, G>, div: Division<G>, features: seq<Feature<J>>): (r: Result<seq<G>, LoadError>)
    ensures r.Failure? ==> r.error == ParcelGeometryFailed
    ensures r.Success? ==> |r.value| <= |features|
    decreases |features|
  {
    if features == [] then Success([])
    else
      var last := |features| - 1;
      match SelectParcels(ops, div, features[..last])
      case Failure(e) => Failure(e)
      case Success(acc) =>
        match ops.shape(features[last].geometry)
        case OtherFailure => Failure(ParcelGeometryFailed)
        case AttributeFailure => Success(acc)
        case Shaped(g) => if Selected(ops, div, g) then Success(acc + [g]) else Success(acc)
  }

  /** The indices of the kept features, in input order. */
  ghost function KeptIndices<J, G>(ops: Shapely<J, G>, div: Division<G>, features: seq<Feature<J>>): seq<nat>
    decreases |features|
  {
    if features == [] then []
    else
      var last := |features| - 1;
      KeptIndices(ops, div, features[..last]) + (if Kept(ops, div, features[last]) then [last] else [])
  }

  /**
   * KeptIndices lists every kept feature's index and nothing else, in
   * strictly increasing order.
   */
  lemma {:induction false} KeptIndicesAreTheKept<J, G>(ops: Shapely<J, G>, div: Division<G>, features: seq<Feature<J>>)
    ensures var idx := KeptIndices(ops, div, features);
            (forall k, l :: 0 <= k < l < |idx| ==> idx[k] < idx[l]) &&
            (forall i :: i in idx <==> 0 <= i < |features| && Kept(ops, div, features[i]))
    decreases |features|
  {
    if features != [] {
      var last := |features| - 1;
      var prefix := features[..last];
      KeptIndicesAreTheKept(ops, div, prefix);
      var idx := KeptIndices(ops, div, prefix);
      assert forall k :: 0 <= k < |idx| ==> idx[k] in idx;
      assert forall i :: i in idx ==> i < last;
      forall i | 0 <= i < last ensures features[i] == prefix[i] { }
    }
  }

  /**
   * A successful run's output is the ordered filter of the input: its k-th
   * shape is the converted geometry of the k-th kept feature.
   */
  lemma {:induction false} SelectionIsOrderedFilter<J, G>(ops: Shapely<J, G>, div: Division<G>, features: seq<Feature<J>>)
    requires SelectParcels(ops, div, features).Success?
    ensures var out, idx := SelectParcels(ops, div, features).value, KeptIndices(ops, div, features);
            |out| == |idx| &&
            forall k :: 0 <= k < |idx| ==> idx[k] < |features| && ops.shape(features[idx[k]].geometry) == Shaped(out[k])
    decreases |features|
  {
    if features != [] {
      var last := |features| - 1;
      var prefix := features[..last];
      SelectionIsOrderedFilter(ops, div, prefix);
      var idx := KeptIndices(ops, div, prefix);
      forall k | 0 <= k < |idx| ensures features[idx[k]] == prefix[idx[k]] { }
    }
  }

  /**
   * A shape is in a successful run's output exactly when some feature's
   * geometry converts to it and it is selected.
   */
  lemma SelectionMembership<J, G>(ops: Shapely<J, G>, div: Division<G>, features: seq<Feature<J>>, g: G)
    requires SelectParcels(ops, div, features).Success?
    ensures g in SelectParcels(ops, div, features).value <==>
            exists i :: 0 <= i < |features| && ops.shape(features[i].geometry) == Shaped(g) && Selected(ops, div, g)
  {
    var out, idx := SelectParcels(ops, div, features).value, KeptIndices(ops, div, features);
    SelectionIsOrderedFilter(ops, div, features);
    KeptIndicesAreTheKept(ops, div, features);
    if g in out {
      var k :| 0 <= k < |out| && out[k] == g;
      assert idx[k] in idx;
      assert ops.shape(features[idx[k]].geometry) == Shaped(g);
    }
    if exists i :: 0 <= i < |features| && ops.shape(features[i].geometry) == Shaped(g) && Selected(ops, div, g) {
      var i :| 0 <= i < |features| && ops.shape(features[i].geometry) == Shaped(g) && Selected(ops, div, g);
      assert Kept(ops, div, features[i]);
      var k :| 0 <= k < |idx| && idx[k] == i;
      assert out[k] == g;
    }
  }

  /** The run aborts exactly when some parcel geometry is malformed. */
  lemma {:induction false} AbortsExactlyOnMalformed<J, G>(ops: Shapely<J, G>, div: Division<G>, features: seq<Feature<J>>)
    ensures SelectParcels(ops, div, features).Failure? <==>
            exists i :: 0 <= i < |features| && Malformed(ops, features[i])
    decreases |features|
  {
    if features != [] {
      var last := |features| - 1;
      var prefix := features[..last];
      AbortsExactlyOnMalformed(ops, div, prefix);
      if exists i :: 0 <= i < |prefix| && Malformed(ops, prefix[i]) {
        var i :| 0 <= i < |prefix| && Malformed(ops, prefix[i]);
        assert Malformed(ops, features[i]);
      }
      if exists i :: 0 <= i < |features| && Malformed(ops, features[i]) {
        var i :| 0 <= i < |features| && Malformed(ops, features[i]);
        if i < last {
          assert Malformed(ops, prefix[i]);
        }
      }
    }
  }

  /**
   * A feature whose geometry raises AttributeError is skipped: removing it
   * from anywhere in the input changes nothing, so later features are
   * processed as if it were absent.
   */
  lemma {:induction false} NullGeometryIsSkipped<J, G>(ops: Shapely<J, G>, div: Division<G>,
                                                       before: seq<Feature<J>>, f: Feature<J>, after: seq<Feature<J>>)
    requires ops.shape(f.geometry).AttributeFailure?
    ensures SelectParcels(ops, div, before + [f] + after) == SelectParcels(ops, div, before + after)
    decreases |after|
  {
    if after == [] {
      assert (before + [f] + after)[..|before|] == before;
      assert before + after == before;
    } else {
      var last := |after| - 1;
      NullGeometryIsSkipped(ops, div, before, f, after[..last]);
      assert (before + [f] + after)[..|before| + 1 + last] == before + [f] + after[..last];
      assert (before + after)[..|before| + last] == before + after[..last];
    }
  }

  /**
   * Whenever containment implies that the parcel's box is well formed and
   * lies inside the division's box, the prefilter rejects only parcels the
   * containment test would reject too: it is an optimization only.
   */
  lemma PrefilterKeepsEveryContainedParcel<J, G>(ops: Shapely<J, G>, div: Division<G>, g: G)
    requires div.bbox == ops.bounds(div.geom)
    requires ops.contains(div.geom, g) ==> WellFormed(ops.bounds(g)) && Within(ops.bounds(g), div.bbox)
    ensures Selected(ops, div, g) <==> ops.contains(div.geom, g)
  {
    if ops.contains(div.geom, g) {
      WithinImpliesIntersect(ops.bounds(g), div.bbox);
    }
  }

  /**
   * The parcel loop. A null geometry is skipped; any other conversion error
   * propagates; the containment test runs only after the box test passes.
   * `probed` records the indices at which the containment test ran.
   */
  method FilterParcels<J, G>(ops: Shapely<J, G>, div: Division<G>, features: seq<Feature<J>>)
    returns (r: Result<seq<G>, LoadError>, ghost probed: seq<nat>)
    ensures r == SelectParcels(ops, div, features)
    ensures forall k :: k in probed ==> k < |features| && PassesBoxTest(ops, div, features[k])
    ensures r.Success? ==> forall k :: 0 <= k < |features| && PassesBoxTest(ops, div, features[k]) ==> k in probed
  {
    var parcelGeoms: seq<G> := [];
    probed := [];
    var i := 0;
    while i < |features|
      invariant 0 <= i <= |features|
      invariant SelectParcels(ops, div, features[..i]) == Success(parcelGeoms)
      invariant forall k :: k in probed ==> k < i && PassesBoxTest(ops, div, features[k])
      invariant forall k :: 0 <= k < i && PassesBoxTest(ops, div, features[k]) ==> k in probed
    {
      assert features[..i + 1][..i] == features[..i];
      var converted := ops.shape(features[i].geometry);
      if converted.OtherFailure? {
        AbortsExactlyOnMalformed(ops, div, features);
        assert Malformed(ops, features[i]);
        return Failure(ParcelGeometryFailed), probed;
      }
      if converted.Shaped? {
        var parcelGeom := converted.geom;
        var parcelBbox := ops.bounds(parcelGeom);
        var keep := BoundsIntersect(div.bbox, parcelBbox);
        if keep {
          probed := probed + [i];
          keep := ops.contains(div.geom, parcelGeom);
        }
        if keep {
          parcelGeoms := parcelGeoms + [parcelGeom];
        }
      }
      i := i + 1;
    }
    assert features[..i] == features;
    r := Success(parcelGeoms);
  }

  // ---------------------------------------------------------------------
  // The whole run

  /** The composite footprint the run writes, or the error that stops it. */
  function MergedFootprint<J, G>(ops: Shapely<J, G>, divisions: seq<Feature<J>>, parcels: seq<Feature<J>>): Result<G, LoadError>
  {
    match DivisionOf(ops, divisions, DivisionNum)
    case Failure(e) => Failure(e)
    case Success(div) =>
      match SelectParcels(ops, div, parcels)
      case Failure(e) => Failure(e)
      case Success(kept) => Success(ops.unionAll(kept))
  }

  /**
   * When every division feature carries a DIVISION_NUM and none of them is
   * 3927, the run fails with the not-found error naming 3927, whatever the
   * parcels are.
   */
  lemma MissingDivisionFailsRun<J, G>(ops: Shapely<J, G>, divisions: seq<Feature<J>>, parcels: seq<Feature<J>>)
    requires forall j :: 0 <= j < |divisions| ==> PassedOver(divisions[j], DivisionNum)
    ensures MergedFootprint(ops, divisions, parcels) == Failure(DivisionNotFound(DivisionNum))
  {
    LookupNotFound(divisions, DivisionNum);
  }

  /**
   * The run: load division 3927, select the parcels inside it and merge
   * them into one footprint. Downloads and writing the file are not here.
   */
  method FilterAndMergeParcels<J, G>(ops: Shapely<J, G>, divisions: seq<Feature<J>>, parcels: seq<Feature<J>>)
    returns (r: Result<G, LoadError>)
    ensures r == MergedFootprint(ops, divisions, parcels)
  {
    var division := LoadDivision(ops, divisions, DivisionNum);
    if division.Failure? {
      return Failure(division.error);
    }
    var selected, _ := FilterParcels(ops, division.value, parcels);
    if selected.Failure? {
      return Failure(selected.error);
    }
    r := Success(ops.unionAll(selected.value));
  }
}
