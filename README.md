# Division 3927 parcel selection

A model of the parcel filter-and-merge script
(`01-points/prep/filter_and_merge_div3927_parcels.py`). The script finds
political ward division 3927 in the division boundary dataset. It then keeps
every stormwater billing parcel whose bounding box overlaps the division's
bounding box and whose polygon the division contains. Finally it merges the
kept parcels into one footprint.

- `wrappers.dfy`: module `Wrappers`, the `Result` type that stands for the
  exceptions that end a run.
- `bounds.dfy`: module `Bounds`, bounding boxes `(min_x, min_y, max_x, max_y)`
  and the four-comparison overlap test `BoundsIntersect`.
- `parcels.dfy`: module `ParcelSelection`, which holds the rest:
  - the division search, as a `for`/`break`/`else raise` loop (`FindDivision`)
    proved against `LookupDivision`;
  - loading the division's shape and box (`LoadDivision`);
  - the parcel loop (`FilterParcels`), proved against `SelectParcels`;
  - the whole run (`FilterAndMergeParcels`).

The geometry library is a record of function values (`Shapely`). Its fields
are `shape` (GeoJSON geometry to shape), `bounds`, `contains` and `unionAll`,
and nothing is assumed about them. Converting a geometry has three outcomes:
- a shape;
- an `AttributeError`, which a null geometry raises and which the parcel loop
  catches and skips;
- any other error, which nothing catches and which ends the run.

## Model

| member | source | states |
|---|---|---|
| `Bounds.BoundsIntersect` | 01-points/prep/filter_and_merge_div3927_parcels.py:24-33 | a well-formed box intersects itself; boxes separated by a gap on the x or y axis (either side) do not intersect; a false answer means such a gap exists (touching edges intersect) |
| `Bounds.BoundsIntersectSymmetric` | 01-points/prep/filter_and_merge_div3927_parcels.py:28-33 | the test gives the same answer with its arguments swapped |
| `Bounds.BoundsIntersectIffCommonPoint` | 01-points/prep/filter_and_merge_div3927_parcels.py:24-33 | for well-formed boxes, the test holds exactly when the two closed boxes share a point |
| `Bounds.WithinImpliesIntersect` | 01-points/prep/filter_and_merge_div3927_parcels.py:28-33 | a well-formed box lying inside another always passes the test against it |
| `ParcelSelection.FindDivision` | 01-points/prep/filter_and_merge_div3927_parcels.py:54-58 | the search loop returns what `LookupDivision` defines: the first match, a missing-key error, or "not found" naming the division |
| `ParcelSelection.LookupReturnsFirstMatch` | 01-points/prep/filter_and_merge_div3927_parcels.py:54-56 | if feature i is the first whose DIVISION_NUM equals the target, the search returns feature i |
| `ParcelSelection.LookupSucceedsOnlyOnMatch` | 01-points/prep/filter_and_merge_div3927_parcels.py:54-56 | a successful search returns a feature that matches, with every earlier feature carrying a different number |
| `ParcelSelection.LookupNotFound` | 01-points/prep/filter_and_merge_div3927_parcels.py:54-58 | the search fails with "Division <divnum> not found" exactly when every feature carries a number and none equals the target; no geometry is returned then |
| `ParcelSelection.LookupMissingProperty` | 01-points/prep/filter_and_merge_div3927_parcels.py:55 | the search aborts on a missing DIVISION_NUM exactly when a feature without it comes before any match |
| `ParcelSelection.DivisionIsFirstMatch` | 01-points/prep/filter_and_merge_div3927_parcels.py:54-61 | a loaded division is the converted shape of the first matching feature, and its box is that shape's bounds |
| `ParcelSelection.FirstMatchDecidesDivision` | 01-points/prep/filter_and_merge_div3927_parcels.py:54-61 | when feature i is the first match, loading yields its shape with that shape's bounds if its geometry converts, and the division geometry error exactly when it does not |
| `ParcelSelection.LoadDivision` | 01-points/prep/filter_and_merge_div3927_parcels.py:53-61 | loading returns what `DivisionOf` defines: a failed search's error, a geometry error when the division's geometry does not convert, or the shape with its bounds |
| `ParcelSelection.SelectParcels` | 01-points/prep/filter_and_merge_div3927_parcels.py:81-97 | the only way the parcel loop fails is the uncaught parcel geometry error, and it never outputs more shapes than it reads features |
| `ParcelSelection.KeptIndicesAreTheKept` | 01-points/prep/filter_and_merge_div3927_parcels.py:93-97 | the kept indices are exactly those whose geometry converts and passes both the box test and containment, in strictly increasing order |
| `ParcelSelection.SelectionIsOrderedFilter` | 01-points/prep/filter_and_merge_div3927_parcels.py:81-97 | on success, the k-th output shape is the converted geometry of the k-th kept feature, so the output is the input filtered in order |
| `ParcelSelection.SelectionMembership` | 01-points/prep/filter_and_merge_div3927_parcels.py:81-97 | on success, a shape is in the output exactly when some feature converts to it, its box overlaps the division's box and the division contains it |
| `ParcelSelection.AbortsExactlyOnMalformed` | 01-points/prep/filter_and_merge_div3927_parcels.py:83-91 | the parcel loop fails exactly when some geometry raises an error other than AttributeError |
| `ParcelSelection.NullGeometryIsSkipped` | 01-points/prep/filter_and_merge_div3927_parcels.py:83-91 | removing a feature whose conversion raises AttributeError, from any position, leaves the result unchanged, so later features are processed as if it were absent |
| `ParcelSelection.PrefilterKeepsEveryContainedParcel` | 01-points/prep/filter_and_merge_div3927_parcels.py:93-96 | when containment implies the parcel's well-formed box lies inside the division's box, selection equals containment alone, so the box test is only an optimization |
| `ParcelSelection.FilterParcels` | 01-points/prep/filter_and_merge_div3927_parcels.py:81-97 | the loop computes `SelectParcels`; the containment test runs only at indices whose geometry converts and whose box passes the box test; on success it runs at every such index |
| `ParcelSelection.MissingDivisionFailsRun` | 01-points/prep/filter_and_merge_div3927_parcels.py:53-58 | when every division feature carries a DIVISION_NUM and none of them is 3927, the run fails with "not found" for 3927, whatever the parcels are |
| `ParcelSelection.FilterAndMergeParcels` | 01-points/prep/filter_and_merge_div3927_parcels.py:53-103 | the run's result is `MergedFootprint`: the first error met, or the union of the selected parcels of division 3927 |

## Left out

- `01-points/prep/download_div3927_roads.py` is not part of this model. It only calls into the geospatial libraries and has no selection logic of its own.
- The two HTTP downloads and the JSON decoding are network I/O. The model takes the decoded feature lists as inputs. A response without a `features` list, or a feature without `properties` or `geometry`, raises an uncaught error that is not modelled.
- The `timer` context manager reads the wall clock. The progress messages and writing the output GeoJSON file are I/O. None of them is modelled.
- The internals of shapely (`shape`, `.bounds`, `.contains`, `union_all`, `mapping`) are computational geometry. They are uninterpreted function values, so no property of the union is proved.
- The model treats `bounds`, `contains` and `unionAll` as operations that never raise. In the script, an exception from `.contains` (line 95) or `union_all` (line 103) would end the run, and an AttributeError from `.bounds` (line 85, inside the `try`) would skip the feature.
- Coordinates are `real`. Shapely's floating-point bounds are not modelled, including the NaN bounds of an empty geometry, for which every comparison is false.
- Property values are strings. A DIVISION_NUM stored as a JSON number or null never equals the string "3927" in the script; the model has no such values.
