# ROIData: a Dafny model of OMERO's region-of-interest wrapper

`ROIData` is the client-side wrapper around an OMERO `Roi` model object. It
keeps a plane index: a sorted map from plane coordinates (z-section,
timepoint) to the list of shapes lying on that plane. It also reads and writes
the Roi's namespace and keyword metadata. The Roi stores that metadata as a
namespace array plus a keyword matrix. The wrapper exposes it as a map from
namespace to keyword list.

This project models:

- the plane index: how it is built from the Roi's shapes, how shapes are
  added and removed, and the queries on it (plane and shape counts, per-plane
  lookup, first and last plane, plane ranges);
- the namespace/keyword conversion in both directions, and the operations
  built on it;
- the "No Roi specified." and null-index error paths, and the dirty flag
  that every mutation sets.

Files (each is one module):

- `wrappers.dfy` (`Wrappers`): `Option` and `Result`. A Java exception is a
  `Failure` carrying an `Error`.
- `plane_order.dfy` (`PlaneOrder`): plane coordinates and the index's key
  order. Also the ascending enumeration of a finite key set, which is what a
  `TreeMap` iterates.
- `plane_index.dfy` (`PlaneIndex`):
  - shapes and the plane map, with the reference definitions `OnPlane` and
    `Kept` against which the index is specified;
  - building the index;
  - removing the first equal element of a list;
  - shape totals;
  - sub-maps over a plane range.
- `keywords.dfy` (`Keywords`): a Java `Map<String, List<String>>` as a list
  of entries in iteration order, with a null-able keyword type. Its
  order-free meaning is `View`, a Dafny map. Also the matrix encoding and
  the decoding.
- `roi_state.dfy` (`RoiState`): the Roi record, the `RoiData` states,
  errors, constructors, and the image link.
- `roi_shapes.dfy` (`RoiShapes`): shape and plane operations.
- `roi_namespaces.dfy` (`RoiNamespaces`): namespace and keyword operations.

Every path below is relative to the repository root.

## Model

| member | source | states |
|---|---|---|
| PlaneOrder.BeforeIsStrictTotalOrder | components/tools/OmeroJava/src/pojos/ROIData.java:78-79 | The comparator the index is built with is irreflexive, asymmetric, transitive and total. So the sorted map holds one key per plane. |
| PlaneOrder.Enumerate | components/tools/OmeroJava/src/pojos/ROIData.java:223 | The index's key set iterates in strictly ascending plane order. It lists exactly the keys, each once. |
| PlaneOrder.EnumerateIsUnique | components/tools/OmeroJava/src/pojos/ROIData.java:223 | Any ascending sequence of exactly the keys is that iteration order. The order is fully determined by the key set. |
| PlaneIndex.Initialize | components/tools/OmeroJava/src/pojos/ROIData.java:76-116 | Each plane's list holds exactly the Roi's shapes of a recognised kind on that plane, in the Roi's order. A plane is a key iff at least one such shape lies on it. The index holds as many shapes as the Roi has recognised ones. |
| PlaneIndex.RemoveFirst | components/tools/OmeroJava/src/pojos/ROIData.java:203 | Removing an element absent from the list changes nothing. Otherwise the list loses exactly one copy of it: the length drops by one and the multiset loses that element. |
| PlaneIndex.RemoveFirstAt | components/tools/OmeroJava/src/pojos/ROIData.java:203 | The copy removed is the first one, and the rest of the list keeps its order. |
| PlaneIndex.RemoveFirstAppended | components/tools/OmeroJava/src/pojos/ROIData.java:186-203 | Removing an element just appended to a list that did not hold it gives back the original list. |
| PlaneIndex.OnPlaneRemoveFirst | components/tools/OmeroJava/src/pojos/ROIData.java:203-204 | Removing a shape from the Roi and then filtering one plane equals filtering that plane and then removing the shape. So the index removal and the Roi removal agree. |
| PlaneIndex.TotalShapesUpdate | components/tools/OmeroJava/src/pojos/ROIData.java:221-231 | Replacing one plane's list changes the shape total by the difference of the two list lengths. |
| PlaneIndex.ListsWithin | components/tools/OmeroJava/src/pojos/ROIData.java:285 | Selecting the range's planes from the ascending key order gives the value lists of the sub-map restricted to that range, in plane order. |
| PlaneIndex.ListsAddLast | components/tools/OmeroJava/src/pojos/ROIData.java:252 | Adding a plane after every existing key appends its list at the end of the values' iteration. |
| RoiState.FromRoi | components/tools/OmeroJava/src/pojos/ROIData.java:125-130 | A null Roi gives a wrapper without an index. Otherwise the wrapper is clean, and its index is non-empty per plane, agrees with the Roi, and counts the Roi's recognised shapes. |
| RoiState.Create | components/tools/OmeroJava/src/pojos/ROIData.java:135-141 | The no-argument constructor wraps a new empty Roi with an empty index and is clean. |
| RoiState.SetImage | components/tools/OmeroJava/src/pojos/ROIData.java:147-154 | Without a Roi it fails with "No Roi specified.". Otherwise only the image link changes and the wrapper becomes dirty. |
| RoiState.GetImage | components/tools/OmeroJava/src/pojos/ROIData.java:160-166 | Fails exactly when there is no Roi. |
| RoiState.SetThenGetImage | components/tools/OmeroJava/src/pojos/ROIData.java:147-166 | Reading the image back returns the one just set. |
| RoiShapes.AddShape | components/tools/OmeroJava/src/pojos/ROIData.java:172-189 | The shape is appended to its plane's list, creating the plane when new. Every other plane is unchanged. The plane count grows iff the plane was new, and the shape total grows by one. The Roi gains the shape at the end, and the wrapper becomes dirty. |
| RoiShapes.RemoveShape | components/tools/OmeroJava/src/pojos/ROIData.java:195-206 | Without a Roi it fails with "No Roi specified."; on a plane with no list, with a null dereference. Otherwise the key set stays the same, even when a plane empties. The plane's list and the Roi each lose their first equal shape, and other planes are unchanged. The total drops by one iff the shape was there, and the wrapper becomes dirty. |
| RoiShapes.PlaneCount | components/tools/OmeroJava/src/pojos/ROIData.java:212-215 | The number of distinct plane keys. A wrapper without an index throws a null dereference. |
| RoiShapes.ShapeCount | components/tools/OmeroJava/src/pojos/ROIData.java:221-231 | The loop over the keys in ascending order adds up to the total number of shapes over all planes. |
| RoiShapes.GetShapes | components/tools/OmeroJava/src/pojos/ROIData.java:240-243 | Returns the list of plane (z, t) if that plane is a key, and null otherwise. |
| RoiShapes.ShapeLists | components/tools/OmeroJava/src/pojos/ROIData.java:250-253 | One list per plane: list `i` is the list of the `i`-th plane in ascending plane order. Their lengths add up to the shape total. |
| RoiShapes.FirstPlane | components/tools/OmeroJava/src/pojos/ROIData.java:260-263 | The least plane key. An empty index has no first key. |
| RoiShapes.LastPlane | components/tools/OmeroJava/src/pojos/ROIData.java:270-273 | The greatest plane key. An empty index has no last key. |
| RoiShapes.ShapesInRange | components/tools/OmeroJava/src/pojos/ROIData.java:282-286 | The lists of the planes from `start` inclusive to `end` exclusive, in plane order. The call fails when `end` comes before `start`. |
| RoiShapes.ShapesInClosedRange | components/tools/OmeroJava/src/pojos/ROIData.java:275-281 | The lists of the planes in the closed range `[start, end]`, as documented, in plane order. |
| RoiShapes.AddShapePreservesConsistency | components/tools/OmeroJava/src/pojos/ROIData.java:172-189 | After adding a shape of a recognised kind, the index still agrees with the Roi's shapes plane by plane. |
| RoiShapes.RemoveShapePreservesConsistency | components/tools/OmeroJava/src/pojos/ROIData.java:195-206 | After removing a shape, the index still agrees with the Roi's shapes plane by plane. |
| RoiShapes.AddThenRemove | components/tools/OmeroJava/src/pojos/ROIData.java:172-206 | Adding a new shape and then removing it restores the Roi and every plane's list. The only trace is that its plane stays as a key. |
| RoiShapes.GetShapesAgreesWithRoi | components/tools/OmeroJava/src/pojos/ROIData.java:240-243 | On a consistent wrapper, a plane's list is exactly the Roi's recognised shapes on that plane. |
| RoiShapes.FirstNotAfterLast | components/tools/OmeroJava/src/pojos/ROIData.java:260-273 | The first plane never comes after the last. They coincide iff the ROI lies on exactly one plane. |
| RoiShapes.RangeOmitsEndPlane | components/tools/OmeroJava/src/pojos/ROIData.java:275-286 | When `end` is a key, the documented closed range yields the half-open result plus the end plane's list. So the code drops the end plane. |
| RoiShapes.WholeRangeIsAllLists | components/tools/OmeroJava/src/pojos/ROIData.java:250-286 | The closed range from the first to the last plane yields every list of the index, in iteration order. |
| Keywords.Put | components/tools/OmeroJava/src/pojos/ROIData.java:324 | Afterwards the key maps to the new list and every other key keeps its list. Keys stay distinct, and a new key is added last. |
| Keywords.RemoveView | components/tools/OmeroJava/src/pojos/ROIData.java:342 | Removing a key leaves the map without it and with every other key unchanged. |
| Keywords.Width | components/tools/OmeroJava/src/pojos/ROIData.java:359-361 | The matrix width is the length of the longest list, and zero for an empty map. |
| Keywords.Decode | components/tools/OmeroJava/src/pojos/ROIData.java:420-428 | Reading the two arrays gives a map with distinct keys whose key set is exactly the namespace array's elements. |
| Keywords.DecodeLastWins | components/tools/OmeroJava/src/pojos/ROIData.java:422-428 | A namespace listed more than once holds the row of its last occurrence. |
| Keywords.DecodeRows | components/tools/OmeroJava/src/pojos/ROIData.java:357-369 | Reading back the arrays written for a map gives the map in the same order, with every list padded with nulls to the matrix width. |
| Keywords.PaddedIsIdentityIff | components/tools/OmeroJava/src/pojos/ROIData.java:362-368 | Padding to the width changes nothing iff every list already has that width. |
| Keywords.EncodeAbsorbsPadding | components/tools/OmeroJava/src/pojos/ROIData.java:357-369 | Encoding the padded map writes the same namespace array, width and rows as encoding the map. |
| Keywords.ViewOfPadded | components/tools/OmeroJava/src/pojos/ROIData.java:362-368 | Padding keeps the key set, and each key's list becomes its row. |
| Keywords.ViewFitsWidth | components/tools/OmeroJava/src/pojos/ROIData.java:359-368 | For every map, repeated keys or not, each list of the view fits the width, so its row is the list followed by nulls only. |
| RoiNamespaces.GetNamespaces | components/tools/OmeroJava/src/pojos/ROIData.java:377-388 | Without a Roi it fails with "No Roi specified.". Otherwise it returns the namespace array, or the empty list when that array is null. |
| RoiNamespaces.GetKeywordMap | components/tools/OmeroJava/src/pojos/ROIData.java:407-431 | Without a Roi it fails. A null matrix gives an empty map, and arrays of different lengths give the length-mismatch error. Otherwise the map's key set is exactly the namespace array, and each namespace holds the matrix row of its last occurrence. |
| RoiNamespaces.GetKeywordsOf | components/tools/OmeroJava/src/pojos/ROIData.java:395-401 | Propagates the map's errors. An absent namespace, including any namespace when the matrix is null, gives "Namespace ... does not exist.". Otherwise it returns the row of the namespace's last occurrence. |
| RoiNamespaces.SetNamespaceMap | components/tools/OmeroJava/src/pojos/ROIData.java:352-371 | The corrected method. The namespace array becomes the map's keys in iteration order. There is one matrix row per namespace, each of the maximal list length, holding the list and then nulls. Shapes, index and image are unchanged, and the wrapper becomes dirty. |
| RoiNamespaces.SetNamespaceMapAsWritten | components/tools/OmeroJava/src/pojos/ROIData.java:352-357 | As written: with a Roi, every call fails with a class-cast error. |
| RoiNamespaces.RemoveNamespaceAsWritten | components/tools/OmeroJava/src/pojos/ROIData.java:334-346 | As written: read errors propagate and an absent namespace changes nothing. A present namespace reaches the failing cast of the writer, so the call fails with a class-cast error. |
| RoiNamespaces.SetNamespaceKeywordsAsWritten | components/tools/OmeroJava/src/pojos/ROIData.java:311-328 | As written: an empty keyword array behaves as removing the namespace. Otherwise read errors propagate, and after a successful read the call fails with a class-cast error. |
| RoiNamespaces.MutatorsFailAsWritten | components/tools/OmeroJava/src/pojos/ROIData.java:325-343 | Whenever the map can be read, removing a present namespace or setting non-empty keywords fails as written and succeeds when corrected. Removing an absent namespace behaves the same in both. |
| RoiNamespaces.CastAlwaysFails | components/tools/OmeroJava/src/pojos/ROIData.java:357 | For every map, the as-written method fails while the corrected one succeeds. |
| RoiNamespaces.RemoveNamespace | components/tools/OmeroJava/src/pojos/ROIData.java:334-346 | Errors in reading the map propagate. An absent namespace leaves the wrapper exactly as it was, not even dirty. Otherwise the map without the namespace is written back through the corrected writer, `SetNamespaceMap`, and the wrapper becomes dirty, with shapes and index unchanged. |
| RoiNamespaces.SetNamespaceKeywords | components/tools/OmeroJava/src/pojos/ROIData.java:311-328 | An empty keyword array behaves exactly as removing the namespace. Otherwise map errors propagate, then the updated map is written back through the corrected writer, `SetNamespaceMap`, and the wrapper becomes dirty, with shapes and index unchanged. |
| RoiNamespaces.NamespaceMapRoundTrip | components/tools/OmeroJava/src/pojos/ROIData.java:352-431 | Reading back a written map gives that map with every list padded with nulls to the longest one. |
| RoiNamespaces.NamespaceMapRoundTripExact | components/tools/OmeroJava/src/pojos/ROIData.java:352-431 | The map read back equals the map written iff all its lists have the same length. |
| RoiNamespaces.RewriteIsStable | components/tools/OmeroJava/src/pojos/ROIData.java:352-431 | Writing back a map just read changes nothing a reader sees. The namespace array holds the same namespaces, the read-back map is the same, and every namespace reads the same keywords. The order of the array is not promised. |
| RoiNamespaces.NamespaceMapRoundTripView | components/tools/OmeroJava/src/pojos/ROIData.java:352-431 | Independent of iteration order: the map read back has exactly the written namespaces, each with its list padded with nulls to the longest. It equals the written map iff every list already has the maximal length. |
| RoiNamespaces.WrittenMapReadsBack | components/tools/OmeroJava/src/pojos/ROIData.java:395-401 | After a map is written, each of its namespaces reads back as its list padded with nulls. Any other namespace does not exist. |
| RoiNamespaces.SetKeywordsThenGet | components/tools/OmeroJava/src/pojos/ROIData.java:311-328 | After setting non-empty keywords, the namespace reads back as those keywords followed by nulls. Every other namespace keeps its keywords, padded with nulls. No namespace appears from nowhere. |
| RoiNamespaces.RemoveThenGet | components/tools/OmeroJava/src/pojos/ROIData.java:334-346 | After removal the namespace does not exist. Every other namespace keeps its keywords, padded with nulls, and no namespace appears. |

## Left out

- The plane comparator (`ROICoordinate`) is not part of this model. The model fixes it as the lexicographic order on (z-section, timepoint).
- Keywords.Put: a `HashMap` iterates in hash order, which the model does not fix. A new key is placed last.
- Keywords.DecodeRows: compares entry lists in order. The map read back lists its namespaces in first-occurrence order of the namespace array. That order is the model's choice: the source's `HashMap` iterates in hash order. The order-free content is `Keywords.ViewOfPadded` and `RoiNamespaces.NamespaceMapRoundTripView`.
- RoiNamespaces.NamespaceMapRoundTrip: equates ordered entry lists, so it depends on the model's read-back order (first occurrence). The source only guarantees the same contents. `RoiNamespaces.NamespaceMapRoundTripView` states the same round trip on the view.
- RoiNamespaces.NamespaceMapRoundTripExact: the entry-list equality depends on the model's read-back order in the same way. `RoiNamespaces.NamespaceMapRoundTripView` states the order-free equivalence.
- Shape objects are not modelled: the per-kind `ShapeData` subclasses and the `omero.model` shape types. A shape is an identifier, a kind and its plane. Shapes compare by value, and `Unsupported` stands for a kind the index skips.
- Two things about the Roi's shapes collection are not modelled:
  - An unloaded shapes collection, for which `copyShapes` returns null, is read as an empty one.
  - The Roi's own `removeShape`, which is not shown, is taken to remove the first equal shape.
- RoiShapes.ShapeCount: the Java count is a 32-bit `int`. The model counts with unbounded integers, so wrap-around past 2^31 - 1 shapes is not modelled.
- `isClientSide` and `setClientSide` only store a flag and are not modelled.
- `DataObject` and its `setValue`/`asIObject` plumbing are not part of this model. The dirty flag is a field of the wrapper.
- Several null cases in the keyword code are not modelled:
  - a null row or null keyword array passed in, or a null list stored in the map (each a null dereference in the source);
  - null namespace strings.
- The iterator returned by `getIterator` and `getShapesInRange` is modelled as the sequence it would yield. Removal through the iterator is not modelled.
- RoiShapes.GetShapes: the source returns the index's own list, not a copy (line 242). `getIterator` and `getShapesInRange` hand out the same lists (lines 252 and 285). The model returns values, so a caller that changes a returned list is not modelled. Such a change alters the index but not the Roi: adding a shape to `getShapes(0, 0)` raises `getShapeCount()` while the Roi keeps its old shapes. `RoiState.Consistent`, `RoiShapes.GetShapesAgreesWithRoi` and the two preservation lemmas hold only when callers leave the returned lists alone.
- RoiShapes.AddShape and RoiShapes.RemoveShape: a null shape is not modelled, because the `Shape` type has no null. In the source it passes the Roi check and then fails with a null dereference (lines 177 and 200).
- RoiShapes.ShapesInRange: a null `start` or `end` is not modelled, because the `Coord` type has no null. In the source the comparator fails on it inside `subMap` (line 285).

## Findings

| source | as written | input that shows it | evidently intended | confidence | as-written member | corrected member |
|---|---|---|---|---|---|---|
| components/tools/OmeroJava/src/pojos/ROIData.java:357 | `map.keySet().toArray()` returns an `Object[]`, and casting it to `String[]` throws `ClassCastException`. So `setNamespaceMap`, `removeNamespace` of a present namespace and `setNamespaceKeywords` with keywords never complete. | any wrapper with a Roi and any map, even an empty one | write the keys as a string array, then one padded row per namespace | high (not executed) | RoiNamespaces.SetNamespaceMapAsWritten | RoiNamespaces.SetNamespaceMap |
| components/tools/OmeroJava/src/pojos/ROIData.java:343 | `removeNamespace` of a present namespace calls `setNamespaceMap`, which fails at the cast of line 357. | a Roi whose arrays are `["a"]` and `[["x"]]`, removing `"a"` | the namespace is removed and the arrays rewritten | high (not executed) | RoiNamespaces.RemoveNamespaceAsWritten | RoiNamespaces.RemoveNamespace |
| components/tools/OmeroJava/src/pojos/ROIData.java:325 | `setNamespaceKeywords` with keywords calls `setNamespaceMap`, which fails at the cast of line 357. | a Roi with null arrays, setting `"a"` to `["x"]` | the namespace's keywords are set and the arrays rewritten | high (not executed) | RoiNamespaces.SetNamespaceKeywordsAsWritten | RoiNamespaces.SetNamespaceKeywords |
| components/tools/OmeroJava/src/pojos/ROIData.java:276-285 | The documentation promises the shapes in `[start, end]`, but `subMap(start, end)` excludes `end`. | an index whose only plane is (0, 0), queried with start = end = (0, 0): the result is empty instead of that plane's list | the closed range `[start, end]` | medium (not executed) | RoiShapes.ShapesInRange | RoiShapes.ShapesInClosedRange |
