/**
 * The shape operations of an ROIData: adding and removing shapes, and the
 * queries over its plane index (counts, one plane's list, first and last
 * plane, the lists of a range of planes).
 */
module RoiShapes {
  import opened Wrappers
  import opened PlaneOrder
  import opened PlaneIndex
  import opened RoiState

  /**
   * Adds a shape: appends it to the list of its plane (creating the list
   * for a new plane), appends it to the Roi's shapes and marks the data
   * object dirty.
   */
  function AddShape(d: RoiData, s: Shape): (r: Result<RoiData, Error>)
    ensures d.Unbound? ==> r == Failure(NoRoiSpecified)
    ensures d.Bound? ==> r.Success? && r.value.Bound?
    ensures d.Bound? ==> ListAt(r.value.planes, s.Plane()) == ListAt(d.planes, s.Plane()) + [s]
    ensures d.Bound? ==> forall c :: c != s.Plane() ==>
              (c in r.value.planes <==> c in d.planes) && ListAt(r.value.planes, c) == ListAt(d.planes, c)
    ensures d.Bound? ==> |r.value.planes| == |d.planes| + (if s.Plane() in d.planes then 0 else 1)
    ensures d.Bound? ==> TotalShapes(r.value.planes) == TotalShapes(d.planes) + 1
    ensures d.Bound? ==> r.value.roi == d.roi.(shapes := d.roi.shapes + [s]) && r.value.dirty
  {
    match d
    case Unbound => Failure(NoRoiSpecified)
    case Bound(roi, planes, _) =>
      TotalShapesUpdate(planes, s.Plane(), ListAt(planes, s.Plane()) + [s]);
      assert Append(planes, s).Keys == planes.Keys + {s.Plane()};
      Success(Bound(roi.(shapes := roi.shapes + [s]), Append(planes, s), true))
  }

  /** The plane of `s` has a list in the index, so `s` can be removed without a null dereference. */
  predicate HasPlaneOf(d: RoiData, s: Shape) {
    d.Bound? && s.Plane() in d.planes
  }

  /**
   * Removes a shape: drops its first occurrence from the list of its plane,
   * keeping the plane even when its list becomes empty, drops it from the
   * Roi's shapes and marks the data object dirty. A plane without a list is
   * a null dereference.
   */
  function RemoveShape(d: RoiData, s: Shape): (r: Result<RoiData, Error>)
    ensures d.Unbound? ==> r == Failure(NoRoiSpecified)
    ensures d.Bound? && s.Plane() !in d.planes ==> r == Failure(NullPointer)
    ensures HasPlaneOf(d, s) ==> r.Success? && r.value.Bound?
    ensures HasPlaneOf(d, s) ==> r.value.planes.Keys == d.planes.Keys
    ensures HasPlaneOf(d, s) ==> r.value.planes[s.Plane()] == RemoveFirst(d.planes[s.Plane()], s)
    ensures HasPlaneOf(d, s) ==> forall c :: c in d.planes && c != s.Plane() ==> r.value.planes[c] == d.planes[c]
    ensures HasPlaneOf(d, s) ==>
              TotalShapes(r.value.planes) + (if s in d.planes[s.Plane()] then 1 else 0) == TotalShapes(d.planes)
    ensures HasPlaneOf(d, s) ==> r.value.roi == d.roi.(shapes := RemoveFirst(d.roi.shapes, s)) && r.value.dirty
  {
    match d
    case Unbound => Failure(NoRoiSpecified)
    case Bound(roi, planes, _) =>
      var c := s.Plane();
      if c !in planes then Failure(NullPointer)
      else
        var list := RemoveFirst(planes[c], s);
        TotalShapesUpdate(planes, c, list);
        Success(Bound(roi.(shapes := RemoveFirst(roi.shapes, s)), planes[c := list], true))
  }

  /** Number of planes the ROI occupies: the number of distinct plane keys. */
  function PlaneCount(d: RoiData): (r: Result<nat, Error>)
    ensures d.Unbound? ==> r == Failure(NullPointer)
    ensures d.Bound? ==> r == Success(|d.planes.Keys|)
  {
    match d
    case Unbound => Failure(NullPointer)
    case Bound(_, planes, _) => Success(|planes|)
  }

  /** Number of shapes in the ROI, counted plane by plane in ascending plane order. */
  method ShapeCount(d: RoiData) returns (r: Result<nat, Error>)
    ensures d.Unbound? ==> r == Failure(NullPointer)
    ensures d.Bound? ==> r == Success(TotalShapes(d.planes))
  {
    if d.Unbound? {
      return Failure(NullPointer);
    }
    var ks := Enumerate(d.planes.Keys);
    ghost var ls := Lists(d.planes);
    var count := 0;
    var i := 0;
    while i < |ks|
      invariant 0 <= i <= |ks|
      invariant count == SumLengths(ls[..i])
    {
      assert ls[..i + 1][..i] == ls[..i];
      count := count + |d.planes[ks[i]]|;
      i := i + 1;
    }
    assert ls[..i] == ls;
    return Success(count);
  }

  /** The list of shapes on plane (z, t), or null when the plane has none. */
  function GetShapes(d: RoiData, z: int, t: int): (r: Result<Option<seq<Shape>>, Error>)
    ensures d.Unbound? ==> r == Failure(NullPointer)
    ensures d.Bound? ==> r.Success? && (r.value.Some? <==> Coord(z, t) in d.planes)
    ensures d.Bound? && r.value.Some? ==> r.value.value == d.planes[Coord(z, t)]
  {
    match d
    case Unbound => Failure(NullPointer)
    case Bound(_, planes, _) =>
      var c := Coord(z, t);
      Success(if c in planes then Some(planes[c]) else None)
  }

  /** The per-plane lists in ascending plane order, as the index's values iterate. */
  function ShapeLists(d: RoiData): (r: Result<seq<seq<Shape>>, Error>)
    ensures d.Unbound? ==> r == Failure(NullPointer)
    ensures d.Bound? ==> r.Success? && |r.value| == |d.planes| && SumLengths(r.value) == TotalShapes(d.planes)
    ensures d.Bound? ==> var ks := Enumerate(d.planes.Keys);
              forall i :: 0 <= i < |r.value| ==> ks[i] in d.planes && r.value[i] == d.planes[ks[i]]
  {
    match d
    case Unbound => Failure(NullPointer)
    case Bound(_, planes, _) => Success(Lists(planes))
  }

  /** The first plane the ROI lies on; an empty index has none. */
  function FirstPlane(d: RoiData): (r: Result<Coord, Error>)
    ensures d.Unbound? ==> r == Failure(NullPointer)
    ensures d.Bound? && d.planes == map[] ==> r == Failure(NoSuchElement)
    ensures d.Bound? && d.planes != map[] ==> r.Success? && IsLeast(r.value, d.planes.Keys)
  {
    match d
    case Unbound => Failure(NullPointer)
    case Bound(_, planes, _) =>
      if planes == map[] then Failure(NoSuchElement)
      else
        var ks := Enumerate(planes.Keys);
        assert |ks| > 0;
        HeadIsLeast(ks);
        Success(ks[0])
  }

  /** The last plane the ROI lies on; an empty index has none. */
  function LastPlane(d: RoiData): (r: Result<Coord, Error>)
    ensures d.Unbound? ==> r == Failure(NullPointer)
    ensures d.Bound? && d.planes == map[] ==> r == Failure(NoSuchElement)
    ensures d.Bound? && d.planes != map[] ==> r.Success? && IsGreatest(r.value, d.planes.Keys)
  {
    match d
    case Unbound => Failure(NullPointer)
    case Bound(_, planes, _) =>
      if planes == map[] then Failure(NoSuchElement)
      else
        var ks := Enumerate(planes.Keys);
        assert |ks| > 0;
        LastIsGreatest(ks);
        Success(ks[|ks| - 1])
  }

  /**
   * The lists of the planes k with start <= k < end, in plane order (the
   * sorted map's half-open sub-map). A start after the end is rejected.
   */
  function ShapesInRange(d: RoiData, start: Coord, end: Coord): (r: Result<seq<seq<Shape>>, Error>)
    ensures d.Unbound? ==> r == Failure(NullPointer)
    ensures d.Bound? && Before(end, start) ==> r == Failure(IllegalRange)
    ensures d.Bound? && !Before(end, start) ==> r == Success(Lists(SubMap(d.planes, Range(start, end, false))))
  {
    match d
    case Unbound => Failure(NullPointer)
    case Bound(_, planes, _) =>
      if Before(end, start) then Failure(IllegalRange)
      else Success(ListsWithin(planes, Range(start, end, false)))
  }

  /** The lists of the planes k with start <= k <= end, in plane order, as the range is documented. */
  function ShapesInClosedRange(d: RoiData, start: Coord, end: Coord): (r: Result<seq<seq<Shape>>, Error>)
    ensures d.Unbound? ==> r == Failure(NullPointer)
    ensures d.Bound? && Before(end, start) ==> r == Failure(IllegalRange)
    ensures d.Bound? && !Before(end, start) ==> r == Success(Lists(SubMap(d.planes, Range(start, end, true))))
  {
    match d
    case Unbound => Failure(NullPointer)
    case Bound(_, planes, _) =>
      if Before(end, start) then Failure(IllegalRange)
      else Success(ListsWithin(planes, Range(start, end, true)))
  }

  /** Adding a recognised shape keeps the plane index in agreement with the Roi. */
  lemma AddShapePreservesConsistency(d: RoiData, s: Shape)
    requires d.Bound? && Consistent(d) && Recognised(s.kind)
    ensures Consistent(AddShape(d, s).value)
  {
    OnPlaneSnoc(d.roi.shapes, s);
  }

  /** Removing a shape keeps the plane index in agreement with the Roi. */
  lemma RemoveShapePreservesConsistency(d: RoiData, s: Shape)
    requires HasPlaneOf(d, s) && Consistent(d)
    ensures Consistent(RemoveShape(d, s).value)
  {
    var d' := RemoveShape(d, s).value;
    forall c
      ensures ListAt(d'.planes, c) == OnPlane(d'.roi.shapes, c)
    {
      OnPlaneRemoveFirst(d.roi.shapes, s, c);
      if c != s.Plane() {
        OnPlaneMembers(d.roi.shapes, c, s);
      }
    }
  }

  /**
   * Removing a shape just added gives every plane its old list back, but a
   * plane the addition created stays in the index with an empty list.
   */
  lemma AddThenRemove(d: RoiData, s: Shape)
    requires d.Bound? && s !in ListAt(d.planes, s.Plane()) && s !in d.roi.shapes
    ensures RemoveShape(AddShape(d, s).value, s).Success?
    ensures var d' := RemoveShape(AddShape(d, s).value, s).value;
            && d'.roi == d.roi
            && d'.dirty
            && d'.planes.Keys == d.planes.Keys + {s.Plane()}
            && forall c :: ListAt(d'.planes, c) == ListAt(d.planes, c)
  {
    var p := s.Plane();
    var d1 := AddShape(d, s).value;
    assert d1.planes[p] == ListAt(d.planes, p) + [s];
    assert d1.roi.shapes == d.roi.shapes + [s];
    RemoveFirstAppended(ListAt(d.planes, p), s);
    RemoveFirstAppended(d.roi.shapes, s);
    var d' := RemoveShape(d1, s).value;
    assert d'.planes[p] == ListAt(d.planes, p);
    assert d'.roi == d.roi;
    assert d1.planes.Keys == d.planes.Keys + {p};
    forall c | c != p
      ensures ListAt(d'.planes, c) == ListAt(d.planes, c)
    {
      assert ListAt(d'.planes, c) == ListAt(d1.planes, c);
    }
  }

  /** On a consistent ROIData the list of a plane is exactly the Roi's recognised shapes on that plane. */
  lemma GetShapesAgreesWithRoi(d: RoiData, z: int, t: int)
    requires d.Bound? && Consistent(d)
    ensures GetShapes(d, z, t).value.GetOr([]) == OnPlane(d.roi.shapes, Coord(z, t))
  {
    assert ListAt(d.planes, Coord(z, t)) == OnPlane(d.roi.shapes, Coord(z, t));
  }

  /** The first plane never comes after the last; they coincide exactly when the ROI lies on one plane. */
  lemma FirstNotAfterLast(d: RoiData)
    requires d.Bound? && d.planes != map[]
    ensures NotAfter(FirstPlane(d).value, LastPlane(d).value)
    ensures FirstPlane(d).value == LastPlane(d).value <==> PlaneCount(d).value == 1
  {
    var first, last := FirstPlane(d).value, LastPlane(d).value;
    if first == last {
      assert d.planes.Keys == {first} by {
        forall k | k in d.planes
          ensures k == first
        {
          assert NotAfter(first, k) && NotAfter(k, last);
        }
      }
    } else {
      assert {first, last} <= d.planes.Keys;
      assert |{first, last}| == 2;
      SubsetCardinality({first, last}, d.planes.Keys);
    }
  }

  lemma SubsetCardinality<T>(a: set<T>, b: set<T>)
    requires a <= b
    ensures |a| <= |b|
  {
    assert b == a + (b - a);
  }

  /**
   * The half-open range leaves out the list of its end plane: where the end
   * plane has a list, the range documented as inclusive has one more list,
   * the end plane's, at its end.
   */
  lemma RangeOmitsEndPlane(d: RoiData, start: Coord, end: Coord)
    requires d.Bound? && end in d.planes && NotAfter(start, end)
    ensures ShapesInRange(d, start, end).Success? && ShapesInClosedRange(d, start, end).Success?
    ensures ShapesInClosedRange(d, start, end).value == ShapesInRange(d, start, end).value + [d.planes[end]]
  {
    var half := SubMap(d.planes, Range(start, end, false));
    var closed := SubMap(d.planes, Range(start, end, true));
    assert closed == half[end := d.planes[end]];
    ListsAddLast(half, end, d.planes[end]);
  }

  /** The closed range from the first to the last plane yields every list of the ROI. */
  lemma WholeRangeIsAllLists(d: RoiData)
    requires d.Bound? && d.planes != map[]
    ensures ShapesInClosedRange(d, FirstPlane(d).value, LastPlane(d).value) == ShapeLists(d)
  {
    var first, last := FirstPlane(d).value, LastPlane(d).value;
    FirstNotAfterLast(d);
    BeforeIsStrictTotalOrder(first, last, first);
    var whole := SubMap(d.planes, Range(first, last, true));
    forall k | k in d.planes
      ensures k in whole
    {
      assert NotAfter(first, k) && NotAfter(k, last);
    }
    assert whole == d.planes;
  }
}
