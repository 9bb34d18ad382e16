/**
 * The state of an ROIData: the wrapped model object (a Roi), the plane index
 * built from it, and the dirty flag of the data object, together with the
 * exceptions its operations throw.
 */
module RoiState {
  import opened Wrappers
  import opened PlaneOrder
  import opened PlaneIndex
  import opened Keywords

  /** Reference to an image; the image object itself is not part of this model. */
  type ImageRef = nat

  /**
   * The wrapped model object: its shapes, its namespace array and keyword
   * matrix (each possibly null) and its image link.
   */
  datatype Roi = Roi(
    shapes: seq<Shape>,
    namespaces: Option<seq<string>>,
    keywords: Option<seq<seq<Keyword>>>,
    image: Option<ImageRef>)

  /**
   * An ROIData. `Unbound` is one built around a null Roi: it has no Roi and
   * its plane index was never created. `Bound` wraps a Roi with its plane
   * index and the dirty flag.
   */
  datatype RoiData = Unbound | Bound(roi: Roi, planes: PlaneMap, dirty: bool)

  /** The exceptions the operations throw. */
  datatype Error =
    | NoRoiSpecified                                // IllegalArgumentException "No Roi specified."
    | NullPointer                                   // a null list or map dereferenced
    | NoSuchElement                                 // first or last key of an empty sorted map
    | IllegalRange                                  // a sub-map whose start comes after its end
    | MissingNamespace(namespace: string)           // IllegalArgumentException "Namespace ... does not exist."
    | LengthMismatch(namespaces: nat, rows: nat)    // IllegalArgumentException "Namespaces length = ..."
    | ClassCast                                     // ClassCastException

  /** A freshly created model object: no shapes, null arrays, no image. */
  const EmptyRoi := Roi([], None, None, None)

  /**
   * The plane index agrees with the Roi: each plane's list is exactly the
   * recognised shapes of the Roi on that plane, in the Roi's order (a plane
   * emptied by removals may stay in the index with an empty list).
   */
  ghost predicate Consistent(d: RoiData) {
    d.Bound? ==> forall c :: ListAt(d.planes, c) == OnPlane(d.roi.shapes, c)
  }

  /** The constructor from a Roi: a null Roi gives an ROIData without a plane index. */
  function FromRoi(roi: Option<Roi>): (d: RoiData)
    ensures roi.None? <==> d.Unbound?
    ensures d.Bound? ==> d.roi == roi.value && !d.dirty
    ensures d.Bound? ==> forall c :: c in d.planes ==> d.planes[c] != []
    ensures d.Bound? ==> TotalShapes(d.planes) == |Kept(roi.value.shapes)|
    ensures Consistent(d)
  {
    match roi
    case None => Unbound
    case Some(r) => Bound(r, Initialize(r.shapes), false)
  }

  /** The constructor without arguments: a new, empty model object and an empty index. */
  function Create(): (d: RoiData)
    ensures d.Bound? && d.roi == EmptyRoi && d.planes == map[] && !d.dirty
    ensures Consistent(d)
  {
    Bound(EmptyRoi, map[], false)
  }

  /** Links the Roi to an image and marks the data object dirty. */
  function SetImage(d: RoiData, image: Option<ImageRef>): (r: Result<RoiData, Error>)
    ensures d.Unbound? ==> r == Failure(NoRoiSpecified)
    ensures d.Bound? ==> r.Success? && r.value.Bound? && r.value.dirty
    ensures d.Bound? ==> r.value.roi.image == image
    ensures d.Bound? ==> r.value.planes == d.planes && r.value.roi.shapes == d.roi.shapes
    ensures d.Bound? ==> r.value.roi.namespaces == d.roi.namespaces && r.value.roi.keywords == d.roi.keywords
  {
    match d
    case Unbound => Failure(NoRoiSpecified)
    case Bound(roi, planes, _) => Success(Bound(roi.(image := image), planes, true))
  }

  /** The image the Roi is linked to. */
  function GetImage(d: RoiData): (r: Result<Option<ImageRef>, Error>)
    ensures d.Unbound? <==> r == Failure(NoRoiSpecified)
  {
    match d
    case Unbound => Failure(NoRoiSpecified)
    case Bound(roi, _, _) => Success(roi.image)
  }

  /** Reading the image back returns the one just set. */
  lemma SetThenGetImage(d: RoiData, image: Option<ImageRef>)
    requires d.Bound?
    ensures GetImage(SetImage(d, image).value) == Success(image)
  {
  }
}
