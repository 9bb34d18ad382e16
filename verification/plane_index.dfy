/**
 * The plane index of a region of interest: a sorted map from each plane to
 * the list of shapes drawn on it, as ROIData keeps it (a TreeMap of lists
 * keyed by plane coordinate).
 *
 * A shape is an opaque identity carrying its plane and its kind; the
 * per-kind shape wrappers and the model objects they wrap are not part of
 * this model.
 */
module PlaneIndex {
  import opened PlaneOrder

  /** The model shape kinds that have a shape wrapper, and everything else. */
  datatype Kind =
    | Rectangle | Ellipse | Point | Polyline | Polygon | Label | Line | Mask
    | Unsupported

  /** Kinds the index keeps; a shape of any other kind is dropped when the index is built. */
  predicate Recognised(k: Kind) {
    !k.Unsupported?
  }

  /** A shape: its identity, kind, z-section and timepoint. */
  datatype Shape = Shape(id: nat, kind: Kind, z: int, t: int) {
    /** The plane the shape lies on. */
    function Plane(): Coord {
      Coord(z, t)
    }
  }

  /** Plane -> shapes on that plane, in insertion order. */
  type PlaneMap = map<Coord, seq<Shape>>

  /** The list at `c`, with an absent plane read as an empty list. */
  function ListAt(m: PlaneMap, c: Coord): seq<Shape> {
    if c in m then m[c] else []
  }

  /** Reference definition: the recognised shapes of `shapes` that lie on plane `c`, in order. */
  function OnPlane(shapes: seq<Shape>, c: Coord): seq<Shape> {
    if shapes == [] then []
    else
      (if Recognised(shapes[0].kind) && shapes[0].Plane() == c then [shapes[0]] else [])
      + OnPlane(shapes[1..], c)
  }

  /** Reference definition: the recognised shapes of `shapes`, in order. */
  function Kept(shapes: seq<Shape>): seq<Shape> {
    if shapes == [] then []
    else (if Recognised(shapes[0].kind) then [shapes[0]] else []) + Kept(shapes[1..])
  }

  lemma {:induction false} OnPlaneSnoc(shapes: seq<Shape>, s: Shape)
    ensures forall c :: OnPlane(shapes + [s], c)
                        == OnPlane(shapes, c) + (if Recognised(s.kind) && s.Plane() == c then [s] else [])
    decreases |shapes|
  {
    if shapes != [] {
      OnPlaneSnoc(shapes[1..], s);
      assert (shapes + [s])[1..] == shapes[1..] + [s];
    }
  }

  lemma {:induction false} KeptSnoc(shapes: seq<Shape>, s: Shape)
    ensures Kept(shapes + [s]) == Kept(shapes) + (if Recognised(s.kind) then [s] else [])
    decreases |shapes|
  {
    if shapes != [] {
      KeptSnoc(shapes[1..], s);
      assert (shapes + [s])[1..] == shapes[1..] + [s];
    }
  }

  /** A shape is selected for plane `c` exactly when it occurs, is recognised and lies on `c`. */
  lemma {:induction false} OnPlaneMembers(shapes: seq<Shape>, c: Coord, s: Shape)
    ensures s in OnPlane(shapes, c) <==> s in shapes && Recognised(s.kind) && s.Plane() == c
    decreases |shapes|
  {
    if shapes != [] {
      OnPlaneMembers(shapes[1..], c, s);
      assert shapes == [shapes[0]] + shapes[1..];
    }
  }

  /** The map with `s` appended to the list of its plane (a new list when the plane is new). */
  function Append(m: PlaneMap, s: Shape): PlaneMap {
    m[s.Plane() := ListAt(m, s.Plane()) + [s]]
  }

  /** The lists of `m` along the planes `ks`. */
  function ListsAlong(m: PlaneMap, ks: seq<Coord>): (ls: seq<seq<Shape>>)
    requires forall k :: k in ks ==> k in m
  {
    seq(|ks|, i requires 0 <= i < |ks| => m[ks[i]])
  }

  /** The lists of `m` in ascending plane order, as the sorted map's values iterate. */
  function Lists(m: PlaneMap): (ls: seq<seq<Shape>>)
    ensures |ls| == |m|
  {
    ListsAlong(m, Enumerate(m.Keys))
  }

  /** Total length of a sequence of lists. */
  function SumLengths(ls: seq<seq<Shape>>): nat {
    if ls == [] then 0 else SumLengths(ls[..|ls| - 1]) + |ls[|ls| - 1]|
  }

  /** Number of shapes held by the index: the lengths of all per-plane lists added up. */
  function TotalShapes(m: PlaneMap): nat {
    SumLengths(Lists(m))
  }

  lemma {:induction false} SumLengthsConcat(a: seq<seq<Shape>>, b: seq<seq<Shape>>)
    ensures SumLengths(a + b) == SumLengths(a) + SumLengths(b)
    decreases |b|
  {
    if b == [] {
      assert a + b == a;
    } else {
      SumLengthsConcat(a, b[..|b| - 1]);
      assert (a + b)[..|a + b| - 1] == a + b[..|b| - 1];
    }
  }

  lemma SumLengthsDelete(ls: seq<seq<Shape>>, i: nat)
    requires i < |ls|
    ensures SumLengths(ls) == |ls[i]| + SumLengths(ls[..i] + ls[i + 1..])
  {
    assert ls == ls[..i] + [ls[i]] + ls[i + 1..];
    SumLengthsConcat(ls[..i] + [ls[i]], ls[i + 1..]);
    SumLengthsConcat(ls[..i], [ls[i]]);
    SumLengthsConcat(ls[..i], ls[i + 1..]);
    assert [ls[i]][..0] == [];
  }

  lemma ListsAlongDelete(m: PlaneMap, ks: seq<Coord>, i: nat)
    requires forall k :: k in ks ==> k in m
    requires i < |ks|
    ensures forall k :: k in ks[..i] + ks[i + 1..] ==> k in m
    ensures ListsAlong(m, ks[..i] + ks[i + 1..]) == ListsAlong(m, ks)[..i] + ListsAlong(m, ks)[i + 1..]
  {
    var ks' := ks[..i] + ks[i + 1..];
    assert forall p :: 0 <= p < |ks'| ==> ks'[p] == ks[if p < i then p else p + 1];
  }

  /** Lists read along planes both maps hold with the same lists do not depend on the map. */
  lemma ListsAlongAgree(m: PlaneMap, m': PlaneMap, ks: seq<Coord>)
    requires forall k :: k in ks ==> k in m && k in m' && m[k] == m'[k]
    ensures ListsAlong(m, ks) == ListsAlong(m', ks)
  {
  }

  /** The total splits into one plane's list and the rest of the map, whichever plane is taken. */
  lemma TotalShapesRemoveKey(m: PlaneMap, k: Coord)
    requires k in m
    ensures TotalShapes(m) == |m[k]| + TotalShapes(m - {k})
  {
    var rest := m - {k};
    var ks := Enumerate(m.Keys);
    assert k in ks;
    var i :| 0 <= i < |ks| && ks[i] == k;
    var ks' := ks[..i] + ks[i + 1..];
    AscendingDelete(ks, i);
    assert forall c :: c in ks' <==> c in rest.Keys;
    EnumerateIsUnique(rest.Keys, ks');
    ListsAlongDelete(m, ks, i);
    ListsAlongAgree(m, rest, ks');
    SumLengthsDelete(Lists(m), i);
  }

  lemma TotalShapesPut(m: PlaneMap, k: Coord, v: seq<Shape>)
    ensures TotalShapes(m[k := v]) == |v| + TotalShapes(m - {k})
  {
    var m' := m[k := v];
    TotalShapesRemoveKey(m', k);
    assert m'[k] == v;
    assert m' - {k} == m - {k};
  }

  /** Replacing (or adding) the list of plane `k` changes the total by the difference in length. */
  lemma TotalShapesUpdate(m: PlaneMap, k: Coord, v: seq<Shape>)
    ensures TotalShapes(m[k := v]) + |ListAt(m, k)| == TotalShapes(m) + |v|
  {
    TotalShapesPut(m, k, v);
    if k in m {
      TotalShapesRemoveKey(m, k);
    } else {
      assert m - {k} == m;
    }
  }

  /**
   * Builds the index from the model object's shapes, in order: every
   * recognised shape is appended to the list of its own plane and shapes of
   * other kinds are dropped.
   */
  function Initialize(shapes: seq<Shape>): (m: PlaneMap)
    ensures forall c :: ListAt(m, c) == OnPlane(shapes, c)
    ensures forall c :: c in m <==> OnPlane(shapes, c) != []
    ensures TotalShapes(m) == |Kept(shapes)|
    decreases |shapes|
  {
    if shapes == [] then map[]
    else
      var prefix := shapes[..|shapes| - 1];
      var s := shapes[|shapes| - 1];
      var m := Initialize(prefix);
      assert shapes == prefix + [s];
      InitializeStep(prefix, s, m);
      if Recognised(s.kind) then Append(m, s) else m
  }

  /** One step of building the index: the facts about the prefix carry over to the prefix plus one shape. */
  lemma InitializeStep(prefix: seq<Shape>, s: Shape, m: PlaneMap)
    requires forall c :: ListAt(m, c) == OnPlane(prefix, c)
    requires forall c :: c in m <==> OnPlane(prefix, c) != []
    requires TotalShapes(m) == |Kept(prefix)|
    ensures var m' := if Recognised(s.kind) then Append(m, s) else m;
            && (forall c :: ListAt(m', c) == OnPlane(prefix + [s], c))
            && (forall c :: c in m' <==> OnPlane(prefix + [s], c) != [])
            && TotalShapes(m') == |Kept(prefix + [s])|
  {
    OnPlaneSnoc(prefix, s);
    KeptSnoc(prefix, s);
    if Recognised(s.kind) {
      AppendStep(prefix, s, m);
      AppendTotal(m, s);
    }
  }

  /** Appending a shape adds one to the total. */
  lemma AppendTotal(m: PlaneMap, s: Shape)
    ensures TotalShapes(Append(m, s)) == TotalShapes(m) + 1
  {
    TotalShapesUpdate(m, s.Plane(), ListAt(m, s.Plane()) + [s]);
  }

  /** The per-plane facts of `InitializeStep` for a recognised shape, which is appended to its plane's list. */
  lemma AppendStep(prefix: seq<Shape>, s: Shape, m: PlaneMap)
    requires forall c :: ListAt(m, c) == OnPlane(prefix, c)
    requires forall c :: c in m <==> OnPlane(prefix, c) != []
    requires forall c :: OnPlane(prefix + [s], c) == OnPlane(prefix, c) + (if s.Plane() == c then [s] else [])
    ensures forall c :: ListAt(Append(m, s), c) == OnPlane(prefix + [s], c)
    ensures forall c :: c in Append(m, s) <==> OnPlane(prefix + [s], c) != []
  {
    var p := s.Plane();
    forall c
      ensures ListAt(Append(m, s), c) == OnPlane(prefix + [s], c)
      ensures c in Append(m, s) <==> OnPlane(prefix + [s], c) != []
    {
      if c == p {
        assert ListAt(Append(m, s), c) == OnPlane(prefix, c) + [s];
      } else {
        assert ListAt(Append(m, s), c) == ListAt(m, c);
      }
    }
  }

  /** Index of the first occurrence of `x` in `xs`. */
  function FirstIndex(xs: seq<Shape>, x: Shape): (i: nat)
    requires x in xs
    ensures i < |xs| && xs[i] == x && x !in xs[..i]
  {
    if xs[0] == x then 0
    else
      var j := FirstIndex(xs[1..], x);
      assert xs[..j + 1] == [xs[0]] + xs[1..][..j];
      j + 1
  }

  /** `xs` without its first occurrence of `x`, as `List.remove(Object)` leaves it. */
  function RemoveFirst(xs: seq<Shape>, x: Shape): (r: seq<Shape>)
    ensures x !in xs ==> r == xs
    ensures x in xs ==> |r| == |xs| - 1 && multiset(r) == multiset(xs) - multiset{x}
  {
    if xs == [] then []
    else
      assert xs == [xs[0]] + xs[1..];
      if xs[0] == x then xs[1..]
      else [xs[0]] + RemoveFirst(xs[1..], x)
  }

  /** The removal takes out exactly the element at the first occurrence and keeps the order of the rest. */
  lemma {:induction false} RemoveFirstAt(xs: seq<Shape>, x: Shape)
    requires x in xs
    ensures RemoveFirst(xs, x) == xs[..FirstIndex(xs, x)] + xs[FirstIndex(xs, x) + 1..]
    decreases |xs|
  {
    if xs[0] != x {
      var t := xs[1..];
      RemoveFirstAt(t, x);
      var j := FirstIndex(t, x);
      assert FirstIndex(xs, x) == j + 1;
      assert RemoveFirst(xs, x) == [xs[0]] + RemoveFirst(t, x);
      DeleteUnderCons(xs, j);
    }
  }

  /** Deleting position `j` of the tail is deleting position `j + 1` of the whole. */
  lemma DeleteUnderCons<T>(xs: seq<T>, j: nat)
    requires j + 1 < |xs|
    ensures [xs[0]] + (xs[1..][..j] + xs[1..][j + 1..]) == xs[..j + 1] + xs[j + 2..]
  {
    assert xs[..j + 1] == [xs[0]] + xs[1..][..j];
    assert xs[j + 2..] == xs[1..][j + 1..];
  }

  /** Removing a shape just appended to a list that did not hold it gives the list back. */
  lemma {:induction false} RemoveFirstAppended(xs: seq<Shape>, s: Shape)
    requires s !in xs
    ensures RemoveFirst(xs + [s], s) == xs
    decreases |xs|
  {
    if xs != [] {
      RemoveFirstAppended(xs[1..], s);
      assert (xs + [s])[1..] == xs[1..] + [s];
      assert xs == [xs[0]] + xs[1..];
    }
  }

  /** Removing from a list whose head is not the removed shape keeps the head. */
  lemma RemoveFirstCons(h: Shape, t: seq<Shape>, s: Shape)
    requires h != s
    ensures RemoveFirst([h] + t, s) == [h] + RemoveFirst(t, s)
  {
    assert ([h] + t)[1..] == t;
  }

  lemma OnPlaneCons(h: Shape, t: seq<Shape>, c: Coord)
    ensures OnPlane([h] + t, c)
            == (if Recognised(h.kind) && h.Plane() == c then [h] else []) + OnPlane(t, c)
  {
    assert ([h] + t)[1..] == t;
  }

  /** Removing a shape from the model object's list removes it from the list of its plane only. */
  lemma {:induction false} OnPlaneRemoveFirst(shapes: seq<Shape>, s: Shape, c: Coord)
    ensures OnPlane(RemoveFirst(shapes, s), c) == RemoveFirst(OnPlane(shapes, c), s)
    decreases |shapes|
  {
    if shapes == [] {
      assert RemoveFirst(shapes, s) == [] && OnPlane(shapes, c) == [];
    } else {
      var h, t := shapes[0], shapes[1..];
      assert shapes == [h] + t;
      if h == s {
        OnPlaneRemoveFirstHead(t, s, c);
        assert RemoveFirst(shapes, s) == t;
      } else {
        var head := if Recognised(h.kind) && h.Plane() == c then [h] else [];
        var rt := RemoveFirst(t, s);
        OnPlaneRemoveFirst(t, s, c);
        RemoveFirstCons(h, t, s);
        OnPlaneCons(h, rt, c);
        OnPlaneCons(h, t, c);
        assert OnPlane(RemoveFirst(shapes, s), c) == head + RemoveFirst(OnPlane(t, c), s);
        if head == [] {
          assert head + RemoveFirst(OnPlane(t, c), s) == RemoveFirst(OnPlane(t, c), s);
          assert OnPlane(shapes, c) == OnPlane(t, c);
        } else {
          RemoveFirstCons(h, OnPlane(t, c), s);
        }
      }
    }
  }

  lemma OnPlaneRemoveFirstHead(t: seq<Shape>, s: Shape, c: Coord)
    ensures OnPlane(t, c) == RemoveFirst(OnPlane([s] + t, c), s)
  {
    var shapes := [s] + t;
    assert shapes[1..] == t;
    OnPlaneCons(s, t, c);
    if Recognised(s.kind) && s.Plane() == c {
      assert OnPlane(shapes, c) == [s] + OnPlane(t, c);
      assert ([s] + OnPlane(t, c))[1..] == OnPlane(t, c);
    } else {
      OnPlaneMembers(shapes, c, s);
    }
  }

  /** Adding a plane after every plane of the map adds its list at the end of the lists. */
  lemma ListsAddLast(m: PlaneMap, k: Coord, v: seq<Shape>)
    requires forall j :: j in m ==> Before(j, k)
    ensures Lists(m[k := v]) == Lists(m) + [v]
  {
    var ks := Enumerate(m.Keys);
    BeforeIsStrictTotalOrder(k, k, k);
    assert m[k := v].Keys == m.Keys + {k};
    EnumerateAddLast(m.Keys, k);
    var m' := m[k := v];
    ListsAlongSnoc(m', ks, k);
    ListsAlongAgree(m', m, ks);
  }

  lemma ListsAlongSnoc(m: PlaneMap, ks: seq<Coord>, k: Coord)
    requires forall j :: j in ks ==> j in m
    requires k in m
    ensures forall j :: j in ks + [k] ==> j in m
    ensures ListsAlong(m, ks + [k]) == ListsAlong(m, ks) + [m[k]]
  {
    var l := ListsAlong(m, ks + [k]);
    assert forall i :: 0 <= i < |ks| ==> l[i] == m[ks[i]];
  }

  lemma EnumerateAddLast(s: set<Coord>, k: Coord)
    requires forall j :: j in s ==> Before(j, k)
    ensures Enumerate(s + {k}) == Enumerate(s) + [k]
  {
    var ks := Enumerate(s);
    var ks' := ks + [k];
    assert forall c :: c in ks' <==> c in s + {k};
    assert Ascending(ks') by {
      forall i, j | 0 <= i < j < |ks'|
        ensures Before(ks'[i], ks'[j])
      {
        if j == |ks| {
          assert ks'[i] in s;
        }
      }
    }
    EnumerateIsUnique(s + {k}, ks');
  }

  /** A planes interval `[lo, hi)`, or `[lo, hi]` when `closed`. */
  datatype Range = Range(lo: Coord, hi: Coord, closed: bool) {
    predicate Contains(k: Coord) {
      NotAfter(lo, k) && (Before(k, hi) || (closed && k == hi))
    }
  }

  /** The part of `m` whose planes lie in `r`: the sorted map's sub-map view. */
  function SubMap(m: PlaneMap, r: Range): PlaneMap {
    map k | k in m && r.Contains(k) :: m[k]
  }

  /** The planes of `ks` that lie in `r`, in their order. */
  function Select(ks: seq<Coord>, r: Range): (sel: seq<Coord>)
    ensures forall k :: k in sel <==> k in ks && r.Contains(k)
    ensures Ascending(ks) ==> Ascending(sel)
  {
    if ks == [] then []
    else
      var rest := Select(ks[1..], r);
      assert forall k :: k in ks[1..] ==> k in ks;
      assert Ascending(ks) ==> forall j :: 0 <= j < |rest| ==> Before(ks[0], rest[j]) by {
        if Ascending(ks) {
          HeadBeforeTail(ks);
          forall j | 0 <= j < |rest|
            ensures Before(ks[0], rest[j])
          {
            assert rest[j] in rest;
          }
        }
      }
      assert ks == [ks[0]] + ks[1..];
      (if r.Contains(ks[0]) then [ks[0]] else []) + rest
  }

  /** Walking the ascending planes of `m` and keeping those in `r` enumerates the sub-map's planes. */
  lemma SelectIsEnumerate(m: PlaneMap, r: Range)
    ensures Select(Enumerate(m.Keys), r) == Enumerate(SubMap(m, r).Keys)
  {
    var sel := Select(Enumerate(m.Keys), r);
    assert forall k :: k in sel <==> k in SubMap(m, r).Keys;
    EnumerateIsUnique(SubMap(m, r).Keys, sel);
  }

  /**
   * The lists whose plane lies in `r`, found by walking the planes in
   * ascending order: exactly the lists of the sub-map, in plane order.
   */
  function ListsWithin(m: PlaneMap, r: Range): (ls: seq<seq<Shape>>)
    ensures ls == Lists(SubMap(m, r))
  {
    var sel := Select(Enumerate(m.Keys), r);
    SelectIsEnumerate(m, r);
    ListsAlongAgree(m, SubMap(m, r), sel);
    ListsAlong(m, sel)
  }
}
