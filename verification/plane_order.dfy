/**
 * Plane coordinates of a region of interest and the order in which the plane
 * index keeps them.
 *
 * The comparator the index is built with (ROICoordinate) is not part of this
 * model; the model fixes it as the lexicographic order on (z-section,
 * timepoint) and proves that this is a strict total order, which is all a
 * sorted map needs of its comparator.
 */
module PlaneOrder {

  /** A plane of an image: a z-section and a timepoint. */
  datatype Coord = Coord(z: int, t: int)

  /** The comparator of the plane index: by z-section, then by timepoint. */
  predicate Before(a: Coord, b: Coord) {
    a.z < b.z || (a.z == b.z && a.t < b.t)
  }

  predicate NotAfter(a: Coord, b: Coord) {
    a == b || Before(a, b)
  }

  /** `Before` is a strict total order, so a sorted map over it has one key per plane. */
  lemma BeforeIsStrictTotalOrder(a: Coord, b: Coord, c: Coord)
    ensures !Before(a, a)
    ensures Before(a, b) ==> !Before(b, a)
    ensures Before(a, b) && Before(b, c) ==> Before(a, c)
    ensures a == b || Before(a, b) || Before(b, a)
  {
  }

  /** Strictly increasing: the order in which a sorted map enumerates its keys. */
  predicate Ascending(ks: seq<Coord>) {
    forall i, j :: 0 <= i < j < |ks| ==> Before(ks[i], ks[j])
  }

  predicate IsLeast(k: Coord, s: set<Coord>) {
    k in s && forall y :: y in s ==> NotAfter(k, y)
  }

  predicate IsGreatest(k: Coord, s: set<Coord>) {
    k in s && forall y :: y in s ==> NotAfter(y, k)
  }

  /** Every non-empty finite set of planes has a least element. */
  lemma {:induction false} LeastExists(s: set<Coord>)
    requires s != {}
    ensures exists k :: IsLeast(k, s)
    decreases |s|
  {
    var x :| x in s;
    var rest := s - {x};
    if rest == {} {
      assert s == {x};
      assert IsLeast(x, s);
    } else {
      LeastExists(rest);
      var k :| IsLeast(k, rest);
      if Before(x, k) {
        forall y | y in s
          ensures NotAfter(x, y)
        {
          if y != x {
            assert NotAfter(k, y);
          }
        }
        assert IsLeast(x, s);
      } else {
        assert IsLeast(k, s);
      }
    }
  }

  /** The least plane of a non-empty set. */
  function Least(s: set<Coord>): (k: Coord)
    requires s != {}
    ensures IsLeast(k, s)
  {
    LeastExists(s);
    var k :| IsLeast(k, s);
    k
  }

  /** The planes of `s` in ascending order, as a sorted map's key set iterates them. */
  function Enumerate(s: set<Coord>): (ks: seq<Coord>)
    ensures Ascending(ks)
    ensures forall k :: k in ks <==> k in s
    ensures |ks| == |s|
    decreases |s|
  {
    if s == {} then []
    else
      var k := Least(s);
      var rest := Enumerate(s - {k});
      assert forall j :: 0 <= j < |rest| ==> Before(k, rest[j]);
      [k] + rest
  }

  /** The first element of an ascending sequence is its least. */
  lemma HeadIsLeast(a: seq<Coord>)
    requires Ascending(a) && a != []
    ensures forall k :: k in a ==> NotAfter(a[0], k)
  {
    forall k | k in a
      ensures NotAfter(a[0], k)
    {
      var p :| 0 <= p < |a| && a[p] == k;
      if p != 0 {
        assert Before(a[0], a[p]);
      }
    }
  }

  /** The last element of an ascending sequence is its greatest. */
  lemma LastIsGreatest(a: seq<Coord>)
    requires Ascending(a) && a != []
    ensures forall k :: k in a ==> NotAfter(k, a[|a| - 1])
  {
    forall k | k in a
      ensures NotAfter(k, a[|a| - 1])
    {
      var p :| 0 <= p < |a| && a[p] == k;
      if p != |a| - 1 {
        assert Before(a[p], a[|a| - 1]);
      }
    }
  }

  /** Every later element of an ascending sequence comes after its first. */
  lemma HeadBeforeTail(a: seq<Coord>)
    requires Ascending(a) && a != []
    ensures forall k :: k in a[1..] ==> Before(a[0], k)
  {
    forall k | k in a[1..]
      ensures Before(a[0], k)
    {
      var p :| 0 <= p < |a[1..]| && a[1..][p] == k;
      assert a[p + 1] == k;
    }
  }

  /** Two sequences with the same elements are both empty or both non-empty. */
  lemma SameElementsEmpty(a: seq<Coord>, b: seq<Coord>)
    requires forall k :: k in a <==> k in b
    ensures a == [] <==> b == []
  {
    if a != [] {
      assert a[0] in a;
    }
    if b != [] {
      assert b[0] in b;
    }
  }

  /** A finite set of planes has exactly one ascending enumeration. */
  lemma {:induction false} AscendingUnique(a: seq<Coord>, b: seq<Coord>)
    requires Ascending(a) && Ascending(b)
    requires forall k :: k in a <==> k in b
    ensures a == b
    decreases |a|
  {
    SameElementsEmpty(a, b);
    if a != [] {
      HeadIsLeast(a);
      HeadIsLeast(b);
      assert a[0] in a && b[0] in b;
      assert NotAfter(a[0], b[0]) && NotAfter(b[0], a[0]);
      BeforeIsStrictTotalOrder(a[0], b[0], a[0]);
      assert a[0] == b[0];
      forall k
        ensures k in a[1..] <==> k in b[1..]
      {
        if k in a[1..] {
          var p :| 1 <= p < |a| && a[p] == k;
          assert Before(a[0], a[p]);
          assert k in b && k != b[0];
          var q :| 0 <= q < |b| && b[q] == k;
          assert b[1..][q - 1] == k;
        }
        if k in b[1..] {
          var q :| 1 <= q < |b| && b[q] == k;
          assert Before(b[0], b[q]);
          assert k in a && k != a[0];
          var p :| 0 <= p < |a| && a[p] == k;
          assert a[1..][p - 1] == k;
        }
      }
      AscendingUnique(a[1..], b[1..]);
      assert a == [a[0]] + a[1..] && b == [b[0]] + b[1..];
    }
  }

  /** Any ascending sequence listing exactly the planes of `s` is `Enumerate(s)`. */
  lemma EnumerateIsUnique(s: set<Coord>, ks: seq<Coord>)
    requires Ascending(ks)
    requires forall k :: k in ks <==> k in s
    ensures ks == Enumerate(s)
  {
    AscendingUnique(ks, Enumerate(s));
  }

  /** Dropping one plane from an ascending sequence keeps it ascending and drops exactly that plane. */
  lemma AscendingDelete(ks: seq<Coord>, i: nat)
    requires Ascending(ks) && i < |ks|
    ensures Ascending(ks[..i] + ks[i + 1..])
    ensures forall c :: c in ks[..i] + ks[i + 1..] <==> c in ks && c != ks[i]
  {
    var r := ks[..i] + ks[i + 1..];
    assert |r| == |ks| - 1;
    assert forall p :: 0 <= p < |r| ==> r[p] == ks[if p < i then p else p + 1];
    forall c
      ensures c in r <==> c in ks && c != ks[i]
    {
      if c in r {
        var p :| 0 <= p < |r| && r[p] == c;
        var q := if p < i then p else p + 1;
        assert ks[q] == c && q != i;
        assert Before(ks[q], ks[i]) || Before(ks[i], ks[q]);
      }
      if c in ks && c != ks[i] {
        var q :| 0 <= q < |ks| && ks[q] == c;
        if q < i {
          assert r[q] == c;
        } else {
          assert q > i;
          assert r[q - 1] == c;
        }
      }
    }
  }
}
