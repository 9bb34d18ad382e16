/**
 * Namespace keywords of a region of interest: a Java `Map<String,
 * List<String>>` from namespace to keyword list, and its encoding as two
 * parallel arrays on the model object, a namespace array and a rectangular
 * keyword matrix whose short rows are padded with nulls.
 *
 * A Java map is modelled by its entries in iteration order. Which order a
 * hash map iterates in depends on hash codes, which this model does not fix:
 * here a new key goes to the end. Every property that does not depend on the
 * order is stated on `View`, the key -> list map.
 */
module Keywords {
  import opened Wrappers

  /** One element of a Java String array or list: possibly null. */
  type Keyword = Option<string>

  type Entry = (string, seq<Keyword>)

  /** A Java map from namespace to keyword list, as its entries in iteration order. */
  type KeywordMap = seq<Entry>

  /** The keys in iteration order, as `keySet().toArray()` returns them. */
  function KeysOf(m: KeywordMap): seq<string> {
    seq(|m|, i requires 0 <= i < |m| => m[i].0)
  }

  /** No key is listed twice, as in every Java map. */
  predicate DistinctKeys(m: KeywordMap) {
    forall i, j :: 0 <= i < j < |m| ==> m[i].0 != m[j].0
  }

  /** The key -> list view: for a repeated key the later entry wins, as repeated `put` calls leave it. */
  function View(m: KeywordMap): map<string, seq<Keyword>> {
    if m == [] then map[]
    else View(m[..|m| - 1])[m[|m| - 1].0 := m[|m| - 1].1]
  }

  /** The view holds exactly the keys of the entries. */
  lemma {:induction false} ViewKeys(m: KeywordMap)
    ensures forall k :: k in View(m) <==> k in KeysOf(m)
    decreases |m|
  {
    if m != [] {
      var init := m[..|m| - 1];
      ViewKeys(init);
      assert KeysOf(m) == KeysOf(init) + [m[|m| - 1].0];
    }
  }

  lemma ViewSnoc(m: KeywordMap, e: Entry)
    ensures View(m + [e]) == View(m)[e.0 := e.1]
  {
    assert (m + [e])[..|m|] == m;
  }

  /** In a map without repeated keys every entry is what the view holds for its key. */
  lemma {:induction false} ViewOfDistinct(m: KeywordMap, i: nat)
    requires DistinctKeys(m) && i < |m|
    ensures m[i].0 in View(m) && View(m)[m[i].0] == m[i].1
    decreases |m|
  {
    var init := m[..|m| - 1];
    if i < |m| - 1 {
      assert DistinctKeys(init);
      ViewOfDistinct(init, i);
      assert m[i].0 != m[|m| - 1].0;
    }
  }

  /** `m` with the list of every entry for `k` replaced by `v`. */
  function Replace(m: KeywordMap, k: string, v: seq<Keyword>): (r: KeywordMap)
    ensures KeysOf(r) == KeysOf(m)
  {
    if m == [] then []
    else
      var init := m[..|m| - 1];
      var last := m[|m| - 1];
      var e := if last.0 == k then (k, v) else last;
      var r := Replace(init, k, v) + [e];
      assert r[..|r| - 1] == Replace(init, k, v);
      assert KeysOf(m) == KeysOf(init) + [last.0];
      assert KeysOf(r) == KeysOf(Replace(init, k, v)) + [e.0];
      r
  }

  lemma {:induction false} ReplaceView(m: KeywordMap, k: string, v: seq<Keyword>)
    requires k in View(m)
    ensures View(Replace(m, k, v)) == View(m)[k := v]
    decreases |m|
  {
    var init := m[..|m| - 1];
    var last := m[|m| - 1];
    var vi := View(init);
    if k in vi {
      ReplaceView(init, k, v);
    } else {
      ReplaceViewAbsent(init, k, v);
    }
    ReplaceSnoc(m, k, v);
    assert m == init + [last];
    ViewSnoc(init, last);
    ReplaceViewStep(vi, Replace(init, k, v), last, k, v);
  }

  lemma ReplaceSnoc(m: KeywordMap, k: string, v: seq<Keyword>)
    requires m != []
    ensures var init, last := m[..|m| - 1], m[|m| - 1];
            Replace(m, k, v) == Replace(init, k, v) + [if last.0 == k then (k, v) else last]
  {
  }

  /** One step of `ReplaceView`: the view after the last entry, replaced or kept. */
  lemma ReplaceViewStep(vi: map<string, seq<Keyword>>, ri: KeywordMap, last: Entry, k: string, v: seq<Keyword>)
    requires k in vi || last.0 == k
    requires k in vi ==> View(ri) == vi[k := v]
    requires k !in vi ==> View(ri) == vi
    ensures View(ri + [if last.0 == k then (k, v) else last]) == vi[last.0 := last.1][k := v]
  {
    if last.0 == k {
      ViewSnoc(ri, (k, v));
      assert View(ri)[k := v] == vi[k := v];
      assert vi[k := last.1][k := v] == vi[k := v];
    } else {
      ViewSnoc(ri, last);
      assert vi[k := v][last.0 := last.1] == vi[last.0 := last.1][k := v];
    }
  }

  lemma {:induction false} ReplaceViewAbsent(m: KeywordMap, k: string, v: seq<Keyword>)
    requires k !in View(m)
    ensures Replace(m, k, v) == m
    decreases |m|
  {
    if m != [] {
      var init := m[..|m| - 1];
      assert m[|m| - 1].0 != k;
      ReplaceViewAbsent(init, k, v);
      assert m == init + [m[|m| - 1]];
    }
  }

  /** Java `Map.put`: the list of `k` becomes `v`; a new key is added at the end. */
  function Put(m: KeywordMap, k: string, v: seq<Keyword>): (r: KeywordMap)
    ensures View(r) == View(m)[k := v]
    ensures DistinctKeys(m) ==> DistinctKeys(r)
    ensures k !in KeysOf(m) ==> r == m + [(k, v)]
  {
    ViewKeys(m);
    if k in KeysOf(m) then
      var r := Replace(m, k, v);
      ReplaceView(m, k, v);
      assert forall i :: 0 <= i < |m| ==> r[i].0 == KeysOf(r)[i] == KeysOf(m)[i] == m[i].0;
      r
    else
      ViewSnoc(m, (k, v));
      assert forall i :: 0 <= i < |m| ==> m[i].0 == KeysOf(m)[i];
      m + [(k, v)]
  }

  /** Java `Map.remove`: every entry for `k` is dropped and the others keep their order. */
  function Remove(m: KeywordMap, k: string): (r: KeywordMap)
    ensures forall e :: e in r <==> e in m && e.0 != k
    ensures DistinctKeys(m) ==> DistinctKeys(r)
  {
    if m == [] then []
    else
      var init := m[..|m| - 1];
      var last := m[|m| - 1];
      var rest := Remove(init, k);
      assert m == init + [last];
      if last.0 == k then
        rest
      else
        assert DistinctKeys(m) ==> DistinctKeys(rest + [last]) by {
          if DistinctKeys(m) {
            assert DistinctKeys(init);
            forall e | e in rest
              ensures e.0 != last.0
            {
              var j :| 0 <= j < |init| && init[j] == e;
              assert m[j] == e;
            }
          }
        }
        rest + [last]
  }

  lemma {:induction false} RemoveView(m: KeywordMap, k: string)
    ensures View(Remove(m, k)) == View(m) - {k}
    decreases |m|
  {
    if m != [] {
      var init := m[..|m| - 1];
      var last := m[|m| - 1];
      RemoveView(init, k);
      RemoveSnoc(m, k);
      RemoveViewStep(View(init), Remove(init, k), last, k);
      assert View(m) == View(init)[last.0 := last.1];
    }
  }

  lemma RemoveSnoc(m: KeywordMap, k: string)
    requires m != []
    ensures var init, last := m[..|m| - 1], m[|m| - 1];
            Remove(m, k) == if last.0 != k then Remove(init, k) + [last] else Remove(init, k)
  {
  }

  /** One step of `RemoveView`: the view of the shortened map, with or without the last entry. */
  lemma RemoveViewStep(v: map<string, seq<Keyword>>, rest: KeywordMap, last: Entry, k: string)
    requires View(rest) == v - {k}
    ensures View(if last.0 != k then rest + [last] else rest) == v[last.0 := last.1] - {k}
  {
    if last.0 != k {
      ViewSnoc(rest, last);
      RemoveUpdateCommute(v, k, last.0, last.1);
    } else {
      UpdateThenRemove(v, k, last.1);
    }
  }

  lemma RemoveUpdateCommute<K, V>(m: map<K, V>, k: K, k': K, v: V)
    requires k != k'
    ensures (m - {k})[k' := v] == m[k' := v] - {k}
  {
  }

  lemma UpdateThenRemove<K, V>(m: map<K, V>, k: K, v: V)
    ensures m[k := v] - {k} == m - {k}
  {
  }

  /**
   * Width of the keyword matrix: the longest keyword list, 0 for an empty
   * map (a running `Math.max` over the lists).
   */
  function Width(m: KeywordMap): (w: nat)
    ensures forall i :: 0 <= i < |m| ==> |m[i].1| <= w
    ensures m == [] ==> w == 0
    ensures m != [] ==> exists i :: 0 <= i < |m| && |m[i].1| == w
  {
    if m == [] then 0
    else
      var init := m[..|m| - 1];
      var w := Width(init);
      var l := |m[|m| - 1].1|;
      assert forall i :: 0 <= i < |init| ==> init[i] == m[i];
      if w < l then l else w
  }

  /** A matrix row of width `w`: the list, then nulls. */
  function Row(v: seq<Keyword>, w: nat): seq<Keyword> {
    seq(w, j requires 0 <= j < w => if j < |v| then v[j] else None)
  }

  /** The keyword matrix rows, one per entry in iteration order, each of width `w`. */
  function Rows(m: KeywordMap, w: nat): seq<seq<Keyword>> {
    seq(|m|, i requires 0 <= i < |m| => Row(m[i].1, w))
  }

  /** `long` is `short` followed by nulls only. */
  predicate PaddedFrom(long: seq<Keyword>, short: seq<Keyword>) {
    |short| <= |long| && long[..|short|] == short && forall j :: |short| <= j < |long| ==> long[j] == None
  }

  /** `m` with every list padded with nulls to width `w`. */
  function Padded(m: KeywordMap, w: nat): KeywordMap {
    seq(|m|, i requires 0 <= i < |m| => (m[i].0, Row(m[i].1, w)))
  }

  /** Namespace `ns[i]` is not listed again after position `i`. */
  predicate LastOccurrence(ns: seq<string>, i: nat)
    requires i < |ns|
  {
    forall j :: i < j < |ns| ==> ns[j] != ns[i]
  }

  /**
   * Reads the parallel arrays back into a map, putting namespace `i` with
   * row `i` in index order, so a repeated namespace ends up with its last row.
   */
  function Decode(ns: seq<string>, rows: seq<seq<Keyword>>): (m: KeywordMap)
    requires |ns| == |rows|
    ensures DistinctKeys(m)
    ensures forall k :: k in View(m) <==> k in ns
  {
    if ns == [] then []
    else
      var prefix := Decode(ns[..|ns| - 1], rows[..|rows| - 1]);
      assert ns == ns[..|ns| - 1] + [ns[|ns| - 1]];
      var m := Put(prefix, ns[|ns| - 1], rows[|rows| - 1]);
      m
  }

  /** A decoded namespace holds the row of its last occurrence. */
  lemma {:induction false} DecodeLastWins(ns: seq<string>, rows: seq<seq<Keyword>>, i: nat)
    requires |ns| == |rows| && i < |ns| && LastOccurrence(ns, i)
    ensures View(Decode(ns, rows))[ns[i]] == rows[i]
    decreases |ns|
  {
    var n := |ns| - 1;
    DecodeSnoc(ns, rows);
    if i < n {
      assert ns[n] != ns[i];
      assert LastOccurrence(ns[..n], i);
      DecodeLastWins(ns[..n], rows[..n], i);
    }
  }

  lemma DecodeSnoc(ns: seq<string>, rows: seq<seq<Keyword>>)
    requires |ns| == |rows| && ns != []
    ensures View(Decode(ns, rows)) == View(Decode(ns[..|ns| - 1], rows[..|rows| - 1]))[ns[|ns| - 1] := rows[|rows| - 1]]
  {
  }

  /** Decoding the arrays written for `m` at any width gives `m` with every list padded to that width. */
  lemma {:induction false} DecodeRows(m: KeywordMap, w: nat)
    requires DistinctKeys(m)
    ensures Decode(KeysOf(m), Rows(m, w)) == Padded(m, w)
    decreases |m|
  {
    if m != [] {
      var init := m[..|m| - 1];
      var last := m[|m| - 1];
      assert DistinctKeys(init);
      DecodeRows(init, w);
      EncodingSnoc(m, w);
      assert last.0 !in KeysOf(Padded(init, w)) by {
        assert forall j :: 0 <= j < |init| ==> KeysOf(Padded(init, w))[j] == m[j].0 != last.0;
      }
    }
  }

  lemma EncodingSnoc(m: KeywordMap, w: nat)
    requires m != []
    ensures KeysOf(m)[..|m| - 1] == KeysOf(m[..|m| - 1])
    ensures KeysOf(m)[|m| - 1] == m[|m| - 1].0
    ensures Rows(m, w)[..|m| - 1] == Rows(m[..|m| - 1], w)
    ensures Rows(m, w)[|m| - 1] == Row(m[|m| - 1].1, w)
    ensures Padded(m, w) == Padded(m[..|m| - 1], w) + [(m[|m| - 1].0, Row(m[|m| - 1].1, w))]
  {
  }

  /** The decoded map after one encoding is exactly `m` if and only if all lists have the matrix width. */
  lemma PaddedIsIdentityIff(m: KeywordMap)
    ensures Padded(m, Width(m)) == m <==> forall i :: 0 <= i < |m| ==> |m[i].1| == Width(m)
  {
    var w := Width(m);
    if forall i :: 0 <= i < |m| ==> |m[i].1| == w {
      forall i | 0 <= i < |m|
        ensures Padded(m, w)[i] == m[i]
      {
        assert Row(m[i].1, w) == m[i].1;
      }
    } else {
      var i :| 0 <= i < |m| && |m[i].1| != w;
      assert |Padded(m, w)[i].1| != |m[i].1|;
    }
  }

  /** Encoding a decoded map again writes the same arrays: the padding is the only loss. */
  lemma EncodeAbsorbsPadding(m: KeywordMap)
    ensures KeysOf(Padded(m, Width(m))) == KeysOf(m)
    ensures Width(Padded(m, Width(m))) == Width(m)
    ensures Rows(Padded(m, Width(m)), Width(m)) == Rows(m, Width(m))
  {
    var w := Width(m);
    var p := Padded(m, w);
    if m != [] {
      var i :| 0 <= i < |p| && |p[i].1| == Width(p);
      assert |p[0].1| == w;
    }
    forall i | 0 <= i < |m|
      ensures Row(p[i].1, w) == Row(m[i].1, w)
    {
    }
  }

  /** Padding every entry pads every list of the view. */
  lemma {:induction false} ViewOfPadded(m: KeywordMap, w: nat)
    ensures forall k :: k in View(Padded(m, w)) <==> k in View(m)
    ensures forall k :: k in View(m) ==> View(Padded(m, w))[k] == Row(View(m)[k], w)
    decreases |m|
  {
    if m != [] {
      var init := m[..|m| - 1];
      var last := m[|m| - 1];
      ViewOfPadded(init, w);
      EncodingSnoc(m, w);
      ViewSnoc(Padded(init, w), (last.0, Row(last.1, w)));
      assert m == init + [last];
      ViewSnoc(init, last);
    }
  }

  /** What the view holds for a key is the list of some entry with that key, repeated keys or not. */
  lemma {:induction false} ViewValueIsEntry(m: KeywordMap, k: string)
    requires k in View(m)
    ensures exists i :: 0 <= i < |m| && m[i].0 == k && m[i].1 == View(m)[k]
    decreases |m|
  {
    var init := m[..|m| - 1];
    if m[|m| - 1].0 != k {
      ViewValueIsEntry(init, k);
      var i :| 0 <= i < |init| && init[i].0 == k && init[i].1 == View(init)[k];
      assert m[i] == init[i];
    }
  }

  /** Every list of the view fits in the matrix width. */
  lemma {:induction false} ViewFitsWidth(m: KeywordMap, k: string)
    requires k in View(m)
    ensures |View(m)[k]| <= Width(m)
    ensures PaddedFrom(Row(View(m)[k], Width(m)), View(m)[k])
  {
    ViewValueIsEntry(m, k);
  }
}
