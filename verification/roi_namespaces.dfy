/**
 * Namespaces and keywords of an ROI. The Roi stores them as two parallel
 * arrays, a namespace array and a keyword matrix whose row `i` lists the
 * keywords of namespace `i`; the ROIData reads them into a map from
 * namespace to keyword list and writes a map back as the two arrays, every
 * row padded with nulls to the longest list.
 */
module RoiNamespaces {
  import opened Wrappers
  import opened Keywords
  import opened RoiState

  /** The namespace array of a Roi, a null array read as empty. */
  function Names(roi: Roi): seq<string> {
    roi.namespaces.GetOr([])
  }

  /** The Roi has a keyword matrix with one row per namespace, so it can be read as a map. */
  predicate Matched(d: RoiData) {
    d.Bound? && d.roi.keywords.Some? && |Names(d.roi)| == |d.roi.keywords.value|
  }

  /** The namespaces of the ROI, in array order. */
  function GetNamespaces(d: RoiData): (r: Result<seq<string>, Error>)
    ensures d.Unbound? <==> r == Failure(NoRoiSpecified)
    ensures d.Bound? && d.roi.namespaces.None? ==> r == Success([])
    ensures d.Bound? && d.roi.namespaces.Some? ==> r == Success(d.roi.namespaces.value)
  {
    match d
    case Unbound => Failure(NoRoiSpecified)
    case Bound(roi, _, _) => Success(Names(roi))
  }

  /**
   * The keyword map of the ROI: empty without a keyword matrix, an error when
   * the matrix and the namespace array differ in length, and otherwise every
   * namespace of the array with the row of its last occurrence.
   */
  function GetKeywordMap(d: RoiData): (r: Result<KeywordMap, Error>)
    ensures d.Unbound? ==> r == Failure(NoRoiSpecified)
    ensures d.Bound? && d.roi.keywords.None? ==> r == Success([])
    ensures d.Bound? && d.roi.keywords.Some? && |Names(d.roi)| != |d.roi.keywords.value| ==>
      r == Failure(LengthMismatch(|Names(d.roi)|, |d.roi.keywords.value|))
    ensures Matched(d) ==> r.Success? && DistinctKeys(r.value)
    ensures Matched(d) ==> forall k :: k in View(r.value) <==> k in Names(d.roi)
    ensures Matched(d) ==> forall i :: 0 <= i < |Names(d.roi)| && LastOccurrence(Names(d.roi), i) ==>
      View(r.value)[Names(d.roi)[i]] == d.roi.keywords.value[i]
  {
    match d
    case Unbound => Failure(NoRoiSpecified)
    case Bound(roi, _, _) =>
      var ns := Names(roi);
      match roi.keywords
      case None => Success([])
      case Some(rows) =>
        if |ns| != |rows| then Failure(LengthMismatch(|ns|, |rows|))
        else
          assert forall i :: 0 <= i < |ns| && LastOccurrence(ns, i) ==> View(Decode(ns, rows))[ns[i]] == rows[i] by {
            forall i | 0 <= i < |ns| && LastOccurrence(ns, i) {
              DecodeLastWins(ns, rows, i);
            }
          }
          Success(Decode(ns, rows))
  }

  /**
   * The keywords of one namespace: the row of its last occurrence in the
   * arrays, and an error when the namespace is not there.
   */
  function GetKeywordsOf(d: RoiData, namespace: string): (r: Result<seq<Keyword>, Error>)
    ensures d.Unbound? ==> r == Failure(NoRoiSpecified)
    ensures d.Bound? && d.roi.keywords.None? ==> r == Failure(MissingNamespace(namespace))
    ensures d.Bound? && d.roi.keywords.Some? && |Names(d.roi)| != |d.roi.keywords.value| ==>
      r == Failure(LengthMismatch(|Names(d.roi)|, |d.roi.keywords.value|))
    ensures Matched(d) && namespace !in Names(d.roi) ==> r == Failure(MissingNamespace(namespace))
    ensures Matched(d) ==> forall i :: 0 <= i < |Names(d.roi)| && Names(d.roi)[i] == namespace && LastOccurrence(Names(d.roi), i) ==>
      r == Success(d.roi.keywords.value[i])
  {
    var m :- GetKeywordMap(d);
    var v := View(m);
    if namespace in v then Success(v[namespace]) else Failure(MissingNamespace(namespace))
  }

  /**
   * Writes a map back as the two arrays: the namespaces in iteration order,
   * and one row per namespace holding its keywords and then nulls up to the
   * longest list. This is the method as its authors evidently meant it; as
   * written it never gets past the array cast (`SetNamespaceMapAsWritten`).
   */
  function SetNamespaceMap(d: RoiData, m: KeywordMap): (r: Result<RoiData, Error>)
    requires DistinctKeys(m)
    ensures d.Unbound? ==> r == Failure(NoRoiSpecified)
    ensures d.Bound? ==> r.Success? && r.value.Bound? && r.value.dirty
    ensures d.Bound? ==> r.value.planes == d.planes && r.value.roi.shapes == d.roi.shapes && r.value.roi.image == d.roi.image
    ensures d.Bound? ==> r.value.roi.namespaces == Some(KeysOf(m))
    ensures d.Bound? ==> r.value.roi.keywords.Some? && |r.value.roi.keywords.value| == |m|
    ensures d.Bound? ==> forall i :: 0 <= i < |m| ==>
      |r.value.roi.keywords.value[i]| == Width(m) && PaddedFrom(r.value.roi.keywords.value[i], m[i].1)
  {
    match d
    case Unbound => Failure(NoRoiSpecified)
    case Bound(roi, planes, _) =>
      var roi' := roi.(namespaces := Some(KeysOf(m)), keywords := Some(Rows(m, Width(m))));
      Success(Bound(roi', planes, true))
  }

  /**
   * The method as written: the key set is turned into an object array and
   * cast to a string array, a cast that fails for every map.
   */
  function SetNamespaceMapAsWritten(d: RoiData, m: KeywordMap): (r: Result<RoiData, Error>)
    ensures d.Unbound? ==> r == Failure(NoRoiSpecified)
    ensures d.Bound? ==> r == Failure(ClassCast)
  {
    match d
    case Unbound => Failure(NoRoiSpecified)
    case Bound(_, _, _) => Failure(ClassCast)
  }

  /** Removes a namespace and its keywords; nothing changes when it is not there. */
  function RemoveNamespace(d: RoiData, namespace: string): (r: Result<RoiData, Error>)
    ensures d.Unbound? ==> r == Failure(NoRoiSpecified)
    ensures GetKeywordMap(d).Failure? ==> r == Failure(GetKeywordMap(d).error)
    ensures GetKeywordMap(d).Success? && namespace !in View(GetKeywordMap(d).value) ==> r == Success(d)
    ensures GetKeywordMap(d).Success? && namespace in View(GetKeywordMap(d).value) ==>
      r.Success? && r.value.Bound? && r.value.dirty &&
      r.value.planes == d.planes && r.value.roi.shapes == d.roi.shapes && r.value.roi.image == d.roi.image
  {
    var m :- GetKeywordMap(d);
    if namespace in View(m) then SetNamespaceMap(d, Remove(m, namespace)) else Success(d)
  }

  /** Sets the keywords of a namespace; an empty keyword array removes the namespace. */
  function SetNamespaceKeywords(d: RoiData, namespace: string, keywords: seq<Keyword>): (r: Result<RoiData, Error>)
    ensures d.Unbound? ==> r == Failure(NoRoiSpecified)
    ensures |keywords| == 0 ==> r == RemoveNamespace(d, namespace)
    ensures |keywords| > 0 && GetKeywordMap(d).Failure? ==> r == Failure(GetKeywordMap(d).error)
    ensures |keywords| > 0 && GetKeywordMap(d).Success? ==>
      r.Success? && r.value.Bound? && r.value.dirty &&
      r.value.planes == d.planes && r.value.roi.shapes == d.roi.shapes && r.value.roi.image == d.roi.image
  {
    if d.Unbound? then Failure(NoRoiSpecified)
    else if |keywords| == 0 then RemoveNamespace(d, namespace)
    else
      var m :- GetKeywordMap(d);
      SetNamespaceMap(d, Put(m, namespace, keywords))
  }

  /** `RemoveNamespace` as written: a present namespace reaches the failing cast of the writer. */
  function RemoveNamespaceAsWritten(d: RoiData, namespace: string): (r: Result<RoiData, Error>)
    ensures d.Unbound? ==> r == Failure(NoRoiSpecified)
    ensures GetKeywordMap(d).Failure? ==> r == Failure(GetKeywordMap(d).error)
    ensures GetKeywordMap(d).Success? && namespace !in View(GetKeywordMap(d).value) ==> r == Success(d)
    ensures GetKeywordMap(d).Success? && namespace in View(GetKeywordMap(d).value) ==> r == Failure(ClassCast)
  {
    var m :- GetKeywordMap(d);
    if namespace in View(m) then SetNamespaceMapAsWritten(d, Remove(m, namespace)) else Success(d)
  }

  /** `SetNamespaceKeywords` as written: non-empty keywords reach the failing cast of the writer. */
  function SetNamespaceKeywordsAsWritten(d: RoiData, namespace: string, keywords: seq<Keyword>): (r: Result<RoiData, Error>)
    ensures d.Unbound? ==> r == Failure(NoRoiSpecified)
    ensures |keywords| == 0 ==> r == RemoveNamespaceAsWritten(d, namespace)
    ensures |keywords| > 0 && GetKeywordMap(d).Failure? ==> r == Failure(GetKeywordMap(d).error)
    ensures |keywords| > 0 && GetKeywordMap(d).Success? ==> r == Failure(ClassCast)
  {
    if d.Unbound? then Failure(NoRoiSpecified)
    else if |keywords| == 0 then RemoveNamespaceAsWritten(d, namespace)
    else
      var m :- GetKeywordMap(d);
      SetNamespaceMapAsWritten(d, Put(m, namespace, keywords))
  }

  /**
   * Whenever the map can be read, the mutators as written fail exactly where
   * they would write it back, and the corrected ones succeed there.
   */
  lemma MutatorsFailAsWritten(d: RoiData, namespace: string, keywords: seq<Keyword>)
    requires GetKeywordMap(d).Success?
    ensures namespace in View(GetKeywordMap(d).value) ==>
      RemoveNamespaceAsWritten(d, namespace) == Failure(ClassCast) && RemoveNamespace(d, namespace).Success?
    ensures |keywords| > 0 ==>
      SetNamespaceKeywordsAsWritten(d, namespace, keywords) == Failure(ClassCast) &&
      SetNamespaceKeywords(d, namespace, keywords).Success?
    ensures namespace !in View(GetKeywordMap(d).value) ==>
      RemoveNamespaceAsWritten(d, namespace) == RemoveNamespace(d, namespace) == Success(d)
  {
  }

  /** As written, writing a map fails whenever there is a Roi, while the corrected method succeeds. */
  lemma CastAlwaysFails(d: RoiData, m: KeywordMap)
    requires d.Bound? && DistinctKeys(m)
    ensures SetNamespaceMapAsWritten(d, m) == Failure(ClassCast)
    ensures SetNamespaceMap(d, m).Success?
  {
  }

  /** Reading back a written map gives the map with every list padded to the longest. */
  lemma NamespaceMapRoundTrip(d: RoiData, m: KeywordMap)
    requires d.Bound? && DistinctKeys(m)
    ensures GetKeywordMap(SetNamespaceMap(d, m).value) == Success(Padded(m, Width(m)))
  {
    DecodeRows(m, Width(m));
  }

  /** The round trip gives back exactly the map written iff all its lists have the same length. */
  lemma NamespaceMapRoundTripExact(d: RoiData, m: KeywordMap)
    requires d.Bound? && DistinctKeys(m)
    ensures GetKeywordMap(SetNamespaceMap(d, m).value) == Success(m) <==>
      forall i, j :: 0 <= i < |m| && 0 <= j < |m| ==> |m[i].1| == |m[j].1|
  {
    NamespaceMapRoundTrip(d, m);
    PaddedIsIdentityIff(m);
    if m != [] {
      var i0 :| 0 <= i0 < |m| && |m[i0].1| == Width(m);
      if forall i, j :: 0 <= i < |m| && 0 <= j < |m| ==> |m[i].1| == |m[j].1| {
        assert forall i :: 0 <= i < |m| ==> |m[i].1| == |m[i0].1|;
      }
    }
  }

  /**
   * Writing back a map that was just read changes nothing a reader can see:
   * the same namespaces, each with the same keywords. The order in which the
   * namespaces are written is the map's iteration order, so it is not part
   * of the promise.
   */
  lemma RewriteIsStable(d: RoiData, m: KeywordMap, namespace: string)
    requires d.Bound? && DistinctKeys(m)
    ensures var d1 := SetNamespaceMap(d, m).value;
            var d2 := SetNamespaceMap(d1, GetKeywordMap(d1).value).value;
            && multiset(Names(d2.roi)) == multiset(Names(d1.roi))
            && View(GetKeywordMap(d2).value) == View(GetKeywordMap(d1).value)
            && GetKeywordsOf(d2, namespace) == GetKeywordsOf(d1, namespace)
  {
    var d1 := SetNamespaceMap(d, m).value;
    NamespaceMapRoundTrip(d, m);
    assert GetKeywordMap(d1).value == Padded(m, Width(m));
    EncodeAbsorbsPadding(m);
    var d2 := SetNamespaceMap(d1, GetKeywordMap(d1).value).value;
    assert d2.roi == d1.roi;
  }

  /**
   * The round trip stated on the order-free view: the map read back has the
   * written map's namespaces, each with its list padded to the longest one,
   * and it is the written map iff all lists have the same length.
   */
  lemma NamespaceMapRoundTripView(d: RoiData, m: KeywordMap)
    requires d.Bound? && DistinctKeys(m)
    ensures var v := View(GetKeywordMap(SetNamespaceMap(d, m).value).value);
            && (forall k :: k in v <==> k in View(m))
            && (forall k :: k in View(m) ==> v[k] == Row(View(m)[k], Width(m)))
    ensures View(GetKeywordMap(SetNamespaceMap(d, m).value).value) == View(m) <==>
      forall i :: 0 <= i < |m| ==> |m[i].1| == Width(m)
  {
    NamespaceMapRoundTrip(d, m);
    ViewOfPadded(m, Width(m));
    var v := View(Padded(m, Width(m)));
    if v == View(m) {
      forall i | 0 <= i < |m|
        ensures |m[i].1| == Width(m)
      {
        ViewOfDistinct(m, i);
        assert v[m[i].0] == Row(m[i].1, Width(m));
      }
    }
    if forall i :: 0 <= i < |m| ==> |m[i].1| == Width(m) {
      PaddedIsIdentityIff(m);
    }
  }

  /**
   * After a map is written, each namespace of the map reads back as its list
   * padded with nulls to the longest list, and any other namespace is missing.
   */
  lemma WrittenMapReadsBack(d: RoiData, m: KeywordMap, namespace: string)
    requires d.Bound? && DistinctKeys(m)
    ensures namespace !in View(m) ==>
      GetKeywordsOf(SetNamespaceMap(d, m).value, namespace) == Failure(MissingNamespace(namespace))
    ensures namespace in View(m) ==>
      GetKeywordsOf(SetNamespaceMap(d, m).value, namespace) == Success(Row(View(m)[namespace], Width(m))) &&
      PaddedFrom(Row(View(m)[namespace], Width(m)), View(m)[namespace])
  {
    NamespaceMapRoundTrip(d, m);
    ViewOfPadded(m, Width(m));
    if namespace in View(m) {
      ViewFitsWidth(m, namespace);
    }
  }

  /**
   * After setting non-empty keywords of a namespace, that namespace reads back
   * as those keywords padded with nulls, every other namespace keeps its
   * keywords (padded with nulls), and no namespace appears from nowhere.
   */
  lemma SetKeywordsThenGet(d: RoiData, namespace: string, keywords: seq<Keyword>, other: string)
    requires |keywords| > 0 && GetKeywordMap(d).Success?
    ensures var d' := SetNamespaceKeywords(d, namespace, keywords).value;
            GetKeywordsOf(d', namespace).Success? && PaddedFrom(GetKeywordsOf(d', namespace).value, keywords)
    ensures var d' := SetNamespaceKeywords(d, namespace, keywords).value;
            other != namespace && other in View(GetKeywordMap(d).value) ==>
              GetKeywordsOf(d', other).Success? &&
              PaddedFrom(GetKeywordsOf(d', other).value, View(GetKeywordMap(d).value)[other])
    ensures var d' := SetNamespaceKeywords(d, namespace, keywords).value;
            other != namespace && other !in View(GetKeywordMap(d).value) ==>
              GetKeywordsOf(d', other) == Failure(MissingNamespace(other))
  {
    var m := GetKeywordMap(d).value;
    assert SetNamespaceKeywords(d, namespace, keywords) == SetNamespaceMap(d, Put(m, namespace, keywords));
    PutMapReadsBack(d, m, namespace, keywords, other);
  }

  /** `SetKeywordsThenGet` for the map written back. */
  lemma PutMapReadsBack(d: RoiData, m: KeywordMap, namespace: string, keywords: seq<Keyword>, other: string)
    requires d.Bound? && DistinctKeys(m)
    ensures var d' := SetNamespaceMap(d, Put(m, namespace, keywords)).value;
            && GetKeywordsOf(d', namespace).Success? && PaddedFrom(GetKeywordsOf(d', namespace).value, keywords)
            && (other != namespace && other in View(m) ==>
                  GetKeywordsOf(d', other).Success? && PaddedFrom(GetKeywordsOf(d', other).value, View(m)[other]))
            && (other != namespace && other !in View(m) ==> GetKeywordsOf(d', other) == Failure(MissingNamespace(other)))
  {
    var m' := Put(m, namespace, keywords);
    assert View(m') == View(m)[namespace := keywords];
    WrittenMapReadsBack(d, m', namespace);
    WrittenMapReadsBack(d, m', other);
  }

  /**
   * After removing a namespace it is missing, and every other namespace
   * keeps its keywords, padded with nulls.
   */
  lemma RemoveThenGet(d: RoiData, namespace: string, other: string)
    requires GetKeywordMap(d).Success?
    ensures GetKeywordsOf(RemoveNamespace(d, namespace).value, namespace) == Failure(MissingNamespace(namespace))
    ensures other != namespace && other in View(GetKeywordMap(d).value) ==>
      GetKeywordsOf(RemoveNamespace(d, namespace).value, other).Success? &&
      PaddedFrom(GetKeywordsOf(RemoveNamespace(d, namespace).value, other).value, View(GetKeywordMap(d).value)[other])
    ensures other !in View(GetKeywordMap(d).value) ==>
      GetKeywordsOf(RemoveNamespace(d, namespace).value, other) == Failure(MissingNamespace(other))
  {
    var m := GetKeywordMap(d).value;
    if namespace in View(m) {
      RemovedMapReadsBack(d, m, namespace, other);
    } else {
      assert RemoveNamespace(d, namespace) == Success(d);
      if other in View(m) {
        PaddedFromItself(View(m)[other]);
      }
    }
  }

  /** The case of `RemoveThenGet` where the namespace is there and the map is rewritten. */
  lemma RemovedMapReadsBack(d: RoiData, m: KeywordMap, namespace: string, other: string)
    requires GetKeywordMap(d) == Success(m) && namespace in View(m)
    ensures var d' := SetNamespaceMap(d, Remove(m, namespace)).value;
            && GetKeywordsOf(d', namespace) == Failure(MissingNamespace(namespace))
            && (other != namespace && other in View(m) ==>
                  GetKeywordsOf(d', other).Success? && PaddedFrom(GetKeywordsOf(d', other).value, View(m)[other]))
            && (other !in View(m) ==> GetKeywordsOf(d', other) == Failure(MissingNamespace(other)))
  {
    var m' := Remove(m, namespace);
    RemoveView(m, namespace);
    WrittenMapReadsBack(d, m', namespace);
    WrittenMapReadsBack(d, m', other);
  }

  lemma PaddedFromItself(v: seq<Keyword>)
    ensures PaddedFrom(v, v)
  {
    assert v[..|v|] == v;
  }
}
