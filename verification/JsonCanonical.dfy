/** The canonical text identifies a JSON value up to the insertion order of its
    dicts: two values print alike exactly when they are equal up to dict order. */
module JsonCanonical {
  import opened TextOrder
  import opened Json
  import opened JsonReader

  lemma SortedKeysDistinct<V>(s: seq<Entry<V>>)
    requires SortedByKey(s)
    ensures DistinctKeys(s)
  {
    forall i, j | 0 <= i < j < |s|
      ensures s[i].key != s[j].key
    {
      LessIrreflexive(s[i].key);
    }
  }

  lemma SortedMembersWf(members: seq<Entry<Json>>)
    requires DistinctKeys(members) && forall i :: 0 <= i < |members| ==> Wf(members[i].value)
    ensures DistinctKeys(Sort(members)) && forall i :: 0 <= i < |Sort(members)| ==> Wf(Sort(members)[i].value)
  {
    hide Wf, Less;
    var sorted := Sort(members);
    SortSorted(members);
    SortedKeysDistinct(sorted);
    SameElements(members, sorted);
    hide Sort;
    forall i | 0 <= i < |sorted|
      ensures Wf(sorted[i].value)
    {
      assert sorted[i] in members;
    }
  }

  lemma {:induction false} SortKeysWf(v: Json)
    requires Wf(v)
    ensures Wf(SortKeys(v))
  {
    hide Sort, Less;
    match v
    case Arr(items) =>
      forall i | 0 <= i < |items|
        ensures Wf(SortItems(items)[i])
      {
        SortKeysWf(items[i]);
      }
    case Obj(members) =>
      forall i | 0 <= i < |members|
        ensures Wf(SortMembers(members)[i].value)
      {
        SortKeysWf(members[i].value);
      }
      SortedMembersWf(SortMembers(members));
    case _ =>
  }

  lemma SameKeysSameElements(a: seq<Entry<Json>>, b: seq<Entry<Json>>)
    requires KeySet(a) == KeySet(b)
    requires forall i, j :: 0 <= i < |a| && 0 <= j < |b| && a[i].key == b[j].key
                ==> SortKeys(a[i].value) == SortKeys(b[j].value)
    ensures forall x :: x in SortMembers(a) <==> x in SortMembers(b)
  {
    forall x
      ensures x in SortMembers(a) <==> x in SortMembers(b)
    {
      if x in SortMembers(a) {
        var i :| 0 <= i < |a| && SortMembers(a)[i] == x;
        assert a[i].key in KeySet(a);
        var j :| 0 <= j < |b| && b[j].key == a[i].key;
        assert SortMembers(b)[j] == x;
      }
      if x in SortMembers(b) {
        var j :| 0 <= j < |b| && SortMembers(b)[j] == x;
        assert b[j].key in KeySet(b);
        var i :| 0 <= i < |a| && b[j].key == a[i].key;
        assert SortMembers(a)[i] == x;
      }
    }
  }

  lemma {:induction false} DistinctSubsetSize<V>(a: seq<Entry<V>>, b: seq<Entry<V>>)
    requires DistinctKeys(a)
    requires forall x :: x in a ==> x in b
    ensures |a| <= |b|
  {
    if |a| > 0 {
      assert a[0] in b;
      var j :| 0 <= j < |b| && b[j] == a[0];
      var b' := b[..j] + b[j + 1..];
      forall x | x in a[1..]
        ensures x in b'
      {
        var i :| 1 <= i < |a| && a[i] == x;
        assert x in b && x != a[0];
        var k :| 0 <= k < |b| && b[k] == x;
        assert b'[if k < j then k else k - 1] == x;
      }
      DistinctSubsetSize(a[1..], b');
    }
  }

  lemma {:induction false} SameSortsAlike(v: Json, w: Json)
    requires Wf(v) && Wf(w) && Same(v, w)
    ensures SortKeys(v) == SortKeys(w)
  {
    match (v, w)
    case (Arr(a), Arr(b)) =>
      forall i | 0 <= i < |a|
        ensures SortItems(a)[i] == SortItems(b)[i]
      {
        SameSortsAlike(a[i], b[i]);
      }
    case (Obj(a), Obj(b)) =>
      forall i, j | 0 <= i < |a| && 0 <= j < |b| && a[i].key == b[j].key
        ensures SortKeys(a[i].value) == SortKeys(b[j].value)
      {
        SameSortsAlike(a[i].value, b[j].value);
      }
      var x, y := SortMembers(a), SortMembers(b);
      SameKeysSameElements(a, b);
      SortSorted(x);
      SortSorted(y);
      SameElements(x, Sort(x));
      SameElements(y, Sort(y));
      DistinctSubsetSize(x, y);
      DistinctSubsetSize(y, x);
      SortedIsUnique(Sort(x), Sort(y));
    case (_, _) =>
  }

  /** Entry lists with the same elements bind the same keys to the same values. */
  lemma SameElementsSameBindings<V>(x: seq<Entry<V>>, y: seq<Entry<V>>)
    requires DistinctKeys(y)
    requires forall e :: e in x ==> e in y
    ensures KeySet(x) <= KeySet(y)
    ensures forall i, j :: 0 <= i < |x| && 0 <= j < |y| && x[i].key == y[j].key ==> x[i] == y[j]
  {
    forall i | 0 <= i < |x|
      ensures x[i].key in KeySet(y)
      ensures forall j :: 0 <= j < |y| && x[i].key == y[j].key ==> x[i] == y[j]
    {
      assert x[i] in y;
      var j :| 0 <= j < |y| && y[j] == x[i];
    }
  }

  lemma SortMembersKeys(a: seq<Entry<Json>>, x: seq<Entry<Json>>)
    requires |x| == |a| && forall i :: 0 <= i < |a| ==> x[i].key == a[i].key
    ensures KeySet(x) == KeySet(a)
  {
    forall i | 0 <= i < |a|
      ensures x[i].key in KeySet(a) && a[i].key in KeySet(x)
    {
      assert x[i].key == a[i].key;
    }
  }

  lemma SortedMembersAlike(a: seq<Entry<Json>>, x: seq<Entry<Json>>, b: seq<Entry<Json>>, y: seq<Entry<Json>>)
    requires DistinctKeys(a) && |x| == |a| && forall i :: 0 <= i < |a| ==> x[i].key == a[i].key
    requires DistinctKeys(b) && |y| == |b| && forall i :: 0 <= i < |b| ==> y[i].key == b[i].key
    requires multiset(x) == multiset(y)
    ensures KeySet(a) == KeySet(b)
    ensures forall i, j :: 0 <= i < |a| && 0 <= j < |b| && a[i].key == b[j].key ==> x[i] == y[j]
  {
    SortMembersKeys(a, x);
    SortMembersKeys(b, y);
    SameElements(x, y);
    SameElementsSameBindings(x, y);
    SameElementsSameBindings(y, x);
  }

  lemma {:induction false} AlikeIsSame(v: Json, w: Json)
    requires Wf(v) && Wf(w) && SortKeys(v) == SortKeys(w)
    ensures Same(v, w)
  {
    match (v, w)
    case (Arr(a), Arr(b)) =>
      forall i | 0 <= i < |a|
        ensures Same(a[i], b[i])
      {
        assert SortItems(a)[i] == SortItems(b)[i];
        AlikeIsSame(a[i], b[i]);
      }
    case (Obj(a), Obj(b)) =>
      var x, y := SortMembers(a), SortMembers(b);
      assert multiset(x) == multiset(Sort(x)) == multiset(Sort(y)) == multiset(y);
      SortedMembersAlike(a, x, b, y);
      forall i, j | 0 <= i < |a| && 0 <= j < |b| && a[i].key == b[j].key
        ensures Same(a[i].value, b[j].value)
      {
        assert x[i] == y[j];
        AlikeIsSame(a[i].value, b[j].value);
      }
    case (_, _) =>
  }

  lemma {:induction false} SortKeysIsSame(v: Json)
    requires Wf(v)
    ensures Same(v, SortKeys(v))
  {
    match v
    case Arr(items) =>
      forall i | 0 <= i < |items|
        ensures Same(items[i], SortItems(items)[i])
      {
        SortKeysIsSame(items[i]);
      }
    case Obj(a) =>
      var x := SortMembers(a);
      var b := Sort(x);
      SortSorted(x);
      SortedKeysDistinct(b);
      SortedMembersAlike(a, x, b, b);
      forall i, j | 0 <= i < |a| && 0 <= j < |b| && a[i].key == b[j].key
        ensures Same(a[i].value, b[j].value)
      {
        assert x[i] == b[j];
        SortKeysIsSame(a[i].value);
      }
    case _ =>
  }

  /** Every dict, at every depth, lists its keys in ascending order. */
  ghost predicate KeysAscend(v: Json) {
    match v
    case Arr(items) => forall i :: 0 <= i < |items| ==> KeysAscend(items[i])
    case Obj(members) =>
      SortedByKey(members) && forall i :: 0 <= i < |members| ==> KeysAscend(members[i].value)
    case _ => true
  }

  lemma SortKeepsAscending(members: seq<Entry<Json>>)
    requires DistinctKeys(members) && forall i :: 0 <= i < |members| ==> KeysAscend(members[i].value)
    ensures SortedByKey(Sort(members))
    ensures forall i :: 0 <= i < |Sort(members)| ==> KeysAscend(Sort(members)[i].value)
  {
    hide Less, KeysAscend;
    var sorted := Sort(members);
    SortSorted(members);
    SameElements(members, sorted);
    hide Sort;
    forall i | 0 <= i < |sorted|
      ensures KeysAscend(sorted[i].value)
    {
      assert sorted[i] in members;
    }
  }

  lemma {:induction false} SortKeysAscend(v: Json)
    requires Wf(v)
    ensures KeysAscend(SortKeys(v))
  {
    hide Sort, Less;
    match v
    case Arr(items) =>
      forall i | 0 <= i < |items|
        ensures KeysAscend(SortItems(items)[i])
      {
        SortKeysAscend(items[i]);
      }
    case Obj(members) =>
      forall i | 0 <= i < |members|
        ensures KeysAscend(SortMembers(members)[i].value)
      {
        SortKeysAscend(members[i].value);
      }
      SortKeepsAscending(SortMembers(members));
    case _ =>
  }

  /** The reader undoes the canonical printer up to dict order. */
  lemma CanonicalRoundTrip(v: Json)
    requires Wf(v)
    ensures ReadValue(Canonical(v)) == Some((SortKeys(v), ""))
    ensures Same(v, SortKeys(v)) && KeysAscend(SortKeys(v))
  {
    SortKeysWf(v);
    SortKeysAscend(v);
    ReadEmitted(SortKeys(v), "");
    SortKeysIsSame(v);
  }

  /** Main result: equal text if and only if equal values, in whatever order the
      dicts were filled. */
  lemma CanonicalIff(v: Json, w: Json)
    requires Wf(v) && Wf(w)
    ensures Canonical(v) == Canonical(w) <==> Same(v, w)
  {
    if Canonical(v) == Canonical(w) {
      CanonicalRoundTrip(v);
      CanonicalRoundTrip(w);
      AlikeIsSame(v, w);
    }
    if Same(v, w) {
      SameSortsAlike(v, w);
    }
  }
}
