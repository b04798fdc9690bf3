/** The order Python's `sorted` uses on strings (code point by code point), and
    the sort by key that the canonical JSON printer and the migration runner share. */
module TextOrder {
  /** Strict lexicographic order on code points. */
  predicate Less(a: string, b: string) {
    |b| > 0 && (|a| == 0 || a[0] < b[0] || (a[0] == b[0] && Less(a[1..], b[1..])))
  }

  lemma {:induction false} LessIrreflexive(a: string)
    ensures !Less(a, a)
  {
    if |a| > 0 {
      LessIrreflexive(a[1..]);
    }
  }

  lemma {:induction false} LessTransitive(a: string, b: string, c: string)
    requires Less(a, b) && Less(b, c)
    ensures Less(a, c)
  {
    if |a| > 0 && a[0] == b[0] == c[0] {
      LessTransitive(a[1..], b[1..], c[1..]);
    }
  }

  lemma {:induction false} LessTotal(a: string, b: string)
    ensures a == b || Less(a, b) || Less(b, a)
  {
    if |a| > 0 && |b| > 0 && a[0] == b[0] {
      LessTotal(a[1..], b[1..]);
      assert a == [a[0]] + a[1..] && b == [b[0]] + b[1..];
    }
  }

  /** Two strings that agree up to position i and differ there are ordered by that position. */
  lemma {:induction false} LessAtFirstDifference(a: string, b: string, i: nat)
    requires i < |a| && i < |b| && a[..i] == b[..i] && a[i] < b[i]
    ensures Less(a, b)
  {
    if i > 0 {
      assert a[0] == a[..i][0] == b[..i][0] == b[0];
      assert a[1..][..i - 1] == a[..i][1..] == b[..i][1..] == b[1..][..i - 1];
      LessAtFirstDifference(a[1..], b[1..], i - 1);
    }
  }

  lemma {:induction false} PrefixLess(a: string, b: string)
    requires |a| < |b| && b[..|a|] == a
    ensures Less(a, b)
  {
    if a != "" {
      assert a[0] == b[..|a|][0] && b[1..][..|a| - 1] == b[..|a|][1..] == a[1..];
      PrefixLess(a[1..], b[1..]);
    }
  }

  /** a comes first exactly when it is a proper prefix of b, or has the smaller character
      at the first position where they differ. */
  lemma {:induction false} LessIff(a: string, b: string)
    ensures Less(a, b) <==> exists i :: 0 <= i <= |a| && i < |b| && a[..i] == b[..i] && (i == |a| || a[i] < b[i])
  {
    if Less(a, b) {
      if |a| == 0 || a[0] < b[0] {
        assert a[..0] == b[..0];
      } else {
        LessIff(a[1..], b[1..]);
        var i :| 0 <= i <= |a[1..]| && i < |b[1..]| && a[1..][..i] == b[1..][..i] && (i == |a[1..]| || a[1..][i] < b[1..][i]);
        assert a[..i + 1] == [a[0]] + a[1..][..i] && b[..i + 1] == [b[0]] + b[1..][..i];
      }
    }
    if i :| 0 <= i <= |a| && i < |b| && a[..i] == b[..i] && (i == |a| || a[i] < b[i]) {
      if i == |a| {
        PrefixLess(a, b);
      } else {
        LessAtFirstDifference(a, b, i);
      }
    }
  }

  // ---- sorting entries by key ----

  datatype Entry<+V> = Entry(key: string, value: V)

  ghost predicate DistinctKeys<V>(s: seq<Entry<V>>) {
    forall i, j :: 0 <= i < j < |s| ==> s[i].key != s[j].key
  }

  ghost predicate SortedByKey<V>(s: seq<Entry<V>>) {
    forall i, j :: 0 <= i < j < |s| ==> Less(s[i].key, s[j].key)
  }

  function Insert<V>(x: Entry<V>, s: seq<Entry<V>>): (r: seq<Entry<V>>)
    ensures multiset(r) == multiset(s) + multiset{x}
  {
    if s == [] then [x]
    else if Less(x.key, s[0].key) then
      assert [x] + s == [x] + s;
      [x] + s
    else
      assert s == [s[0]] + s[1..];
      [s[0]] + Insert(x, s[1..])
  }

  function Sort<V>(s: seq<Entry<V>>): (r: seq<Entry<V>>)
    ensures multiset(r) == multiset(s)
  {
    if s == [] then []
    else
      assert s == [s[0]] + s[1..];
      Insert(s[0], Sort(s[1..]))
  }

  lemma SameElements<V>(a: seq<Entry<V>>, b: seq<Entry<V>>)
    requires multiset(a) == multiset(b)
    ensures |a| == |b|
    ensures forall x :: x in a <==> x in b
  {
    assert |multiset(a)| == |a| && |multiset(b)| == |b|;
    forall x
      ensures x in a <==> x in b
    {
      assert x in a <==> x in multiset(a);
      assert x in b <==> x in multiset(b);
    }
  }

  lemma {:induction false} InsertSorted<V>(x: Entry<V>, s: seq<Entry<V>>)
    requires SortedByKey(s)
    requires forall y :: y in s ==> y.key != x.key
    ensures SortedByKey(Insert(x, s))
  {
    if s != [] {
      if Less(x.key, s[0].key) {
        forall j | 0 <= j < |s|
          ensures Less(x.key, s[j].key)
        {
          if j > 0 { LessTransitive(x.key, s[0].key, s[j].key); }
        }
      } else {
        LessTotal(x.key, s[0].key);
        assert s[0] in s;
        assert Less(s[0].key, x.key);
        var rest := Insert(x, s[1..]);
        InsertSorted(x, s[1..]);
        forall y | y in rest
          ensures Less(s[0].key, y.key)
        {
          assert y in multiset(rest);
          assert y in multiset(s[1..]) || y == x;
          if y != x {
            assert y in s[1..];
          }
        }
      }
    }
  }

  lemma {:induction false} SortSorted<V>(s: seq<Entry<V>>)
    requires DistinctKeys(s)
    ensures SortedByKey(Sort(s))
  {
    if s != [] {
      SortSorted(s[1..]);
      var rest := Sort(s[1..]);
      forall y | y in rest
        ensures y.key != s[0].key
      {
        assert y in multiset(rest);
        assert y in s[1..];
        var j :| 0 <= j < |s[1..]| && s[1..][j] == y;
        assert s[j + 1] == y;
      }
      InsertSorted(s[0], rest);
    }
  }

  lemma TailElements<V>(s: seq<Entry<V>>, x: Entry<V>)
    requires SortedByKey(s) && s != []
    ensures x in s[1..] <==> x in s && x != s[0]
  {
    if x in s[1..] {
      var i :| 0 <= i < |s[1..]| && s[1..][i] == x;
      assert s[i + 1] == x;
      LessIrreflexive(x.key);
    }
    if x in s && x != s[0] {
      var i :| 0 <= i < |s| && s[i] == x;
      assert s[1..][i - 1] == x;
    }
  }

  lemma FirstIsLeast<V>(s: seq<Entry<V>>, x: Entry<V>)
    requires SortedByKey(s) && x in s
    ensures x == s[0] || Less(s[0].key, x.key)
  {
    var i :| 0 <= i < |s| && s[i] == x;
  }

  /** A sorted sequence is determined by its elements: sorting forgets the original order. */
  lemma {:induction false} SortedIsUnique<V>(a: seq<Entry<V>>, b: seq<Entry<V>>)
    requires SortedByKey(a) && SortedByKey(b)
    requires |a| == |b| && forall x :: x in a <==> x in b
    ensures a == b
  {
    if a != [] {
      assert a[0] in a && a[0] in b;
      assert b[0] in b && b[0] in a;
      FirstIsLeast(a, b[0]);
      FirstIsLeast(b, a[0]);
      if a[0] != b[0] {
        LessTransitive(a[0].key, b[0].key, a[0].key);
        LessIrreflexive(a[0].key);
        assert false;
      }
      forall x
        ensures x in a[1..] <==> x in b[1..]
      {
        TailElements(a, x);
        TailElements(b, x);
      }
      SortedIsUnique(a[1..], b[1..]);
      assert a == [a[0]] + a[1..] && b == [b[0]] + b[1..];
    }
  }
}
