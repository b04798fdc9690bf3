/** `AgendaService.activate` and `AgendaService.reorder` over the collection of agenda
    items, one call at a time. */
module AgendaService {
  import opened Json
  import opened AgendaActivation

  // ---- reorder: what a list of (id, order_index) entries asks for ----

  /** `{id: order_index for ...}`: the last entry of an id wins. */
  function OrderMap(entries: seq<(string, int)>): map<string, int> {
    if entries == [] then map[]
    else OrderMap(entries[..|entries| - 1])[entries[|entries| - 1].0 := entries[|entries| - 1].1]
  }

  /** No later entry has the same id. */
  predicate LastOf(entries: seq<(string, int)>, i: nat) {
    i < |entries| && forall j :: i < j < |entries| ==> entries[j].0 != entries[i].0
  }

  lemma {:induction false} OrderMapHolds(entries: seq<(string, int)>, k: string)
    ensures k in OrderMap(entries) <==> exists i :: 0 <= i < |entries| && entries[i].0 == k
  {
    if entries != [] {
      var n := |entries| - 1;
      OrderMapHolds(entries[..n], k);
      if i :| 0 <= i < n && entries[..n][i].0 == k {
        assert entries[i].0 == k;
      }
      if i :| 0 <= i < n && entries[i].0 == k {
        assert entries[..n][i].0 == k;
      }
    }
  }

  lemma {:induction false} OrderMapLast(entries: seq<(string, int)>, i: nat)
    requires LastOf(entries, i)
    ensures entries[i].0 in OrderMap(entries) && OrderMap(entries)[entries[i].0] == entries[i].1
  {
    var n := |entries| - 1;
    if i < n {
      assert entries[n].0 != entries[i].0;
      forall j | i < j < n
        ensures entries[..n][j].0 != entries[..n][i].0
      {
        assert entries[j].0 != entries[i].0;
      }
      OrderMapLast(entries[..n], i);
    }
  }

  lemma LastIsEntry(entries: seq<(string, int)>, i: nat)
    requires LastOf(entries, i)
    ensures i < |entries|
  {
  }

  lemma OrderMapMeans(entries: seq<(string, int)>)
    ensures forall k :: k in OrderMap(entries) <==> exists i :: 0 <= i < |entries| && entries[i].0 == k
    ensures forall i: nat :: LastOf(entries, i) ==>
      entries[i].0 in OrderMap(entries) && OrderMap(entries)[entries[i].0] == entries[i].1
  {
    hide OrderMap, LastOf;
    forall k
      ensures k in OrderMap(entries) <==> exists i :: 0 <= i < |entries| && entries[i].0 == k
    {
      OrderMapHolds(entries, k);
    }
    forall i: nat | LastOf(entries, i)
      ensures i < |entries| && entries[i].0 in OrderMap(entries) && OrderMap(entries)[entries[i].0] == entries[i].1
    {
      assert i < |entries| by { LastIsEntry(entries, i); }
      OrderMapLast(entries, i);
    }
  }

  predicate InSession(items: Items, session: string, k: string) {
    k in items && items[k].session == session
  }

  /** The guard: every listed id is an item of the session. */
  predicate AllInSession(items: Items, session: string, order: map<string, int>) {
    forall k :: k in order ==> InSession(items, session, k)
  }

  function Moved(items: Items, order: map<string, int>): set<string> {
    set k | k in order && k in items && items[k].orderIndex != order[k]
  }

  function Reordered(items: Items, order: map<string, int>): Items {
    map k | k in items :: if k in order then items[k].(orderIndex := order[k]) else items[k]
  }

  /** The ids of the entries that are no item of the session. */
  lemma ForeignIds(items: Items, session: string, entries: seq<(string, int)>)
    ensures AllInSession(items, session, OrderMap(entries)) <==>
      forall i :: 0 <= i < |entries| ==> entries[i].0 in items && items[entries[i].0].session == session
    ensures forall k :: k in OrderMap(entries) && !InSession(items, session, k) <==>
      exists i :: 0 <= i < |entries| && entries[i].0 == k && !(k in items && items[k].session == session)
  {
    OrderMapMeans(entries);
    forall i | 0 <= i < |entries|
      ensures entries[i].0 in OrderMap(entries)
    {
    }
  }

  /** A reorder in terms of its entries. */
  lemma ReorderedMeans(items: Items, entries: seq<(string, int)>)
    requires forall i :: 0 <= i < |entries| ==> entries[i].0 in items
    ensures var after := Reordered(items, OrderMap(entries));
      && after.Keys == items.Keys
      && (forall i: nat :: LastOf(entries, i) ==>
            after[entries[i].0] == items[entries[i].0].(orderIndex := entries[i].1))
      && (forall k :: k in items && (forall i :: 0 <= i < |entries| ==> entries[i].0 != k) ==> after[k] == items[k])
      && Moved(items, OrderMap(entries)) == set k | k in items && after[k].orderIndex != items[k].orderIndex
  {
    OrderMapMeans(entries);
  }

  lemma ReorderOneMore(items: Items, done: map<string, int>, k: string, v: int)
    requires k in items && k !in done
    ensures var now := Reordered(items, done);
      Reordered(items, done[k := v]) == if now[k].orderIndex != v then now[k := now[k].(orderIndex := v)] else now
    ensures |Moved(items, done[k := v])| == |Moved(items, done)| + if items[k].orderIndex != v then 1 else 0
  {
    assert Moved(items, done[k := v]) == Moved(items, done) + if items[k].orderIndex != v then {k} else {};
  }

  /** What is already in place does not change where a reorder leads. */
  lemma ReorderedOnTop(items: Items, done: map<string, int>, order: map<string, int>)
    requires forall k :: k in done ==> k in order && done[k] == order[k]
    ensures Reordered(Reordered(items, done), order) == Reordered(items, order)
  {
  }

  /** What is already in place need not be moved again. */
  lemma MovedOnTop(items: Items, done: map<string, int>, order: map<string, int>)
    requires forall k :: k in done ==> k in order && done[k] == order[k]
    ensures |Moved(Reordered(items, done), order)| == |Moved(items, order)| - |Moved(items, done)|
  {
    assert Moved(items, order) == Moved(Reordered(items, done), order) + Moved(items, done);
  }

  /** Some of the requested indices are in place, and nothing else has changed. */
  ghost predicate PartlyReordered(before: Items, after: Items, order: map<string, int>) {
    && after.Keys == before.Keys
    && forall k :: k in before ==>
         after[k] == before[k] || (k in order && after[k] == before[k].(orderIndex := order[k]))
  }

  /** SaveFailed is the exception of a save in the middle of the loop. */
  datatype ReorderResult = Updated(count: nat) | NotInSession(missing: set<string>) | SaveFailed

  class AgendaItems {
    var items: Items
    /** How many more saves of `reorder` succeed before the connection is lost. */
    var budget: nat

    constructor (items: Items, budget: nat)
      ensures this.items == items && this.budget == budget
    {
      this.items, this.budget := items, budget;
    }

    /** From any state, a call that runs alone leaves its target the only active item of its
        session and other sessions as they were; an unknown id changes nothing. */
    method Activate(itemId: string, now: int) returns (found: bool)
      modifies `items
      ensures found <==> itemId in old(items)
      ensures !found ==> items == old(items)
      ensures items.Keys == old(items).Keys
      ensures found ==> items[itemId] == old(items)[itemId].(active := true, activatedAt := Some(now))
      ensures found ==> forall k :: k in items && k != itemId ==>
        items[k] == if old(items)[k].session == old(items)[itemId].session then old(items)[k].(active := false)
                    else old(items)[k]
      ensures found ==> forall k :: Active(items, k) && items[k].session == items[itemId].session <==> k == itemId
    {
      if itemId !in items {
        return false;
      }
      var target := items[itemId];
      var left := items.Keys;
      while left != {}
        invariant left <= items.Keys == old(items).Keys
        invariant forall k :: k in left ==> items[k] == old(items)[k]
        invariant forall k :: k in items && k !in left ==>
          items[k] == if IsSibling(old(items), target.session, itemId, k) then old(items)[k].(active := false)
                      else old(items)[k]
        decreases left
      {
        var k :| k in left;
        left := left - {k};
        if IsSibling(items, target.session, itemId, k) && items[k].active {
          items := items[k := items[k].(active := false)];
        }
      }
      items := items[itemId := target.(active := true, activatedAt := Some(now))];
      found := true;
    }

    /** The loop over the items found: write the index where it differs, and count. */
    method ApplyOrder(order: map<string, int>) returns (ok: bool, n: nat)
      requires order.Keys <= items.Keys
      modifies this
      ensures ok ==> items == Reordered(old(items), order) && n == |Moved(old(items), order)|
      ensures ok <==> old(budget) >= |Moved(old(items), order)|
      ensures !ok ==> PartlyReordered(old(items), items, order)
      ensures !ok ==> |Moved(items, order)| == |Moved(old(items), order)| - old(budget)
      ensures Reordered(items, order) == Reordered(old(items), order)
    {
      n := 0;
      var left := order.Keys;
      ghost var done: map<string, int> := map[];
      assert Moved(items, done) == {};
      while left != {}
        invariant left <= order.Keys && done.Keys == order.Keys - left
        invariant forall k :: k in done ==> done[k] == order[k]
        invariant items == Reordered(old(items), done)
        invariant n == |Moved(old(items), done)| && budget == old(budget) - n
        decreases left
      {
        var k :| k in left;
        left := left - {k};
        var newIndex := order[k];
        ReorderOneMore(old(items), done, k, newIndex);
        ghost var done0 := done;
        done := done[k := newIndex];
        if items[k].orderIndex != newIndex {
          if budget == 0 {
            ReorderedOnTop(old(items), done0, order);
            MovedOnTop(old(items), done0, order);
            assert k in Moved(items, order);
            return false, n;
          }
          budget := budget - 1;
          items := items[k := items[k].(orderIndex := newIndex)];
          n := n + 1;
        }
      }
      assert done == order;
      ReorderedOnTop(old(items), order, order);
      ok := true;
    }

    /** Either refuses with nothing changed, or puts every listed item, and only those, at
        its requested index and returns how many moved: exactly when the saves this takes
        succeed. A failing save leaves the part of that done that was saved, and repeating
        the call from there completes it. */
    method Reorder(session: string, entries: seq<(string, int)>) returns (r: ReorderResult)
      modifies this
      ensures r.NotInSession? <==> exists i ::
        0 <= i < |entries| && !(entries[i].0 in old(items) && old(items)[entries[i].0].session == session)
      ensures r.NotInSession? ==> forall k :: k in r.missing <==> exists i ::
        0 <= i < |entries| && entries[i].0 == k && !(k in old(items) && old(items)[k].session == session)
      ensures r.Updated? ==> items.Keys == old(items).Keys
      ensures r.Updated? ==> forall i: nat :: LastOf(entries, i) ==>
        entries[i].0 in items && items[entries[i].0] == old(items)[entries[i].0].(orderIndex := entries[i].1)
      ensures r.Updated? ==> forall k :: k in items && (forall i :: 0 <= i < |entries| ==> entries[i].0 != k) ==>
        items[k] == old(items)[k]
      ensures r.Updated? ==>
        r.count == |set k | k in items && items[k].orderIndex != old(items)[k].orderIndex|
      ensures r.NotInSession? <==> !AllInSession(old(items), session, OrderMap(entries))
      ensures r.NotInSession? ==> items == old(items)
      ensures r.NotInSession? ==> r.missing == set k | k in OrderMap(entries) && !InSession(old(items), session, k)
      ensures r.Updated? <==>
        AllInSession(old(items), session, OrderMap(entries)) && old(budget) >= |Moved(old(items), OrderMap(entries))|
      ensures r.Updated? ==> items == Reordered(old(items), OrderMap(entries))
      ensures r.Updated? ==> r.count == |Moved(old(items), OrderMap(entries))|
      ensures r.SaveFailed? ==> PartlyReordered(old(items), items, OrderMap(entries))
      ensures r.SaveFailed? ==>
        |Moved(items, OrderMap(entries))| == |Moved(old(items), OrderMap(entries))| - old(budget)
      ensures r.SaveFailed? ==> AllInSession(items, session, OrderMap(entries))
      ensures r.SaveFailed? ==> Reordered(items, OrderMap(entries)) == Reordered(old(items), OrderMap(entries))
    {
      var order: map<string, int> := map[];
      for i := 0 to |entries|
        invariant order == OrderMap(entries[..i])
      {
        order := order[entries[i].0 := entries[i].1];
        assert entries[..i + 1][..i] == entries[..i];
      }
      assert entries[..|entries|] == entries;
      ForeignIds(items, session, entries);
      hide OrderMap;

      var existing := set k | k in items && InSession(items, session, k) && k in order;
      if existing != order.Keys {
        return NotInSession(order.Keys - existing);
      }
      assert AllInSession(items, session, order) by {
        forall k | k in order
          ensures InSession(items, session, k)
        {
          assert k in existing;
        }
      }
      ReorderedMeans(items, entries);
      hide Reordered, Moved, PartlyReordered;
      var ok, n := ApplyOrder(order);
      r := if ok then Updated(n) else SaveFailed;
    }
  }

  /** Repeating the same reorder moves nothing: the second call returns 0. */
  lemma ReorderTwiceMovesNothing(items: Items, session: string, order: map<string, int>)
    requires AllInSession(items, session, order)
    ensures AllInSession(Reordered(items, order), session, order)
    ensures |Moved(Reordered(items, order), order)| == 0 && Reordered(Reordered(items, order), order) == Reordered(items, order)
  {
    assert Moved(Reordered(items, order), order) == {};
  }

  // ---- reorder and the indices of a session ----

  /** The items of a session at index v. */
  function AtIndex(items: Items, session: string, v: int): set<string> {
    set k | k in items && items[k].session == session && items[k].orderIndex == v
  }

  function ListedAt(items: Items, order: map<string, int>, v: int): set<string> {
    set k | k in order && k in items && items[k].orderIndex == v
  }

  function RequestedAt(order: map<string, int>, v: int): set<string> {
    set k | k in order && order[k] == v
  }

  /** The requested indices are a permutation of the ones the listed items had. */
  ghost predicate Permutes(items: Items, order: map<string, int>) {
    forall v :: |RequestedAt(order, v)| == |ListedAt(items, order, v)|
  }

  lemma AtIndexAfter(items: Items, session: string, order: map<string, int>, v: int)
    requires AllInSession(items, session, order)
    ensures AtIndex(Reordered(items, order), session, v)
      == (AtIndex(items, session, v) - ListedAt(items, order, v)) + RequestedAt(order, v)
  {
    var (after, before) := (AtIndex(Reordered(items, order), session, v), AtIndex(items, session, v));
    forall k
      ensures k in after <==> k in (before - ListedAt(items, order, v)) + RequestedAt(order, v)
    {
      if k in order {
        assert InSession(items, session, k);
      }
    }
  }

  lemma SetCounts(before: set<string>, listed: set<string>, requested: set<string>)
    requires listed <= before && (before - listed) !! requested
    ensures |(before - listed) + requested| == |before| - |listed| + |requested|
  {
    assert before == (before - listed) + listed;
  }

  /** A reorder changes how often an index occurs in its session by exactly what it asked
      for: as many items at v as before, minus the listed ones that were there, plus the
      listed ones sent there. */
  lemma ReorderCounts(items: Items, session: string, order: map<string, int>, v: int)
    requires AllInSession(items, session, order)
    ensures |AtIndex(Reordered(items, order), session, v)|
      == |AtIndex(items, session, v)| - |ListedAt(items, order, v)| + |RequestedAt(order, v)|
    ensures AtIndex(items, session, v) == set k | k in items && items[k].session == session && items[k].orderIndex == v
    ensures ListedAt(items, order, v) == set k | k in order && k in items && items[k].orderIndex == v
    ensures RequestedAt(order, v) == set k | k in order && order[k] == v
  {
    AtIndexAfter(items, session, order, v);
    forall k | k in order
      ensures InSession(items, session, k)
    {
    }
    SetCounts(AtIndex(items, session, v), ListedAt(items, order, v), RequestedAt(order, v));
  }

  /** The session keeps its multiset of indices exactly when the requested indices permute
      the old indices of the listed items. */
  lemma IndicesPreservedIff(items: Items, session: string, order: map<string, int>)
    requires AllInSession(items, session, order)
    ensures (forall v :: |AtIndex(Reordered(items, order), session, v)| == |AtIndex(items, session, v)|)
      <==> Permutes(items, order)
  {
    forall v
      ensures |AtIndex(Reordered(items, order), session, v)| == |AtIndex(items, session, v)|
        <==> |RequestedAt(order, v)| == |ListedAt(items, order, v)|
    {
      ReorderCounts(items, session, order, v);
    }
    if Permutes(items, order) {
      forall v
        ensures |AtIndex(Reordered(items, order), session, v)| == |AtIndex(items, session, v)|
      {
        ReorderCounts(items, session, order, v);
      }
    } else {
      var v :| |RequestedAt(order, v)| != |ListedAt(items, order, v)|;
      ReorderCounts(items, session, order, v);
    }
  }
}
