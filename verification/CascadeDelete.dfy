/** `DAO.delete` and `DAO.soft_delete` with `by_pass_exception=False`: each level does
    all its restrict checks, then the cascade recursion, then its own removal. */
module CascadeDelete {
  import opened Json
  import opened CascadeGraph

  /** InUse and UnknownKey are the ValueErrors of the restrict check, TooDeep is
      Python's RecursionError, DatabaseError a failed database call. */
  datatype Error = InUse | UnknownKey | TooDeep | DatabaseError

  datatype Outcome = Returned(removed: bool) | Raised(error: Error)

  /** A deleted document as it is handed to the history, which keeps ids and datetimes as text. */
  datatype Record = Record(key: Key, dataBefore: Doc)

  /** What the history keeps of a list of hard-deleted documents: those in watched collections. */
  function HistoryOf(schema: Schema, before: Docs, log: seq<Key>): seq<Record>
    requires forall k :: k in log ==> k in before
  {
    if log == [] then []
    else
      var k := log[|log| - 1];
      HistoryOf(schema, before, log[..|log| - 1]) + (if k.coll in schema.watched then [Record(k, before[k])] else [])
  }

  /** Exactly the removed documents of watched collections are recorded, with what was
      in them. */
  lemma {:induction false} HistoryMeans(schema: Schema, before: Docs, log: seq<Key>)
    requires forall k :: k in log ==> k in before
    ensures forall e :: e in HistoryOf(schema, before, log) <==>
      e.key in log && e.key.coll in schema.watched && e.dataBefore == before[e.key]
  {
    if log != [] {
      var m := |log| - 1;
      HistoryMeans(schema, before, log[..m]);
      assert log == log[..m] + [log[m]];
    }
  }

  ghost predicate InOrder(log: seq<Key>, x: Key, y: Key) {
    exists a, b :: 0 <= a < b < |log| && log[a] == x && log[b] == y
  }

  /** In the order of their removal, and each removal once. */
  lemma {:induction false} HistoryInOrder(schema: Schema, before: Docs, log: seq<Key>, i: nat, j: nat)
    requires forall k :: k in log ==> k in before
    requires i < j < |HistoryOf(schema, before, log)|
    ensures InOrder(log, HistoryOf(schema, before, log)[i].key, HistoryOf(schema, before, log)[j].key)
  {
    var m := |log| - 1;
    var init := HistoryOf(schema, before, log[..m]);
    HistoryMeans(schema, before, log[..m]);
    assert init[i] in init;
    if j < |init| {
      HistoryInOrder(schema, before, log[..m], i, j);
      var a, b :| 0 <= a < b < m && log[..m][a] == init[i].key && log[..m][b] == init[j].key;
      assert log[a] == init[i].key && log[b] == init[j].key;
    } else {
      var a :| 0 <= a < m && log[..m][a] == init[i].key;
      assert log[a] == init[i].key;
    }
  }

  lemma {:induction false} HistoryAppends(schema: Schema, before: Docs, mid: Docs, log: seq<Key>, more: seq<Key>)
    requires forall k :: k in log ==> k in before
    requires forall k :: k in more ==> k in mid && k in before && mid[k] == before[k]
    ensures HistoryOf(schema, before, log + more) == HistoryOf(schema, before, log) + HistoryOf(schema, mid, more)
  {
    if more == [] {
      assert log + more == log;
    } else {
      var m := |more| - 1;
      HistoryAppends(schema, before, mid, log, more[..m]);
      assert (log + more)[..|log| + m] == log + more[..m];
    }
  }

  /** History and logs move together when a child's removal joins its parent's. */
  lemma HistoryJoins(schema: Schema, hard: bool, before: Docs, mid: Docs, after: Docs, root: Key, child: Key,
                     log: seq<Key>, more: seq<Key>)
    requires Sound(schema, hard, before, mid, root, log) && Sound(schema, hard, mid, after, child, more)
    ensures forall k :: k in log + more ==> k in before
    ensures hard ==>
      HistoryOf(schema, before, log + more) == HistoryOf(schema, before, log) + HistoryOf(schema, mid, more)
  {
    assert forall k :: k in log ==> Gone(before, mid, k);
    assert forall k :: k in more ==> Gone(mid, after, k);
    if hard {
      HistoryAppends(schema, before, mid, log, more);
    }
  }

  /** A cascade chain as long as the recursion was allowed to go. */
  ghost predicate LongChain(schema: Schema, docs: Docs, root: Key, n: nat) {
    exists p :: Path(schema, docs, p) && p[0] == root && |p| == n
  }

  /** Some document this removal has to pass (the root or one it reaches). */
  ghost predicate OnTheWay(schema: Schema, docs: Docs, root: Key, p: Key) {
    p == root || Reaches(schema, docs, root, p)
  }

  /** What a call may do to the connection: spend calls, but neither lose nor gain it. */
  predicate Spends(before: Option<nat>, after: Option<nat>) {
    match (before, after)
    case (None, None) => true
    case (Some(b), Some(a)) => a <= b
    case _ => false
  }

  /** What each exception says about the documents the call started from; `budget` is what
      is left of the connection, so a connection that is never lost has no DatabaseError. */
  ghost predicate Justified(schema: Schema, before: Docs, root: Key, fuel: nat, error: Error, budget: Option<nat>) {
    match error
    case InUse => exists p, r :: OnTheWay(schema, before, root, p) && RestrictedBy(schema, before, p, r)
    case UnknownKey => exists p :: OnTheWay(schema, before, root, p) && HasUnknownRestrict(schema, p)
    case TooDeep => LongChain(schema, before, root, fuel + 1)
    case DatabaseError => budget == Some(0)
  }

  /** A child's exception is justified for its parent too. */
  lemma JustifiedByChild(schema: Schema, before: Docs, mid: Docs, root: Key, child: Key, fuel: nat, error: Error, budget: Option<nat>)
    requires Later(before, mid) && CascadeChild(schema, before, root, child) && fuel > 0
    requires Justified(schema, mid, child, fuel - 1, error, budget)
    ensures Justified(schema, before, root, fuel, error, budget)
  {
    match error
    case InUse =>
      var p, r :| OnTheWay(schema, mid, child, p) && RestrictedBy(schema, mid, p, r);
      ReachesThroughChild(schema, before, mid, root, child, p);
      LaterRestricted(schema, before, mid, p, r);
      assert OnTheWay(schema, before, root, p);
    case UnknownKey =>
      var p :| OnTheWay(schema, mid, child, p) && HasUnknownRestrict(schema, p);
      ReachesThroughChild(schema, before, mid, root, child, p);
      assert OnTheWay(schema, before, root, p);
    case TooDeep =>
      var p :| Path(schema, mid, p) && p[0] == child && |p| == fuel;
      LaterPath(schema, before, mid, p);
      PathCons(schema, before, root, p);
      assert ([root] + p)[0] == root && |[root] + p| == fuel + 1;
    case DatabaseError =>
  }

  lemma OwnHistory(schema: Schema, hard: bool, before: Docs, mid: Docs, root: Key, log: seq<Key>)
    requires Sound(schema, hard, before, mid, root, log)
    ensures forall k :: k in log ==> k in before
    ensures root in mid ==> root in before
    ensures hard && root in mid ==>
      HistoryOf(schema, before, log + [root])
      == HistoryOf(schema, before, log) + (if root.coll in schema.watched then [Record(root, mid[root])] else [])
  {
    assert forall k :: k in log ==> Gone(before, mid, k);
    assert (log + [root])[..|log|] == log;
  }

  class Database {
    const schema: Schema
    var docs: Docs
    var history: seq<Record>
    /** How many more database calls succeed before the connection is lost; None when it
        is never lost. */
    var budget: Option<nat>
    /** The documents removed so far, in order. */
    ghost var removed: seq<Key>

    constructor (schema: Schema, docs: Docs, budget: Option<nat>)
      ensures this.schema == schema && this.docs == docs && this.budget == budget
      ensures history == [] && removed == []
    {
      this.schema, this.docs, this.budget := schema, docs, budget;
      history, removed := [], [];
    }

    /** One database call: false once the connection is lost. */
    method Call() returns (ok: bool)
      modifies `budget
      ensures ok <==> old(budget) != Some(0)
      ensures budget == if ok && old(budget).Some? then Some(old(budget).value - 1) else old(budget)
    {
      ok := budget != Some(0);
      if ok && budget.Some? { budget := Some(budget.value - 1); }
    }

    /** `find(filter).to_list()`: the live documents of a collection whose field holds
        the id, in any order; through the view only the approved ones. */
    method Find(coll: string, field: string, id: string, view: bool) returns (ok: bool, found: seq<Key>)
      modifies `budget
      ensures ok <==> old(budget) != Some(0)
      ensures Spends(old(budget), budget) && (!ok ==> budget == Some(0))
      ensures ok ==> forall k :: k in found <==> Points(docs, k, coll, field, id) && (view ==> docs[k].approved)
    {
      ok := Call();
      found := [];
      var left := docs.Keys;
      while left != {}
        invariant left <= docs.Keys
        invariant forall k :: k in found <==>
          k in docs && k !in left && Points(docs, k, coll, field, id) && (view ==> docs[k].approved)
        decreases left
      {
        var k :| k in left;
        left := left - {k};
        if Points(docs, k, coll, field, id) && (view ==> docs[k].approved) {
          found := found + [k];
        }
      }
    }

    /** Why the restrict checks of one level can raise. */
    ghost predicate CheckFails(key: Key, error: Error)
      reads this
    {
      match error
      case InUse => exists q :: RestrictedBy(schema, docs, key, q)
      case UnknownKey => HasUnknownRestrict(schema, key)
      case TooDeep => false
      case DatabaseError => budget == Some(0)
    }

    /** The restrict checks of one level: none of them changes anything. */
    method CheckRestricts(key: Key) returns (r: Outcome)
      modifies `budget
      ensures Spends(old(budget), budget)
      ensures r.Returned? ==> !HasUnknownRestrict(schema, key) && forall q :: !RestrictedBy(schema, docs, key, q)
      ensures r.Raised? ==> CheckFails(key, r.error)
    {
      var keys := RestrictsOf(schema, key.coll);
      for i := 0 to |keys|
        invariant Spends(old(budget), budget)
        invariant forall j :: 0 <= j < i ==> keys[j] in schema.registry
        invariant forall j: nat, q :: j < i ==> !RestrictVia(schema, docs, key, j, q)
      {
        if keys[i] !in schema.registry {
          return Raised(UnknownKey);
        }
        var coll := schema.registry[keys[i]];
        var ok, found := Find(coll, coll + "_id", key.id, true);
        if !ok {
          return Raised(DatabaseError);
        }
        if |found| > 0 {
          assert found[0] in found;
          assert RestrictVia(schema, docs, key, i, found[0]);
          assert RestrictedBy(schema, docs, key, found[0]);
          return Raised(InUse);
        }
        forall q
          ensures !RestrictVia(schema, docs, key, i, q)
        {
          assert q !in found;
        }
      }
      return Returned(true);
    }

    /** True is returned for a document that was there (soft: whose timestamp changed). */
    ghost predicate Answered(hard: bool, before: Docs, key: Key, answer: bool) {
      && (answer ==> key in before)
      && (!answer ==> key !in before || (!hard && !Live(before, key)) || Reaches(schema, before, key, key))
    }

    /** The logs follow the documents while the removal of `key` is under way. */
    ghost predicate Underway(hard: bool, before: Docs, key: Key, log: seq<Key>, past: seq<Key>, kept: seq<Record>)
      reads this
    {
      && Progress(schema, hard, before, docs, key, log)
      && removed == past + log
      && history == kept + (if hard then HistoryOf(schema, before, log) else [])
    }

    /** One round of the innermost loop. */
    method RemoveChild(hard: bool, key: Key, child: Key, fuel: nat, ghost before: Docs,
                       ghost log0: seq<Key>, ghost past: seq<Key>, ghost kept: seq<Record>)
      returns (r: Outcome, ghost log: seq<Key>)
      requires fuel > 0 && Underway(hard, before, key, log0, past, kept)
      requires CascadeChild(schema, before, key, child)
      modifies this
      ensures Underway(hard, before, key, log, past, kept) && Later(old(docs), docs) && Spends(old(budget), budget)
      ensures r.Returned? ==> !Live(docs, child)
      ensures r.Raised? ==> Justified(schema, before, key, fuel, r.error, budget)
      decreases fuel, 0
    {
      hide Sound, Untouched, AllReached, Justified;
      ghost var mid := docs;
      ghost var more;
      r, more := Remove(hard, child, fuel - 1);
      log := log0 + more;
      HistoryJoins(schema, hard, before, mid, docs, key, child, log0, more);
      ChildDone(schema, hard, before, mid, docs, key, child, log0, more, if r.Returned? then {child} else {});
      if r.Raised? {
        JustifiedByChild(schema, before, mid, key, child, fuel, r.error, budget);
      }
    }

    /** The innermost loop: remove each child found for one cascade entry. */
    method RemoveChildren(hard: bool, key: Key, found: seq<Key>, fuel: nat, ghost before: Docs,
                          ghost log0: seq<Key>, ghost past: seq<Key>, ghost kept: seq<Record>)
      returns (r: Outcome, ghost log: seq<Key>)
      requires fuel > 0 && Underway(hard, before, key, log0, past, kept)
      requires forall c :: c in found ==> CascadeChild(schema, before, key, c)
      modifies this
      ensures Underway(hard, before, key, log, past, kept) && Later(old(docs), docs) && Spends(old(budget), budget)
      ensures r.Returned? ==> forall c :: c in found ==> !Live(docs, c)
      ensures r.Raised? ==> Justified(schema, before, key, fuel, r.error, budget)
      decreases fuel, 1
    {
      hide Sound, Untouched, AllReached, Progress, Justified;
      log := log0;
      for j := 0 to |found|
        invariant Underway(hard, before, key, log, past, kept) && Later(old(docs), docs) && Spends(old(budget), budget)
        invariant forall c :: c in found[..j] ==> !Live(docs, c)
      {
        assert found[j] in found;
        r, log := RemoveChild(hard, key, found[j], fuel, before, log, past, kept);
        if r.Raised? {
          return;
        }
      }
      r := Returned(true);
    }

    /** One entry of the cascade configuration; an unknown collection key is passed over. */
    method CascadeEntry(hard: bool, key: Key, i: nat, fuel: nat, ghost before: Docs,
                        ghost log0: seq<Key>, ghost past: seq<Key>, ghost kept: seq<Record>)
      returns (r: Outcome, ghost log: seq<Key>)
      requires fuel > 0 && Underway(hard, before, key, log0, past, kept) && i < |CascadesOf(schema, key.coll)|
      modifies this
      ensures Underway(hard, before, key, log, past, kept) && Later(old(docs), docs) && Spends(old(budget), budget)
      ensures r.Returned? ==> forall c :: !CascadeVia(schema, docs, key, i, c)
      ensures r.Raised? ==> Justified(schema, before, key, fuel, r.error, budget)
      decreases fuel, 2
    {
      log := log0;
      var (collKey, field) := CascadesOf(schema, key.coll)[i];
      if collKey !in schema.registry {
        return Returned(true), log;
      }
      var ok, found := Find(schema.registry[collKey], field, key.id, false);
      if !ok {
        return Raised(DatabaseError), log;
      }
      forall c | c in found
        ensures CascadeChild(schema, before, key, c)
      {
        assert CascadeVia(schema, docs, key, i, c);
        LaterChild(schema, before, docs, key, c);
      }
      r, log := RemoveChildren(hard, key, found, fuel, before, log, past, kept);
      assert forall c :: CascadeVia(schema, docs, key, i, c) ==> c in found;
    }

    /** The cascade loops of one level. */
    method Cascade(hard: bool, key: Key, fuel: nat, ghost past: seq<Key>, ghost kept: seq<Record>)
      returns (r: Outcome, ghost log: seq<Key>)
      requires fuel > 0 && removed == past && history == kept
      modifies this
      ensures Underway(hard, old(docs), key, log, past, kept) && Spends(old(budget), budget)
      ensures r.Returned? ==> forall c :: !CascadeChild(schema, docs, key, c)
      ensures r.Raised? ==> Justified(schema, old(docs), key, fuel, r.error, budget)
      decreases fuel, 3
    {
      ghost var before := docs;
      log := [];
      NothingGone(schema, hard, before, key);
      assert Underway(hard, before, key, log, past, kept);
      hide Underway, Justified, CascadeVia, Later;
      for i := 0 to |CascadesOf(schema, key.coll)|
        invariant Underway(hard, before, key, log, past, kept) && Spends(old(budget), budget)
        invariant forall j: nat, c :: j < i ==> !CascadeVia(schema, docs, key, j, c)
      {
        ghost var mid := docs;
        r, log := CascadeEntry(hard, key, i, fuel, before, log, past, kept);
        if r.Raised? {
          return;
        }
        LaterVia(schema, mid, docs, key, i);
      }
      r := Returned(true);
    }

    /** `delete_one`, recorded with the prior content in a watched collection, or the
        timestamp update. */
    method TakeOut(hard: bool, key: Key, time: int) returns (ghost own: seq<Key>)
      requires key in docs
      modifies `docs, `history, `removed
      ensures own == if hard || Live(old(docs), key) then [key] else []
      ensures docs == if hard then old(docs) - {key}
                      else old(docs)[key := old(docs)[key].(softDeletedAt := Some(time))]
      ensures history == old(history)
        + if hard && key.coll in schema.watched then [Record(key, old(docs)[key])] else []
      ensures removed == old(removed) + own
    {
      own := if hard || Live(docs, key) then [key] else [];
      removed := removed + own;
      if hard {
        if key.coll in schema.watched {
          history := history + [Record(key, docs[key])];
        }
        docs := docs - {key};
      } else {
        docs := docs[key := docs[key].(softDeletedAt := Some(time))];
      }
    }

    /** A level's last step: `delete_one` with its history entry, or the timestamp update. */
    method RemoveItself(hard: bool, key: Key, ghost before: Docs, ghost log0: seq<Key>,
                        ghost past: seq<Key>, ghost kept: seq<Record>)
      returns (r: Outcome, ghost log: seq<Key>)
      requires Underway(hard, before, key, log0, past, kept)
      requires !HasUnknownRestrict(schema, key)
      requires forall q :: !CascadeChild(schema, docs, key, q) && !RestrictedBy(schema, docs, key, q)
      modifies this
      ensures Sound(schema, hard, before, docs, key, log)
      ensures Untouched(before, docs, if r.Returned? then {key} else {})
      ensures !hard ==> docs.Keys == before.Keys
      ensures Spends(old(budget), budget)
      ensures removed == past + log
      ensures history == kept + (if hard then HistoryOf(schema, before, log) else [])
      ensures r.Returned? ==> !Live(docs, key) && (hard ==> key !in docs)
      ensures r.Returned? ==> Answered(hard, before, key, r.removed)
      ensures r.Returned? ==> forall q :: !CascadeChild(schema, docs, key, q) && !RestrictedBy(schema, docs, key, q)
      ensures r.Raised? ==> r.error == DatabaseError && budget == Some(0)
    {
      hide Sound, Untouched, AllReached, Progress;
      log := log0;
      RootGoneAlready(schema, hard, before, docs, key, log);
      OwnHistory(schema, hard, before, docs, key, log);
      var ok := Call();
      if ok && hard {
        ok := Call();
      }
      if !ok {
        return Raised(DatabaseError), log;
      }
      if key !in docs {
        return Returned(false), log;
      }
      ghost var mid := docs;
      var time: int := *; // the current time
      r := Returned(hard || docs[key].softDeletedAt != Some(time));
      ghost var own := TakeOut(hard, key, time);
      log := log + own;
      RemoveOwn(schema, hard, before, mid, docs, key, time, log0);
    }

    /** `delete` (hard) and `soft_delete`. `fuel` is what remains of Python's recursion limit. */
    method Remove(hard: bool, key: Key, fuel: nat) returns (r: Outcome, ghost log: seq<Key>)
      modifies this
      ensures Sound(schema, hard, old(docs), docs, key, log)
      ensures Untouched(old(docs), docs, if r.Returned? then {key} else {})
      ensures !hard ==> docs.Keys == old(docs).Keys
      ensures Spends(old(budget), budget)
      ensures removed == old(removed) + log
      ensures history == old(history) + (if hard then HistoryOf(schema, old(docs), log) else [])
      ensures r.Returned? ==> !Live(docs, key) && (hard ==> key !in docs)
      ensures r.Returned? ==> Answered(hard, old(docs), key, r.removed)
      ensures r.Returned? ==> forall q :: !CascadeChild(schema, docs, key, q) && !RestrictedBy(schema, docs, key, q)
      ensures r.Raised? ==> Justified(schema, old(docs), key, fuel, r.error, budget)
      ensures r.Returned? ==> !HasUnknownRestrict(schema, key)
      ensures HasUnknownRestrict(schema, key) || (exists q :: RestrictedBy(schema, old(docs), key, q)) ==>
        r.Raised? && docs == old(docs)
      decreases fuel, 4
    {
      log := [];
      ghost var before := docs;
      NothingGone(schema, hard, before, key);
      if fuel == 0 {
        assert Path(schema, docs, [key]);
        return Raised(TooDeep), [];
      }
      r := CheckRestricts(key);
      if r.Raised? {
        assert OnTheWay(schema, docs, key, key);
        return;
      }
      r, log := Cascade(hard, key, fuel, removed, history);
      if r.Raised? {
        return;
      }
      // nothing restricts the root: the documents only shrank since its check
      forall q
        ensures !RestrictedBy(schema, docs, key, q)
      {
        if RestrictedBy(schema, docs, key, q) {
          LaterRestricted(schema, before, docs, key, q);
        }
      }
      r, log := RemoveItself(hard, key, before, log, old(removed), old(history));
    }
  }
}
