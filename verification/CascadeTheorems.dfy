/** What the contract of `Remove` means for a caller: exactly which documents go, and
    exactly when the recursion can finish. */
module CascadeTheorems {
  import opened Json
  import opened CascadeGraph
  import opened CascadeDelete

  /** What every successful call leaves behind, as promised by `Database.Remove`. */
  ghost predicate Succeeded(schema: Schema, hard: bool, before: Docs, after: Docs, root: Key, log: seq<Key>) {
    && Sound(schema, hard, before, after, root, log)
    && !Live(after, root) && (hard ==> root !in after)
    && (!hard ==> after.Keys == before.Keys)
    && !HasUnknownRestrict(schema, root)
    && forall q :: !CascadeChild(schema, after, root, q) && !RestrictedBy(schema, after, root, q)
  }

  // ---- the relations in terms of the documents ----

  /** c goes with p: a cascade entry of p's collection names c's collection and a field of
      c that holds p's id, and c is not soft-deleted. */
  lemma CascadeChildIff(schema: Schema, docs: Docs, p: Key, c: Key)
    ensures CascadeChild(schema, docs, p, c) <==>
      && c in docs && docs[c].softDeletedAt.None? && p.coll in schema.cascades
      && exists e :: e in schema.cascades[p.coll] && e.0 in schema.registry && schema.registry[e.0] == c.coll
           && e.1 in docs[c].refs && docs[c].refs[e.1] == p.id
  {
    if CascadeChild(schema, docs, p, c) {
      var i: nat :| i < |CascadesOf(schema, p.coll)| && CascadeVia(schema, docs, p, i, c);
      assert CascadesOf(schema, p.coll)[i] in schema.cascades[p.coll];
    }
    if c in docs && docs[c].softDeletedAt.None? && p.coll in schema.cascades {
      forall e | e in schema.cascades[p.coll] && e.0 in schema.registry && schema.registry[e.0] == c.coll
        && e.1 in docs[c].refs && docs[c].refs[e.1] == p.id
        ensures CascadeChild(schema, docs, p, c)
      {
        var i :| 0 <= i < |schema.cascades[p.coll]| && schema.cascades[p.coll][i] == e;
        assert CascadeVia(schema, docs, p, i, c);
      }
    }
  }

  /** r blocks p: a restrict entry of p's collection names r's collection, whose field
      `<collection>_id` holds p's id in r, and r is approved and not soft-deleted. */
  lemma RestrictedByIff(schema: Schema, docs: Docs, p: Key, r: Key)
    ensures RestrictedBy(schema, docs, p, r) <==>
      && r in docs && docs[r].softDeletedAt.None? && docs[r].approved
      && r.coll + "_id" in docs[r].refs && docs[r].refs[r.coll + "_id"] == p.id
      && p.coll in schema.restricts
      && exists k :: k in schema.restricts[p.coll] && k in schema.registry && schema.registry[k] == r.coll
  {
    if RestrictedBy(schema, docs, p, r) {
      var i: nat :| i < |RestrictsOf(schema, p.coll)| && RestrictVia(schema, docs, p, i, r);
      assert RestrictsOf(schema, p.coll)[i] in schema.restricts[p.coll];
    }
    if && r in docs && docs[r].softDeletedAt.None? && docs[r].approved
       && r.coll + "_id" in docs[r].refs && docs[r].refs[r.coll + "_id"] == p.id
       && p.coll in schema.restricts {
      forall k | k in schema.restricts[p.coll] && k in schema.registry && schema.registry[k] == r.coll
        ensures RestrictedBy(schema, docs, p, r)
      {
        var i :| 0 <= i < |schema.restricts[p.coll]| && schema.restricts[p.coll][i] == k;
        assert RestrictVia(schema, docs, p, i, r);
      }
    }
  }

  lemma HasUnknownRestrictIff(schema: Schema, p: Key)
    ensures HasUnknownRestrict(schema, p) <==>
      p.coll in schema.restricts && exists k :: k in schema.restricts[p.coll] && k !in schema.registry
  {
    if p.coll in schema.restricts {
      forall k | k in schema.restricts[p.coll] && k !in schema.registry
        ensures HasUnknownRestrict(schema, p)
      {
        var i :| 0 <= i < |schema.restricts[p.coll]| && schema.restricts[p.coll][i] == k;
        assert RestrictsOf(schema, p.coll)[i] == k;
      }
    }
  }

  lemma PathSuffix(schema: Schema, docs: Docs, p: seq<Key>, i: nat, j: nat)
    requires Path(schema, docs, p) && i < j <= |p|
    ensures Path(schema, docs, p[i..j])
  {
    var q := p[i..j];
    forall k: nat | k + 1 < |q|
      ensures Edge(schema, docs, q, k)
    {
      assert Edge(schema, docs, p, i + k);
    }
  }

  /** b is reached from a: it is a child of a, or reached from one. */
  lemma ReachesIff(schema: Schema, docs: Docs, a: Key, b: Key)
    ensures Reaches(schema, docs, a, b) <==>
      CascadeChild(schema, docs, a, b) || exists c :: CascadeChild(schema, docs, a, c) && Reaches(schema, docs, c, b)
  {
    if Reaches(schema, docs, a, b) {
      var p :| LeadsTo(schema, docs, p, a, b);
      assert Edge(schema, docs, p, 0);
      if |p| > 2 {
        PathSuffix(schema, docs, p, 1, |p|);
        assert LeadsTo(schema, docs, p[1..|p|], p[1], b);
      }
    }
    if CascadeChild(schema, docs, a, b) {
      ReachesChild(schema, docs, a, b);
    }
    forall c | CascadeChild(schema, docs, a, c) && Reaches(schema, docs, c, b)
      ensures Reaches(schema, docs, a, b)
    {
      ReachesThroughChild(schema, docs, docs, a, c, b);
    }
  }

  /** And nothing else is reached: any set with all children of a and of its members has it. */
  lemma {:induction false} ReachesLeast(schema: Schema, docs: Docs, a: Key, s: set<Key>, p: seq<Key>, i: nat)
    requires forall x, c :: (x == a || x in s) && CascadeChild(schema, docs, x, c) ==> c in s
    requires Path(schema, docs, p) && p[0] == a && 0 < i < |p|
    ensures p[i] in s
  {
    assert Edge(schema, docs, p, i - 1);
    if i > 1 {
      ReachesLeast(schema, docs, a, s, p, i - 1);
    }
  }

  /** What every outcome of a removal leaves: a document that is gone has no live document
      pointing to it through a cascade field and no approved live one through a restrict
      field, no document is otherwise changed, and the log has exactly the gone ones. */
  lemma SoundMeans(schema: Schema, hard: bool, before: Docs, after: Docs, root: Key, log: seq<Key>)
    requires Sound(schema, hard, before, after, root, log)
    ensures forall k :: k in after ==>
      && k in before && after[k].refs == before[k].refs && after[k].approved == before[k].approved
      && (before[k].softDeletedAt.Some? ==> after[k].softDeletedAt.Some?)
      && (hard ==> after[k].softDeletedAt == before[k].softDeletedAt)
    ensures forall k :: k in log <==>
      k in before && (k !in after || (before[k].softDeletedAt.None? && after[k].softDeletedAt.Some?))
    ensures forall i, j :: 0 <= i < j < |log| ==> log[i] != log[j]
    ensures forall p, c, e ::
      && p in log && p.coll in schema.cascades && e in schema.cascades[p.coll] && e.0 in schema.registry
      && c in after && schema.registry[e.0] == c.coll && e.1 in after[c].refs && after[c].refs[e.1] == p.id
      ==> after[c].softDeletedAt.Some?
    ensures forall p, q, k ::
      && p in log && p.coll in schema.restricts && k in schema.restricts[p.coll]
      && q in after && after[q].approved && q.coll + "_id" in after[q].refs && after[q].refs[q.coll + "_id"] == p.id
      ==> k in schema.registry && (schema.registry[k] == q.coll ==> after[q].softDeletedAt.Some?)
  {
    forall p, c, e |
      && p in log && p.coll in schema.cascades && e in schema.cascades[p.coll] && e.0 in schema.registry
      && c in after && schema.registry[e.0] == c.coll && e.1 in after[c].refs && after[c].refs[e.1] == p.id
      ensures after[c].softDeletedAt.Some?
    {
      CascadeChildIff(schema, after, p, c);
    }
    forall p, q, k |
      && p in log && p.coll in schema.restricts && k in schema.restricts[p.coll]
      && q in after && after[q].approved && q.coll + "_id" in after[q].refs && after[q].refs[q.coll + "_id"] == p.id
      ensures k in schema.registry && (schema.registry[k] == q.coll ==> after[q].softDeletedAt.Some?)
    {
      HasUnknownRestrictIff(schema, p);
      RestrictedByIff(schema, after, p, q);
    }
  }

  // ---- what goes ----

  lemma {:induction false} PathIsGone(schema: Schema, hard: bool, before: Docs, after: Docs, root: Key, log: seq<Key>,
                                      p: seq<Key>, i: nat)
    requires Succeeded(schema, hard, before, after, root, log)
    requires Path(schema, before, p) && p[0] == root && 0 < i < |p|
    ensures Gone(before, after, p[i])
  {
    if i > 1 {
      PathIsGone(schema, hard, before, after, root, log, p, i - 1);
    }
    assert Edge(schema, before, p, i - 1);
    var j: nat :| j < |CascadesOf(schema, p[i - 1].coll)| && CascadeVia(schema, before, p[i - 1], j, p[i]);
    assert Live(before, p[i]);
    if Live(after, p[i]) {
      ChildStays(schema, before, after, p[i - 1], p[i]);
    }
  }

  /** Main result on the removed set: a successful call removes exactly the root, if it
      was there (soft: if it was live), and the live documents it reaches through live
      cascade references, diamonds included. */
  lemma RemovedExactly(schema: Schema, hard: bool, before: Docs, after: Docs, root: Key, log: seq<Key>, k: Key)
    requires Succeeded(schema, hard, before, after, root, log)
    ensures Gone(before, after, k) <==>
      (k == root && (if hard then root in before else Live(before, root))) || Reaches(schema, before, root, k)
  {
    if Reaches(schema, before, root, k) {
      var p :| LeadsTo(schema, before, p, root, k);
      PathIsGone(schema, hard, before, after, root, log, p, |p| - 1);
    }
  }

  /** Main result on restriction at depth: a call succeeds only if nothing it has to remove
      has an unknown restrict collection, and every document that restricts one of them is
      itself the root or reached from it. A blocker outside that reach makes it raise. */
  lemma BlockersGoToo(schema: Schema, hard: bool, before: Docs, after: Docs, root: Key, log: seq<Key>, p: Key)
    requires Succeeded(schema, hard, before, after, root, log) && OnTheWay(schema, before, root, p)
    ensures !HasUnknownRestrict(schema, p)
    ensures forall r :: RestrictedBy(schema, before, p, r) ==> OnTheWay(schema, before, root, r)
  {
    RemovedExactly(schema, hard, before, after, root, log, p);
    forall r | RestrictedBy(schema, before, p, r)
      ensures OnTheWay(schema, before, root, r)
    {
      RemovedExactly(schema, hard, before, after, root, log, r);
      if !Gone(before, after, r) {
        var i: nat :| i < |RestrictsOf(schema, p.coll)| && RestrictVia(schema, before, p, i, r);
        assert RestrictVia(schema, after, p, i, r);
        assert RestrictedBy(schema, after, p, r);
      }
    }
  }

  // ---- acyclicity ----

  ghost predicate Acyclic(schema: Schema, docs: Docs, root: Key) {
    forall k :: OnTheWay(schema, docs, root, k) ==> !Reaches(schema, docs, k, k)
  }

  lemma {:induction false} Concat(schema: Schema, docs: Docs, p: seq<Key>, q: seq<Key>)
    requires Path(schema, docs, p) && Path(schema, docs, q) && p[|p| - 1] == q[0]
    ensures Path(schema, docs, p + q[1..])
    decreases |p|
  {
    if |p| == 1 {
      assert p + q[1..] == q;
    } else {
      PathSuffix(schema, docs, p, 1, |p|);
      assert Edge(schema, docs, p, 0);
      assert p[1..|p|] == p[1..];
      Concat(schema, docs, p[1..], q);
      PathCons(schema, docs, p[0], p[1..] + q[1..]);
      assert [p[0]] + (p[1..] + q[1..]) == p + q[1..];
    }
  }

  function IndexOf(log: seq<Key>, k: Key): (i: nat)
    requires k in log
    ensures i < |log| && log[i] == k
  {
    if log[0] == k then 0 else 1 + IndexOf(log[1..], k)
  }

  /** Along a cascade chain of removed documents the log runs backwards. */
  lemma {:induction false} LogRunsBackwards(schema: Schema, before: Docs, log: seq<Key>, p: seq<Key>)
    requires ChildrenFirst(schema, before, log) && Path(schema, before, p) && |p| >= 2
    requires forall k :: k in p ==> k in log
    ensures IndexOf(log, p[|p| - 1]) < IndexOf(log, p[0])
    decreases |p|
  {
    assert Edge(schema, before, p, 0);
    assert p[0] in p && p[1] in p;
    assert CascadeChild(schema, before, log[IndexOf(log, p[0])], log[IndexOf(log, p[1])]);
    if |p| > 2 {
      PathSuffix(schema, before, p, 1, |p|);
      assert p[1..|p|] == p[1..];
      LogRunsBackwards(schema, before, log, p[1..]);
    }
  }

  /** A call can only succeed when no cascade cycle is reachable from the root. */
  lemma SuccessNeedsAcyclic(schema: Schema, hard: bool, before: Docs, after: Docs, root: Key, log: seq<Key>)
    requires Succeeded(schema, hard, before, after, root, log)
    ensures Acyclic(schema, before, root)
  {
    forall k | OnTheWay(schema, before, root, k)
      ensures !Reaches(schema, before, k, k)
    {
      if Reaches(schema, before, k, k) {
        var cycle :| LeadsTo(schema, before, cycle, k, k);
        var lead := [root];
        assert Path(schema, before, [root]);
        if k != root {
          lead :| LeadsTo(schema, before, lead, root, k);
        }
        Concat(schema, before, lead, cycle);
        var all := lead + cycle[1..];
        forall x | x in cycle
          ensures x in log
        {
          var i :| 0 <= i < |cycle| && cycle[i] == x;
          var at := if i == 0 then |all| - 1 else |lead| + i - 1;
          assert all[at] == x;
          PathIsGone(schema, hard, before, after, root, log, all, at);
        }
        LogRunsBackwards(schema, before, log, cycle);
      }
    }
  }

  // ---- termination ----

  lemma {:induction false} DistinctFits(p: seq<Key>, s: set<Key>)
    requires forall k :: k in p ==> k in s
    requires forall i, j :: 0 <= i < j < |p| ==> p[i] != p[j]
    ensures |p| <= |s|
  {
    if p != [] {
      var m := |p| - 1;
      forall k | k in p[..m]
        ensures k in s - {p[m]}
      {
      }
      assert p[m] in s;
      DistinctFits(p[..m], s - {p[m]});
    }
  }

  lemma RepeatIsCycle(schema: Schema, docs: Docs, p: seq<Key>, i: nat, j: nat)
    requires Path(schema, docs, p) && i < j < |p| && p[i] == p[j]
    ensures OnTheWay(schema, docs, p[0], p[i]) && Reaches(schema, docs, p[i], p[i])
  {
    PathSuffix(schema, docs, p, i, j + 1);
    assert LeadsTo(schema, docs, p[i..j + 1], p[i], p[i]);
    if i > 0 {
      PathSuffix(schema, docs, p, 0, i + 1);
      assert LeadsTo(schema, docs, p[0..i + 1], p[0], p[i]);
    }
  }

  /** Without a cycle, a cascade chain is no longer than the number of documents plus the root. */
  lemma ChainsAreShort(schema: Schema, docs: Docs, root: Key, p: seq<Key>)
    requires Acyclic(schema, docs, root) && Path(schema, docs, p) && p[0] == root
    ensures |p| <= |docs| + 1
  {
    forall i, j | 0 <= i < j < |p|
      ensures p[i] != p[j]
    {
      if p[i] == p[j] {
        RepeatIsCycle(schema, docs, p, i, j);
      }
    }
    forall k | k in p[1..]
      ensures k in docs.Keys
    {
      var i :| 1 <= i < |p| && p[i] == k;
      assert Edge(schema, docs, p, i - 1);
      var j: nat :| j < |CascadesOf(schema, p[i - 1].coll)| && CascadeVia(schema, docs, p[i - 1], j, p[i]);
    }
    DistinctFits(p[1..], docs.Keys);
  }

  ghost predicate Blocked(schema: Schema, docs: Docs, root: Key) {
    exists p :: OnTheWay(schema, docs, root, p)
      && (HasUnknownRestrict(schema, p) || exists r :: RestrictedBy(schema, docs, p, r))
  }

  /** Main result on termination: with a recursion limit above the number of documents,
      nothing blocking and a connection that is never lost, the call returns exactly when no
      cascade cycle is reachable from the root, and then answers whether the document was
      there. In general each exception has its own reason, and a cycle never returns. */
  method RemoveReturnsIffAcyclic(db: Database, hard: bool, key: Key, fuel: nat) returns (r: Outcome)
    modifies db
    ensures fuel > |old(db.docs)| && !Blocked(db.schema, old(db.docs), key) && old(db.budget).None? ==>
      (r.Returned? <==> Acyclic(db.schema, old(db.docs), key))
    ensures r.Returned? ==> Acyclic(db.schema, old(db.docs), key)
    ensures r.Raised? ==>
      match r.error
      case TooDeep => fuel <= |old(db.docs)| || !Acyclic(db.schema, old(db.docs), key)
      case DatabaseError => db.budget == Some(0)
      case InUse => exists p, q :: OnTheWay(db.schema, old(db.docs), key, p) && RestrictedBy(db.schema, old(db.docs), p, q)
      case UnknownKey => exists p :: OnTheWay(db.schema, old(db.docs), key, p) && HasUnknownRestrict(db.schema, p)
    ensures r.Returned? ==> forall p :: OnTheWay(db.schema, old(db.docs), key, p) ==>
      && !HasUnknownRestrict(db.schema, p)
      && forall q :: RestrictedBy(db.schema, old(db.docs), p, q) ==> OnTheWay(db.schema, old(db.docs), key, q)
    ensures Spends(old(db.budget), db.budget)
    ensures r.Returned? && hard ==> (r.removed <==> key in old(db.docs))
    ensures r.Returned? ==> forall k :: Gone(old(db.docs), db.docs, k) <==>
      (k == key && (if hard then key in old(db.docs) else Live(old(db.docs), key)))
      || Reaches(db.schema, old(db.docs), key, k)
  {
    ghost var before := db.docs;
    ghost var log;
    r, log := db.Remove(hard, key, fuel);
    if r.Returned? {
      SuccessNeedsAcyclic(db.schema, hard, before, db.docs, key, log);
      forall k
        ensures Gone(before, db.docs, k) <==>
          (k == key && (if hard then key in before else Live(before, key))) || Reaches(db.schema, before, key, k)
      {
        RemovedExactly(db.schema, hard, before, db.docs, key, log, k);
      }
      forall p | OnTheWay(db.schema, before, key, p)
        ensures !HasUnknownRestrict(db.schema, p)
        ensures forall q :: RestrictedBy(db.schema, before, p, q) ==> OnTheWay(db.schema, before, key, q)
      {
        BlockersGoToo(db.schema, hard, before, db.docs, key, log, p);
      }
      assert OnTheWay(db.schema, before, key, key);
    } else {
      if r.error == TooDeep && Acyclic(db.schema, before, key) {
        var p :| Path(db.schema, before, p) && p[0] == key && |p| == fuel + 1;
        ChainsAreShort(db.schema, before, key, p);
      }
    }
  }
}
