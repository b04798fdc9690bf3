/** The document graph that `delete` and `soft_delete` walk: which documents block a
    removal, which ones it cascades to, and what a removal leaves behind. */
module CascadeGraph {
  import opened Json

  datatype Key = Key(coll: string, id: string)

  /** A document: the object ids it refers to by field, its approval status, and the
      time of its soft deletion. */
  datatype Doc = Doc(refs: map<string, string>, approved: bool, softDeletedAt: Option<int>)

  type Docs = map<Key, Doc>

  /** `registry` maps collection keys to collection names; `restricts` and `cascades`
      list, per collection, what its model fields configure, in field order. */
  datatype Schema = Schema(
    registry: map<string, string>,
    restricts: map<string, seq<string>>,
    cascades: map<string, seq<(string, string)>>,
    watched: set<string>)

  function RestrictsOf(schema: Schema, coll: string): seq<string> {
    if coll in schema.restricts then schema.restricts[coll] else []
  }

  function CascadesOf(schema: Schema, coll: string): seq<(string, string)> {
    if coll in schema.cascades then schema.cascades[coll] else []
  }

  predicate Live(docs: Docs, k: Key) {
    k in docs && docs[k].softDeletedAt.None?
  }

  /** k is a live document of `coll` whose `field` holds `id`. */
  predicate Points(docs: Docs, k: Key, coll: string, field: string, id: string) {
    Live(docs, k) && k.coll == coll && field in docs[k].refs && docs[k].refs[field] == id
  }

  predicate CascadeVia(schema: Schema, docs: Docs, p: Key, i: nat, c: Key)
    requires i < |CascadesOf(schema, p.coll)|
  {
    var (key, field) := CascadesOf(schema, p.coll)[i];
    key in schema.registry && Points(docs, c, schema.registry[key], field, p.id)
  }

  /** c is removed along with p. */
  ghost predicate CascadeChild(schema: Schema, docs: Docs, p: Key, c: Key) {
    exists i: nat :: i < |CascadesOf(schema, p.coll)| && CascadeVia(schema, docs, p, i, c)
  }

  /** The i-th restrict entry of p's collection is hit by r. The restrict query reads
      the view, which shows approved live documents only, and looks in the field named
      after the referring collection. */
  predicate RestrictVia(schema: Schema, docs: Docs, p: Key, i: nat, r: Key)
    requires i < |RestrictsOf(schema, p.coll)|
  {
    var key := RestrictsOf(schema, p.coll)[i];
    key in schema.registry
    && Points(docs, r, schema.registry[key], schema.registry[key] + "_id", p.id) && docs[r].approved
  }

  ghost predicate RestrictedBy(schema: Schema, docs: Docs, p: Key, r: Key) {
    exists i: nat :: i < |RestrictsOf(schema, p.coll)| && RestrictVia(schema, docs, p, i, r)
  }

  /** A restrict entry of p's collection names a collection key that does not exist. */
  ghost predicate HasUnknownRestrict(schema: Schema, p: Key) {
    exists i :: 0 <= i < |RestrictsOf(schema, p.coll)| && RestrictsOf(schema, p.coll)[i] !in schema.registry
  }

  // ---- chains of cascades ----

  ghost predicate Edge(schema: Schema, docs: Docs, p: seq<Key>, i: nat)
    requires i + 1 < |p|
  {
    CascadeChild(schema, docs, p[i], p[i + 1])
  }

  ghost predicate Path(schema: Schema, docs: Docs, p: seq<Key>) {
    |p| > 0 && forall i: nat {:trigger Edge(schema, docs, p, i)} :: i + 1 < |p| ==> Edge(schema, docs, p, i)
  }

  ghost predicate LeadsTo(schema: Schema, docs: Docs, p: seq<Key>, a: Key, b: Key) {
    Path(schema, docs, p) && |p| >= 2 && p[0] == a && p[|p| - 1] == b
  }

  ghost predicate Reaches(schema: Schema, docs: Docs, a: Key, b: Key) {
    exists p :: LeadsTo(schema, docs, p, a, b)
  }

  // ---- what a removal does to the documents ----

  /** Removed for good, or from live to soft-deleted. */
  predicate Gone(before: Docs, after: Docs, k: Key) {
    k in before && (k !in after || (Live(before, k) && !Live(after, k)))
  }

  /** Documents only disappear or become soft-deleted; nothing else changes. */
  ghost predicate Later(before: Docs, after: Docs) {
    && after.Keys <= before.Keys
    && forall k :: k in after ==>
         && after[k].refs == before[k].refs && after[k].approved == before[k].approved
         && (Live(after, k) ==> Live(before, k))
  }

  /** Documents that are not gone are untouched, except possibly those in `exempt`. */
  ghost predicate Untouched(before: Docs, after: Docs, exempt: set<Key>) {
    forall k :: k in before && !Gone(before, after, k) && k !in exempt ==> k in after && after[k] == before[k]
  }

  /** No live document still points through a cascade field to a removed one. */
  ghost predicate Closed(schema: Schema, before: Docs, after: Docs) {
    forall p, c :: Gone(before, after, p) ==> !CascadeChild(schema, after, p, c)
  }

  /** No approved live document of a restrict collection refers to a removed one, and the
      removed ones had no unknown restrict collection. */
  ghost predicate Unblocked(schema: Schema, before: Docs, after: Docs) {
    && (forall p, r :: Gone(before, after, p) ==> !RestrictedBy(schema, after, p, r))
    && forall p :: Gone(before, after, p) ==> !HasUnknownRestrict(schema, p)
  }

  /** Only the root and what it reaches is removed. */
  ghost predicate OnlyReached(schema: Schema, before: Docs, after: Docs, root: Key) {
    forall k :: Gone(before, after, k) ==> k == root || Reaches(schema, before, root, k)
  }

  /** Everything removed is reached from the root by at least one cascade. */
  ghost predicate AllReached(schema: Schema, before: Docs, after: Docs, root: Key) {
    forall k :: Gone(before, after, k) ==> Reaches(schema, before, root, k)
  }

  /** `log` lists the removed documents, each once. */
  ghost predicate Logs(before: Docs, after: Docs, log: seq<Key>) {
    && (forall i, j :: 0 <= i < j < |log| ==> log[i] != log[j])
    && (forall k :: k in log <==> Gone(before, after, k))
  }

  /** Every document is removed after all its cascade children. */
  ghost predicate ChildrenFirst(schema: Schema, before: Docs, log: seq<Key>) {
    forall i, j :: 0 <= i <= j < |log| ==> !CascadeChild(schema, before, log[i], log[j])
  }

  ghost predicate Sound(schema: Schema, hard: bool, before: Docs, after: Docs, root: Key, log: seq<Key>) {
    && Later(before, after)
    && (hard ==> forall k :: k in after ==> after[k] == before[k])
    && Closed(schema, before, after)
    && Unblocked(schema, before, after)
    && OnlyReached(schema, before, after, root)
    && Logs(before, after, log)
    && ChildrenFirst(schema, before, log)
  }

  // ---- monotonicity ----

  lemma LaterChild(schema: Schema, before: Docs, after: Docs, p: Key, c: Key)
    requires Later(before, after) && CascadeChild(schema, after, p, c)
    ensures CascadeChild(schema, before, p, c)
  {
    var i: nat :| i < |CascadesOf(schema, p.coll)| && CascadeVia(schema, after, p, i, c);
    assert CascadeVia(schema, before, p, i, c);
  }

  lemma ChildStays(schema: Schema, before: Docs, after: Docs, p: Key, c: Key)
    requires Later(before, after) && CascadeChild(schema, before, p, c) && Live(after, c)
    ensures CascadeChild(schema, after, p, c)
  {
    var i: nat :| i < |CascadesOf(schema, p.coll)| && CascadeVia(schema, before, p, i, c);
    assert CascadeVia(schema, after, p, i, c);
  }

  lemma LaterRestricted(schema: Schema, before: Docs, after: Docs, p: Key, r: Key)
    requires Later(before, after) && RestrictedBy(schema, after, p, r)
    ensures RestrictedBy(schema, before, p, r)
  {
    var i: nat :| i < |RestrictsOf(schema, p.coll)| && RestrictVia(schema, after, p, i, r);
    assert RestrictVia(schema, before, p, i, r);
  }

  lemma LaterPath(schema: Schema, before: Docs, after: Docs, p: seq<Key>)
    requires Later(before, after) && Path(schema, after, p)
    ensures Path(schema, before, p)
  {
    forall i: nat | i + 1 < |p|
      ensures Edge(schema, before, p, i)
    {
      assert Edge(schema, after, p, i);
      LaterChild(schema, before, after, p[i], p[i + 1]);
    }
  }

  lemma PathCons(schema: Schema, docs: Docs, a: Key, p: seq<Key>)
    requires Path(schema, docs, p) && CascadeChild(schema, docs, a, p[0])
    ensures Path(schema, docs, [a] + p)
  {
    var q := [a] + p;
    forall i: nat | i + 1 < |q|
      ensures Edge(schema, docs, q, i)
    {
      if i > 0 {
        assert Edge(schema, docs, p, i - 1);
      }
    }
  }

  lemma ReachesChild(schema: Schema, docs: Docs, a: Key, c: Key)
    requires CascadeChild(schema, docs, a, c)
    ensures Reaches(schema, docs, a, c)
  {
    assert Edge(schema, docs, [a, c], 0);
    assert LeadsTo(schema, docs, [a, c], a, c);
  }

  /** What a child reaches later, its parent reached before. */
  lemma ReachesThroughChild(schema: Schema, before: Docs, after: Docs, a: Key, c: Key, b: Key)
    requires Later(before, after) && CascadeChild(schema, before, a, c)
    requires b == c || Reaches(schema, after, c, b)
    ensures Reaches(schema, before, a, b)
  {
    if b == c {
      ReachesChild(schema, before, a, c);
    } else {
      var p :| LeadsTo(schema, after, p, c, b);
      LaterPath(schema, before, after, p);
      PathCons(schema, before, a, p);
      assert LeadsTo(schema, before, [a] + p, a, b);
    }
  }

  // ---- composition ----

  lemma GoneSplits(before: Docs, mid: Docs, after: Docs, k: Key)
    requires Later(before, mid) && Later(mid, after)
    ensures Later(before, after)
    ensures Gone(before, after, k) <==> Gone(before, mid, k) || Gone(mid, after, k)
  {
  }

  lemma NothingGone(schema: Schema, hard: bool, docs: Docs, root: Key)
    ensures Sound(schema, hard, docs, docs, root, []) && Untouched(docs, docs, {})
  {
  }

  lemma ComposeClosed(schema: Schema, before: Docs, mid: Docs, after: Docs)
    requires Later(before, mid) && Later(mid, after)
    requires Closed(schema, before, mid) && Closed(schema, mid, after)
    requires Unblocked(schema, before, mid) && Unblocked(schema, mid, after)
    ensures Closed(schema, before, after) && Unblocked(schema, before, after)
  {
    forall p, c | Gone(before, after, p)
      ensures !CascadeChild(schema, after, p, c) && !RestrictedBy(schema, after, p, c) && !HasUnknownRestrict(schema, p)
    {
      GoneSplits(before, mid, after, p);
      if CascadeChild(schema, after, p, c) {
        LaterChild(schema, mid, after, p, c);
      }
      if RestrictedBy(schema, after, p, c) {
        LaterRestricted(schema, mid, after, p, c);
      }
    }
  }

  lemma ComposeLogs(before: Docs, mid: Docs, after: Docs, log: seq<Key>, more: seq<Key>)
    requires Later(before, mid) && Later(mid, after)
    requires Logs(before, mid, log) && Logs(mid, after, more)
    requires forall k :: Gone(before, mid, k) && k in mid ==> k in after
    ensures Logs(before, after, log + more)
  {
    forall k
      ensures k in log + more <==> Gone(before, after, k)
    {
      GoneSplits(before, mid, after, k);
    }
    forall i, j | 0 <= i < |log| && 0 <= j < |more|
      ensures log[i] != more[j]
    {
      assert log[i] in log && more[j] in more;
    }
  }

  lemma ComposeOrder(schema: Schema, before: Docs, mid: Docs, after: Docs, log: seq<Key>, more: seq<Key>)
    requires Later(before, mid) && Closed(schema, before, mid)
    requires Logs(before, mid, log) && Logs(mid, after, more)
    requires ChildrenFirst(schema, before, log) && ChildrenFirst(schema, mid, more)
    requires forall k :: k in more && Live(before, k) ==> Live(mid, k)
    ensures ChildrenFirst(schema, before, log + more)
  {
    var all := log + more;
    forall i, j | 0 <= i <= j < |all|
      ensures !CascadeChild(schema, before, all[i], all[j])
    {
      if j >= |log| {
        assert all[j] == more[j - |log|] && all[j] in more;
        assert i < |log| ==> all[i] in log;
        assert i >= |log| ==> all[i] == more[i - |log|];
        if CascadeChild(schema, before, all[i], all[j]) {
          ChildStays(schema, before, mid, all[i], all[j]);
        }
      }
    }
  }

  /** The removal of a child, run in the middle of its parent's removal. */
  lemma Compose(schema: Schema, hard: bool, before: Docs, mid: Docs, after: Docs, root: Key, child: Key,
                log: seq<Key>, more: seq<Key>)
    requires Sound(schema, hard, before, mid, root, log) && Sound(schema, hard, mid, after, child, more)
    requires CascadeChild(schema, before, root, child)
    requires !hard ==> before.Keys == mid.Keys == after.Keys
    ensures Sound(schema, hard, before, after, root, log + more)
  {
    ComposeClosed(schema, before, mid, after);
    ComposeLogs(before, mid, after, log, more);
    ComposeOrder(schema, before, mid, after, log, more);
    forall k | Gone(before, after, k)
      ensures k == root || Reaches(schema, before, root, k)
    {
      GoneSplits(before, mid, after, k);
      if Gone(mid, after, k) {
        ReachesThroughChild(schema, before, mid, root, child, k);
      }
    }
  }

  lemma ComposeReached(schema: Schema, before: Docs, mid: Docs, after: Docs, root: Key, child: Key)
    requires Later(before, mid) && Later(mid, after)
    requires AllReached(schema, before, mid, root) && OnlyReached(schema, mid, after, child)
    requires CascadeChild(schema, before, root, child)
    ensures AllReached(schema, before, after, root)
  {
    forall k | Gone(before, after, k)
      ensures Reaches(schema, before, root, k)
    {
      GoneSplits(before, mid, after, k);
      if Gone(mid, after, k) {
        ReachesThroughChild(schema, before, mid, root, child, k);
      }
    }
  }

  lemma ComposeUntouched(before: Docs, mid: Docs, after: Docs, exempt: set<Key>)
    requires Later(before, mid) && Later(mid, after)
    requires Untouched(before, mid, {}) && Untouched(mid, after, exempt)
    requires forall k :: k in exempt ==> Gone(before, after, k)
    ensures Untouched(before, after, {})
  {
    forall k | k in before && !Gone(before, after, k)
      ensures k in after && after[k] == before[k]
    {
      GoneSplits(before, mid, after, k);
    }
  }

  /** The one document that a level removes itself, seen alone. */
  lemma OwnStep(schema: Schema, hard: bool, mid: Docs, after: Docs, root: Key, time: int)
    requires root in mid
    requires forall c :: !CascadeChild(schema, mid, root, c) && !RestrictedBy(schema, mid, root, c)
    requires !HasUnknownRestrict(schema, root)
    requires after == if hard then mid - {root} else mid[root := mid[root].(softDeletedAt := Some(time))]
    ensures Later(mid, after) && !Live(after, root)
    ensures Logs(mid, after, if hard || Live(mid, root) then [root] else [])
    ensures forall k :: k in mid && k != root ==> k in after && after[k] == mid[k]
    ensures forall q :: !CascadeChild(schema, after, root, q) && !RestrictedBy(schema, after, root, q)
    ensures Closed(schema, mid, after) && Unblocked(schema, mid, after)
    ensures ChildrenFirst(schema, mid, if hard || Live(mid, root) then [root] else [])
  {
    var own := if hard || Live(mid, root) then [root] else [];
    assert forall k :: Gone(mid, after, k) <==> k in own;
    forall q
      ensures !CascadeChild(schema, after, root, q) && !RestrictedBy(schema, after, root, q)
    {
      if CascadeChild(schema, after, root, q) {
        LaterChild(schema, mid, after, root, q);
      }
      if RestrictedBy(schema, after, root, q) {
        LaterRestricted(schema, mid, after, root, q);
      }
    }
    assert forall p :: Gone(mid, after, p) ==> p == root;
  }

  /** Nothing but the root goes with its own removal. */
  lemma OwnIsRest(schema: Schema, before: Docs, mid: Docs, after: Docs, root: Key)
    requires Later(before, mid) && Later(mid, after)
    requires OnlyReached(schema, before, mid, root) && Untouched(before, mid, {})
    requires forall k :: k in mid && k != root ==> k in after && after[k] == mid[k]
    ensures OnlyReached(schema, before, after, root) && Untouched(before, after, {root})
  {
    hide Reaches;
    forall k
      ensures Gone(before, after, k) ==> k == root || Reaches(schema, before, root, k)
      ensures k in before && !Gone(before, after, k) && k != root ==> k in after && after[k] == before[k]
    {
      GoneSplits(before, mid, after, k);
    }
  }

  /** A level's own removal, once its checks passed and its children are gone. */
  lemma RemoveOwn(schema: Schema, hard: bool, before: Docs, mid: Docs, after: Docs, root: Key, time: int, log: seq<Key>)
    requires Sound(schema, hard, before, mid, root, log) && Untouched(before, mid, {}) && root in mid
    requires !hard ==> before.Keys == mid.Keys
    requires forall c :: !CascadeChild(schema, mid, root, c) && !RestrictedBy(schema, mid, root, c)
    requires !HasUnknownRestrict(schema, root)
    requires after == if hard then mid - {root} else mid[root := mid[root].(softDeletedAt := Some(time))]
    ensures Later(mid, after)
    ensures Sound(schema, hard, before, after, root, log + (if hard || Live(mid, root) then [root] else []))
    ensures Untouched(before, after, {root}) && !Live(after, root)
    ensures forall q :: !CascadeChild(schema, after, root, q) && !RestrictedBy(schema, after, root, q)
  {
    var own := if hard || Live(mid, root) then [root] else [];
    OwnStep(schema, hard, mid, after, root, time);
    ComposeClosed(schema, before, mid, after);
    ComposeLogs(before, mid, after, log, own);
    ComposeOrder(schema, before, mid, after, log, own);
    OwnIsRest(schema, before, mid, after, root);
  }

  /** How far the removal of `root`, begun at `before`, has come: `log` went, all of it
      reached from the root, and nothing else changed. */
  ghost predicate Progress(schema: Schema, hard: bool, before: Docs, now: Docs, root: Key, log: seq<Key>) {
    && Sound(schema, hard, before, now, root, log) && Untouched(before, now, {})
    && AllReached(schema, before, now, root)
    && (!hard ==> now.Keys == before.Keys)
  }

  /** A document that is absent or no longer live at the end, but was there (live) at
      the start, went with the removals that its own cascade reached. */
  lemma RootGoneAlready(schema: Schema, hard: bool, before: Docs, mid: Docs, root: Key, log: seq<Key>)
    requires Progress(schema, hard, before, mid, root, log)
    ensures root in before && root !in mid ==> Reaches(schema, before, root, root)
    ensures Live(before, root) && !Live(mid, root) ==> Reaches(schema, before, root, root)
    ensures root in mid ==> root in before
    ensures Sound(schema, hard, before, mid, root, log) && Untouched(before, mid, {}) && Untouched(before, mid, {root})
    ensures !hard ==> mid.Keys == before.Keys
  {
    assert root in before && root !in mid ==> Gone(before, mid, root);
    assert Live(before, root) && !Live(mid, root) ==> Gone(before, mid, root);
  }

  // ---- the loops of one level ----

  lemma ChildDone(schema: Schema, hard: bool, before: Docs, mid: Docs, after: Docs, root: Key, child: Key,
                  log: seq<Key>, more: seq<Key>, exempt: set<Key>)
    requires Progress(schema, hard, before, mid, root, log) && CascadeChild(schema, before, root, child)
    requires Sound(schema, hard, mid, after, child, more) && Untouched(mid, after, exempt)
    requires !hard ==> after.Keys == mid.Keys
    requires forall k :: k in exempt ==> k == child && !Live(after, child)
    ensures Later(before, mid) && Later(mid, after)
    ensures Progress(schema, hard, before, after, root, log + more)
  {
    Compose(schema, hard, before, mid, after, root, child, log, more);
    ComposeReached(schema, before, mid, after, root, child);
    assert Live(before, child) by {
      var i: nat :| i < |CascadesOf(schema, root.coll)| && CascadeVia(schema, before, root, i, child);
    }
    ComposeUntouched(before, mid, after, exempt);
  }

  lemma LaterVia(schema: Schema, before: Docs, after: Docs, p: Key, n: nat)
    requires Later(before, after) && n <= |CascadesOf(schema, p.coll)|
    requires forall j: nat, c :: j < n ==> !CascadeVia(schema, before, p, j, c)
    ensures forall j: nat, c :: j < n ==> !CascadeVia(schema, after, p, j, c)
  {
    forall j: nat, c | j < n
      ensures !CascadeVia(schema, after, p, j, c)
    {
      assert CascadeVia(schema, after, p, j, c) ==> CascadeVia(schema, before, p, j, c);
    }
  }
}
