/** The guarded updates that generated migrations consist of, and what running them
    forwards and backwards does to the documents. */
module MigrationUpdates {
  import opened Json

  type Doc = map<string, Json>

  /** The database: the documents of each existing collection, in natural order. */
  type Collections = map<string, seq<Doc>>

  /** `update_many({field: {$exists: False}}, {$set: {field: value}})`, guarded by the
      collection's existence; undone by `$unset` where the field exists. */
  datatype AddField = AddField(coll: string, field: string, value: Json)

  function SetMissing(doc: Doc, u: AddField): Doc {
    if u.field in doc then doc else doc[u.field := u.value]
  }

  function Unset(doc: Doc, u: AddField): Doc {
    doc - {u.field}
  }

  function SetAll(docs: seq<Doc>, u: AddField): (r: seq<Doc>)
    ensures |r| == |docs| && forall i :: 0 <= i < |docs| ==> r[i] == SetMissing(docs[i], u)
  {
    seq(|docs|, i requires 0 <= i < |docs| => SetMissing(docs[i], u))
  }

  function UnsetAll(docs: seq<Doc>, u: AddField): (r: seq<Doc>)
    ensures |r| == |docs| && forall i :: 0 <= i < |docs| ==> r[i] == Unset(docs[i], u)
  {
    seq(|docs|, i requires 0 <= i < |docs| => Unset(docs[i], u))
  }

  function UpOne(u: AddField, db: Collections): Collections {
    if u.coll in db then db[u.coll := SetAll(db[u.coll], u)] else db
  }

  function DownOne(u: AddField, db: Collections): Collections {
    if u.coll in db then db[u.coll := UnsetAll(db[u.coll], u)] else db
  }

  /** `migrate_up`. */
  function Up(us: seq<AddField>, db: Collections): Collections {
    if us == [] then db else Up(us[1..], UpOne(us[0], db))
  }

  /** `migrate_down`: the unsets run in the same order. */
  function Down(us: seq<AddField>, db: Collections): Collections {
    if us == [] then db else Down(us[1..], DownOne(us[0], db))
  }

  lemma {:induction false} UpConcat(us: seq<AddField>, vs: seq<AddField>, db: Collections)
    ensures Up(us + vs, db) == Up(vs, Up(us, db))
  {
    if us == [] {
      assert us + vs == vs;
    } else {
      assert (us + vs)[1..] == us[1..] + vs;
      UpConcat(us[1..], vs, UpOne(us[0], db));
    }
  }

  // ---- updates that have already been made ----

  /** Every document the update could touch has the field. */
  ghost predicate Settled(u: AddField, db: Collections) {
    u.coll in db ==> forall i :: 0 <= i < |db[u.coll]| ==> u.field in db[u.coll][i]
  }

  ghost predicate AllSettled(us: seq<AddField>, db: Collections) {
    forall k {:trigger us[k]} :: 0 <= k < |us| ==> Settled(us[k], db)
  }

  lemma SettledUp(u: AddField, db: Collections)
    requires Settled(u, db)
    ensures UpOne(u, db) == db
  {
    if u.coll in db {
      assert SetAll(db[u.coll], u) == db[u.coll];
    }
  }

  lemma {:induction false} AllSettledUp(us: seq<AddField>, db: Collections)
    requires AllSettled(us, db)
    ensures Up(us, db) == db
  {
    if us != [] {
      SettledUp(us[0], db);
      AllSettledUp(us[1..], db);
    }
  }

  /** db' is db with some documents further filled in. */
  ghost predicate Grown(db: Collections, db': Collections) {
    && db'.Keys == db.Keys
    && forall c {:trigger db'[c]} :: c in db ==>
         |db'[c]| == |db[c]| && forall i, f :: 0 <= i < |db[c]| && f in db[c][i] ==> f in db'[c][i]
  }

  lemma SettledGrown(us: seq<AddField>, db: Collections, db': Collections)
    requires AllSettled(us, db) && Grown(db, db')
    ensures AllSettled(us, db')
  {
    forall k | 0 <= k < |us|
      ensures Settled(us[k], db')
    {
      assert Settled(us[k], db);
      assert us[k].coll in db' ==> |db'[us[k].coll]| == |db[us[k].coll]|;
    }
  }

  lemma UpOneSettles(u: AddField, db: Collections)
    ensures Settled(u, UpOne(u, db)) && Grown(db, UpOne(u, db))
  {
  }

  // ---- how many documents an update writes ----

  function Lacking(docs: seq<Doc>, field: string): (n: nat)
    ensures n == 0 <==> forall i :: 0 <= i < |docs| ==> field in docs[i]
  {
    if docs == [] then 0
    else (if field in docs[0] then 0 else 1) + Lacking(docs[1..], field)
  }

  function WorkOne(u: AddField, db: Collections): nat {
    if u.coll in db then Lacking(db[u.coll], u.field) else 0
  }

  /** The document writes of a `migrate_up`. */
  function Work(us: seq<AddField>, db: Collections): nat {
    if us == [] then 0 else WorkOne(us[0], db) + Work(us[1..], UpOne(us[0], db))
  }

  lemma LackingSome(docs: seq<Doc>, i: nat, field: string)
    requires i < |docs| && field !in docs[i]
    ensures Lacking(docs, field) > 0
  {
  }

  /** Filling in one document is one write less. */
  lemma {:induction false} LackingOneLess(docs: seq<Doc>, i: nat, doc: Doc, field: string)
    requires i < |docs| && field !in docs[i] && field in doc
    ensures Lacking(docs[i := doc], field) == Lacking(docs, field) - 1
  {
    if i == 0 {
      assert docs[0 := doc][1..] == docs[1..];
    } else {
      assert docs[i := doc][1..] == docs[1..][i - 1 := doc];
      LackingOneLess(docs[1..], i - 1, doc, field);
    }
  }

  // ---- an update in progress, document by document ----

  ghost predicate Filled(before: seq<Doc>, docs: seq<Doc>, u: AddField, i: nat) {
    && i <= |before| == |docs|
    && (forall j :: 0 <= j < i ==> docs[j] == SetMissing(before[j], u))
    && forall j :: i <= j < |docs| ==> docs[j] == before[j]
  }

  lemma FillNext(before: seq<Doc>, docs: seq<Doc>, u: AddField, i: nat)
    requires Filled(before, docs, u, i) && i < |docs|
    ensures u.field in docs[i] ==> Filled(before, docs, u, i + 1)
    ensures u.field !in docs[i] ==> var next := docs[i := docs[i][u.field := u.value]];
      Filled(before, next, u, i + 1) && Lacking(next, u.field) == Lacking(docs, u.field) - 1
  {
    if u.field !in docs[i] {
      LackingOneLess(docs, i, docs[i][u.field := u.value], u.field);
    }
  }

  /** Wherever an update has got to, finishing it leads to the same documents. */
  lemma FilledSoFar(before: seq<Doc>, docs: seq<Doc>, u: AddField, i: nat)
    requires Filled(before, docs, u, i)
    ensures SetAll(docs, u) == SetAll(before, u)
    ensures i == |docs| ==> docs == SetAll(before, u) && Lacking(docs, u.field) == 0
    ensures forall j, f :: 0 <= j < |docs| && f in before[j] ==> f in docs[j]
  {
  }

  lemma FilledColl(u: AddField, db: Collections, docs: seq<Doc>, i: nat)
    requires u.coll in db && Filled(db[u.coll], docs, u, i)
    ensures var now := db[u.coll := docs];
      && UpOne(u, now) == UpOne(u, db) && Grown(db, now) && WorkOne(u, now) == Lacking(docs, u.field)
      && (i == |docs| ==> now == UpOne(u, db) && Lacking(docs, u.field) == 0)
  {
    FilledSoFar(db[u.coll], docs, u, i);
  }

  ghost predicate Emptied(before: seq<Doc>, docs: seq<Doc>, u: AddField, i: nat) {
    && i <= |before| == |docs|
    && (forall j :: 0 <= j < i ==> docs[j] == Unset(before[j], u))
    && forall j :: i <= j < |docs| ==> docs[j] == before[j]
  }

  function Holding(docs: seq<Doc>, field: string): (n: nat)
    ensures n == 0 <==> forall i :: 0 <= i < |docs| ==> field !in docs[i]
  {
    if docs == [] then 0
    else (if field in docs[0] then 1 else 0) + Holding(docs[1..], field)
  }

  lemma {:induction false} HoldingOneLess(docs: seq<Doc>, i: nat, doc: Doc, field: string)
    requires i < |docs| && field in docs[i] && field !in doc
    ensures Holding(docs[i := doc], field) == Holding(docs, field) - 1
  {
    if i == 0 {
      assert docs[0 := doc][1..] == docs[1..];
    } else {
      assert docs[i := doc][1..] == docs[1..][i - 1 := doc];
      HoldingOneLess(docs[1..], i - 1, doc, field);
    }
  }

  lemma EmptyNext(before: seq<Doc>, docs: seq<Doc>, u: AddField, i: nat)
    requires Emptied(before, docs, u, i) && i < |docs|
    ensures u.field !in docs[i] ==> Emptied(before, docs, u, i + 1)
    ensures u.field in docs[i] ==> var next := docs[i := docs[i] - {u.field}];
      Emptied(before, next, u, i + 1) && Holding(next, u.field) == Holding(docs, u.field) - 1
  {
    if u.field in docs[i] {
      HoldingOneLess(docs, i, docs[i] - {u.field}, u.field);
    }
  }

  ghost predicate Targets(us: seq<AddField>, coll: string, field: string) {
    exists k :: 0 <= k < |us| && us[k].coll == coll && us[k].field == field
  }

  /** doc has lost some of the targeted fields of `was`, and nothing else. */
  ghost predicate ShrunkDoc(us: seq<AddField>, c: string, was: Doc, doc: Doc) {
    && (forall f :: f in doc ==> f in was && doc[f] == was[f])
    && forall f :: f in was && !Targets(us, c, f) ==> f in doc
  }

  lemma EmptiedSoFar(us: seq<AddField>, before: seq<Doc>, docs: seq<Doc>, u: AddField, i: nat)
    requires Emptied(before, docs, u, i) && Targets(us, u.coll, u.field)
    ensures i == |docs| ==> docs == UnsetAll(before, u) && Holding(docs, u.field) == 0
    ensures forall j :: 0 <= j < |docs| ==> ShrunkDoc(us, u.coll, before[j], docs[j])
  {
    forall j | 0 <= j < |docs|
      ensures ShrunkDoc(us, u.coll, before[j], docs[j])
    {
      if j < i {
        assert docs[j] == before[j] - {u.field};
      }
    }
  }

  /** Updates already made cost nothing when they are repeated. */
  lemma {:induction false} SettledWork(us: seq<AddField>, k: nat, db: Collections)
    requires k <= |us| && AllSettled(us[..k], db)
    ensures Work(us, db) == Work(us[k..], db)
  {
    if k > 0 {
      assert us[..k][0] == us[0];
      assert Settled(us[0], db);
      SettledUp(us[0], db);
      assert us[1..][..k - 1] == us[..k][1..];
      SettledWork(us[1..], k - 1, db);
      assert us[1..][k - 1..] == us[k..];
    }
  }

  function UndoOne(u: AddField, db: Collections): nat {
    if u.coll in db then Holding(db[u.coll], u.field) else 0
  }

  /** The document writes of a `migrate_down`. */
  function UndoWork(us: seq<AddField>, db: Collections): nat {
    if us == [] then 0 else UndoOne(us[0], db) + UndoWork(us[1..], DownOne(us[0], db))
  }

  // ---- rolling back ----

  ghost predicate Absent(coll: string, field: string, db: Collections) {
    coll in db ==> forall i :: 0 <= i < |db[coll]| ==> field !in db[coll][i]
  }

  /** No document of an existing target collection had any of the added fields. */
  ghost predicate NoneHad(us: seq<AddField>, db: Collections) {
    forall k {:trigger us[k]} :: 0 <= k < |us| ==> Absent(us[k].coll, us[k].field, db)
  }

  lemma TargetsTail(us: seq<AddField>, c: string, f: string)
    requires us != []
    ensures Targets(us, c, f) <==> Targets(us[1..], c, f) || (us[0].coll == c && us[0].field == f)
  {
    if Targets(us, c, f) {
      var k :| 0 <= k < |us| && us[k].coll == c && us[k].field == f;
      assert k > 0 ==> us[1..][k - 1] == us[k];
    }
    if Targets(us[1..], c, f) {
      var k :| 0 <= k < |us[1..]| && us[1..][k].coll == c && us[1..][k].field == f;
      assert us[k + 1] == us[1..][k];
    }
  }

  /** After an up, document i of a collection has its old fields unchanged, plus fields the updates target. */
  lemma {:induction false} UpShape(us: seq<AddField>, db: Collections, c: string, i: nat)
    requires c in db && i < |db[c]|
    ensures Up(us, db).Keys == db.Keys && |Up(us, db)[c]| == |db[c]|
    ensures forall f :: f in db[c][i] ==> f in Up(us, db)[c][i] && Up(us, db)[c][i][f] == db[c][i][f]
    ensures forall f :: f in Up(us, db)[c][i] ==> f in db[c][i] || Targets(us, c, f)
  {
    if us != [] {
      var mid := UpOne(us[0], db);
      UpShape(us[1..], mid, c, i);
      forall f | f in Up(us, db)[c][i]
        ensures f in db[c][i] || Targets(us, c, f)
      {
        TargetsTail(us, c, f);
      }
    }
  }

  /** A down removes exactly the targeted fields and nothing else. */
  lemma {:induction false} DownShape(us: seq<AddField>, db: Collections, c: string, i: nat)
    requires c in db && i < |db[c]|
    ensures Down(us, db).Keys == db.Keys && |Down(us, db)[c]| == |db[c]|
    ensures forall f :: f in Down(us, db)[c][i] <==> f in db[c][i] && !Targets(us, c, f)
    ensures forall f :: f in Down(us, db)[c][i] ==> Down(us, db)[c][i][f] == db[c][i][f]
  {
    if us != [] {
      DownShape(us[1..], DownOne(us[0], db), c, i);
      forall f
        ensures f in Down(us, db)[c][i] <==> f in db[c][i] && !Targets(us, c, f)
      {
        TargetsTail(us, c, f);
      }
    }
  }

  /** Part of a `migrate_down` has been done. */
  ghost predicate Shrunk(us: seq<AddField>, db: Collections, db': Collections) {
    && db'.Keys == db.Keys
    && forall c {:trigger db'[c]} :: c in db ==>
         |db'[c]| == |db[c]| && forall i :: 0 <= i < |db[c]| ==> ShrunkDoc(us, c, db[c][i], db'[c][i])
  }

  lemma ShrunkOne(us: seq<AddField>, db: Collections, c: string, docs: seq<Doc>)
    requires c in db && |docs| == |db[c]| && forall i :: 0 <= i < |docs| ==> ShrunkDoc(us, c, db[c][i], docs[i])
    ensures Shrunk(us, db, db[c := docs])
  {
  }

  lemma ShrunkTwice(us: seq<AddField>, db: Collections, mid: Collections, db': Collections)
    requires Shrunk(us, db, mid) && Shrunk(us, mid, db')
    ensures Shrunk(us, db, db')
  {
    forall c, i | c in db && 0 <= i < |db[c]|
      ensures |db'[c]| == |db[c]| && ShrunkDoc(us, c, db[c][i], db'[c][i])
    {
      assert |mid[c]| == |db[c]| && |db'[c]| == |mid[c]|;
      assert ShrunkDoc(us, c, db[c][i], mid[c][i]) && ShrunkDoc(us, c, mid[c][i], db'[c][i]);
    }
    forall c | c in db
      ensures |db'[c]| == |db[c]|
    {
      assert |mid[c]| == |db[c]|;
    }
  }

  /** The k-th update is the first to target the field. */
  predicate FirstTarget(us: seq<AddField>, k: nat, c: string, f: string) {
    && k < |us| && us[k].coll == c && us[k].field == f
    && forall j :: 0 <= j < k ==> us[j].coll != c || us[j].field != f
  }

  /** A document that lacks a field gets the value of the first update that targets it. */
  lemma {:induction false} UpValue(us: seq<AddField>, db: Collections, c: string, i: nat, f: string, k: nat)
    requires c in db && i < |db[c]| && f !in db[c][i] && FirstTarget(us, k, c, f)
    ensures c in Up(us, db) && i < |Up(us, db)[c]| && f in Up(us, db)[c][i] && Up(us, db)[c][i][f] == us[k].value
    decreases k
  {
    var mid := UpOne(us[0], db);
    if k == 0 {
      assert mid[c][i] == SetMissing(db[c][i], us[0]);
      UpShape(us[1..], mid, c, i);
    } else {
      assert us[0].coll != c || us[0].field != f;
      assert us[1..][k - 1] == us[k] && forall j :: 0 <= j < k - 1 ==> us[1..][j] == us[j + 1];
      UpValue(us[1..], mid, c, i, f, k - 1);
    }
  }

  /** Every document of the collection that lacked the field has the value afterwards. */
  ghost predicate Fills(us: seq<AddField>, db: Collections, c: string, f: string, v: Json) {
    c in db ==>
      && c in Up(us, db) && |Up(us, db)[c]| == |db[c]|
      && forall i :: 0 <= i < |db[c]| && f !in db[c][i] ==> f in Up(us, db)[c][i] && Up(us, db)[c][i][f] == v
  }

  lemma {:induction false} UpKeys(us: seq<AddField>, db: Collections)
    ensures Up(us, db).Keys == db.Keys && Down(us, db).Keys == db.Keys
    ensures forall c :: c in db ==> |Up(us, db)[c]| == |db[c]| == |Down(us, db)[c]|
  {
    if us != [] {
      UpKeys(us[1..], UpOne(us[0], db));
      UpKeys(us[1..], DownOne(us[0], db));
    }
  }

  lemma FirstTargetFills(us: seq<AddField>, db: Collections, k: nat)
    requires k < |us| && FirstTarget(us, k, us[k].coll, us[k].field)
    ensures Fills(us, db, us[k].coll, us[k].field, us[k].value)
  {
    var (c, f) := (us[k].coll, us[k].field);
    if c in db {
      UpKeys(us, db);
      hide Up;
      forall i | 0 <= i < |db[c]| && f !in db[c][i]
        ensures f in Up(us, db)[c][i] && Up(us, db)[c][i][f] == us[k].value
      {
        UpValue(us, db, c, i, f, k);
      }
    }
  }

  /** A `migrate_down` that was interrupted ends, when repeated, where it would have ended. */
  lemma ShrunkDown(us: seq<AddField>, db: Collections, db': Collections)
    requires Shrunk(us, db, db')
    ensures Down(us, db') == Down(us, db)
  {
    UpKeys(us, db);
    UpKeys(us, db');
    forall c | c in db
      ensures Down(us, db')[c] == Down(us, db)[c]
    {
      assert |db'[c]| == |db[c]|;
      forall i | 0 <= i < |db[c]|
        ensures Down(us, db')[c][i] == Down(us, db)[c][i]
      {
        DownShape(us, db, c, i);
        DownShape(us, db', c, i);
        assert ShrunkDoc(us, c, db[c][i], db'[c][i]);
      }
    }
  }

  lemma RestoredDoc(us: seq<AddField>, db: Collections, c: string, i: nat)
    requires NoneHad(us, db) && c in db && i < |db[c]|
    ensures c in Up(us, db) && |Up(us, db)[c]| == |db[c]|
    ensures c in Down(us, Up(us, db)) && |Down(us, Up(us, db))[c]| == |db[c]|
    ensures Down(us, Up(us, db))[c][i] == db[c][i]
  {
    UpShape(us, db, c, i);
    DownShape(us, Up(us, db), c, i);
    forall f | f in db[c][i]
      ensures !Targets(us, c, f)
    {
      forall k | 0 <= k < |us| && us[k].coll == c
        ensures us[k].field != f
      {
        assert Absent(us[k].coll, us[k].field, db);
      }
    }
  }

  /** Main result on rollback: rolling back right after an up restores the documents
      exactly when no document of the targeted collections had any of the added fields. */
  lemma RollbackRestoresIff(us: seq<AddField>, db: Collections)
    ensures Down(us, Up(us, db)) == db <==> NoneHad(us, db)
  {
    var up := Up(us, db);
    var back := Down(us, up);
    UpKeys(us, db);
    UpKeys(us, up);
    if NoneHad(us, db) {
      forall c | c in db
        ensures back[c] == db[c]
      {
        forall i | 0 <= i < |db[c]|
          ensures back[c][i] == db[c][i]
        {
          RestoredDoc(us, db, c, i);
        }
      }
    } else {
      var k :| 0 <= k < |us| && !Absent(us[k].coll, us[k].field, db);
      var (c, f) := (us[k].coll, us[k].field);
      var i :| 0 <= i < |db[c]| && f in db[c][i];
      DownShape(us, up, c, i);
      assert Targets(us, c, f);
      assert back[c][i] != db[c][i];
    }
  }

  // ---- the repository's migrations ----

  const MIGRATION_002 := [
    AddField("ref_color", "flag", Null),
    AddField("ref_color", "description_str", Str("Aucune description fournie.")),
    AddField("ref_bank", "rib_account_number_format_str", Null),
    AddField("ref_bank", "has_rib_nomenclature_constraint", Bool(false)),
    AddField("ref_bank", "has_prefixes_constraint", Bool(false)),
    AddField("ref_bank", "prefix_caracters_number", Null),
    AddField("ref_bank", "bank_account_number_prefixes", Arr([]))
  ]
  const MIGRATION_003 := [AddField("cfg_user_device", "sys_organization_id", Null)]
  const MIGRATION_004 := [
    AddField("ops_user_login_history", "session_expected_expiration", Null),
    AddField("ops_user_login_history", "session_id_str", Str(""))
  ]

  lemma DocUpdatesCommute(u: AddField, v: AddField, docs: seq<Doc>)
    requires u.field != v.field
    ensures SetAll(SetAll(docs, v), u) == SetAll(SetAll(docs, u), v)
  {
    forall i | 0 <= i < |docs|
      ensures SetAll(SetAll(docs, v), u)[i] == SetAll(SetAll(docs, u), v)[i]
    {
      assert docs[i][v.field := v.value][u.field := u.value] == docs[i][u.field := u.value][v.field := v.value];
    }
  }

  /** What the repository's migrations do to documents that lack the fields. */
  lemma Migration002Fills(db: Collections)
    ensures Fills(MIGRATION_002, db, "ref_color", "flag", Null)
    ensures Fills(MIGRATION_002, db, "ref_color", "description_str", Str("Aucune description fournie."))
    ensures Fills(MIGRATION_002, db, "ref_bank", "rib_account_number_format_str", Null)
    ensures Fills(MIGRATION_002, db, "ref_bank", "has_rib_nomenclature_constraint", Bool(false))
    ensures Fills(MIGRATION_002, db, "ref_bank", "has_prefixes_constraint", Bool(false))
    ensures Fills(MIGRATION_002, db, "ref_bank", "prefix_caracters_number", Null)
    ensures Fills(MIGRATION_002, db, "ref_bank", "bank_account_number_prefixes", Arr([]))
    ensures forall c, f :: Targets(MIGRATION_002, c, f) ==> c == "ref_color" || c == "ref_bank"
  {
    hide Fills;
    FirstTargetFills(MIGRATION_002, db, 0);
    FirstTargetFills(MIGRATION_002, db, 1);
    FirstTargetFills(MIGRATION_002, db, 2);
    FirstTargetFills(MIGRATION_002, db, 3);
    FirstTargetFills(MIGRATION_002, db, 4);
    FirstTargetFills(MIGRATION_002, db, 5);
    FirstTargetFills(MIGRATION_002, db, 6);
  }

  lemma Migrations003And004Fill(db: Collections)
    ensures Fills(MIGRATION_003, db, "cfg_user_device", "sys_organization_id", Null)
    ensures Fills(MIGRATION_004, db, "ops_user_login_history", "session_expected_expiration", Null)
    ensures Fills(MIGRATION_004, db, "ops_user_login_history", "session_id_str", Str(""))
    ensures |MIGRATION_002| == 7 && |MIGRATION_003| == 1 && |MIGRATION_004| == 2
  {
    hide Fills;
    FirstTargetFills(MIGRATION_003, db, 0);
    FirstTargetFills(MIGRATION_004, db, 0);
    FirstTargetFills(MIGRATION_004, db, 1);
  }

  /** Updates of different fields commute: their order in a migration does not matter. */
  lemma DifferentFieldsCommute(u: AddField, v: AddField, db: Collections)
    requires u.coll != v.coll || u.field != v.field
    ensures UpOne(u, UpOne(v, db)) == UpOne(v, UpOne(u, db))
  {
    if u.coll == v.coll && u.coll in db {
      DocUpdatesCommute(u, v, db[u.coll]);
    }
    hide SetMissing;
    var (a, b) := (UpOne(u, UpOne(v, db)), UpOne(v, UpOne(u, db)));
    assert forall c :: c in db ==> a[c] == b[c];
  }

  /** No two updates of the repository's migrations touch the same field, so the order
      in which they run is immaterial. */
  lemma RepositoryUpdatesCommute(i: nat, j: nat, db: Collections)
    requires i < j < |MIGRATION_002 + MIGRATION_003 + MIGRATION_004|
    ensures var us := MIGRATION_002 + MIGRATION_003 + MIGRATION_004;
      UpOne(us[i], UpOne(us[j], db)) == UpOne(us[j], UpOne(us[i], db))
  {
    var us := MIGRATION_002 + MIGRATION_003 + MIGRATION_004;
    assert us[i].coll != us[j].coll || us[i].field != us[j].field;
    DifferentFieldsCommute(us[i], us[j], db);
  }
}
