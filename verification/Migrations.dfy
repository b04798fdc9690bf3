/** `run_migrations`: pending files in sorted order, each applied and then recorded,
    stopping at the first failure; and rollback of one recorded migration. */
module Migrations {
  import opened TextOrder
  import opened Json
  import opened MigrationUpdates

  // ---- which files are migrations, and in which order they run ----

  predicate EndsWith(s: string, suffix: string) {
    |suffix| <= |s| && s[|s| - |suffix|..] == suffix
  }

  predicate IsMigrationFile(name: string) {
    EndsWith(name, ".py") && !(|name| >= 2 && name[..2] == "__")
  }

  /** A directory listing: file names with the updates each file makes. */
  type Listing = seq<Entry<seq<AddField>>>

  function OnlyMigrations(listing: Listing): (r: Listing)
    ensures forall f :: f in r <==> f in listing && IsMigrationFile(f.key)
  {
    if listing == [] then []
    else (if IsMigrationFile(listing[0].key) then [listing[0]] else []) + OnlyMigrations(listing[1..])
  }

  /** `sorted([f for f in os.listdir(dir) if ...])`. */
  function MigrationFiles(listing: Listing): Listing {
    Sort(OnlyMigrations(listing))
  }

  /** The ledger knows a migration by its file name without `.py`. */
  function Name(file: string): (r: string)
    ensures |file| >= 3 && file[|file| - 3..] == ".py" ==> file == r + ".py"
  {
    if |file| >= 3 then file[..|file| - 3] else ""
  }

  lemma {:induction false} OnlyMigrationsDistinct(listing: Listing)
    requires DistinctKeys(listing)
    ensures DistinctKeys(OnlyMigrations(listing))
  {
    if listing != [] {
      OnlyMigrationsDistinct(listing[1..]);
      var rest := OnlyMigrations(listing[1..]);
      forall j | 0 <= j < |rest|
        ensures rest[j].key != listing[0].key
      {
        assert rest[j] in listing[1..];
        var m :| 0 <= m < |listing[1..]| && listing[1..][m] == rest[j];
        assert listing[m + 1] == rest[j];
      }
    }
  }

  /** Different migration files have different ledger names. */
  ghost predicate DistinctNames(files: Listing) {
    forall i, j :: 0 <= i < j < |files| ==> Name(files[i].key) != Name(files[j].key)
  }

  lemma SortedFilesHaveDistinctNames(files: Listing)
    requires SortedByKey(files) && forall i :: 0 <= i < |files| ==> IsMigrationFile(files[i].key)
    ensures DistinctNames(files)
  {
    forall i, j | 0 <= i < j < |files|
      ensures Name(files[i].key) != Name(files[j].key)
    {
      assert files[i].key == Name(files[i].key) + ".py" && files[j].key == Name(files[j].key) + ".py";
      LessIrreflexive(files[i].key);
    }
  }

  lemma FilesAreSorted(listing: Listing)
    requires DistinctKeys(listing)
    ensures SortedByKey(MigrationFiles(listing)) && DistinctNames(MigrationFiles(listing))
    ensures forall f :: f in MigrationFiles(listing) <==> f in listing && IsMigrationFile(f.key)
  {
    var found := OnlyMigrations(listing);
    var files := Sort(found);
    OnlyMigrationsDistinct(listing);
    SortSorted(found);
    SameElements(found, files);
    assert forall i :: 0 <= i < |files| ==> files[i] in files;
    SortedFilesHaveDistinctNames(files);
  }

  /** Migration files end in `.py` and do not start with two underscores. */
  lemma FilesMean(listing: Listing, f: Entry<seq<AddField>>)
    requires DistinctKeys(listing)
    ensures f in MigrationFiles(listing) <==>
      f in listing && |f.key| >= 3 && f.key[|f.key| - 3..] == ".py" && f.key[..2] != "__"
  {
    FilesAreSorted(listing);
    hide MigrationFiles;
  }

  // ---- the effect of a complete run ----

  function RunAll(files: Listing, db: Collections, applied: set<string>): (Collections, set<string>) {
    if files == [] then (db, applied)
    else
      var f := files[0];
      if Name(f.key) in applied then RunAll(files[1..], db, applied)
      else RunAll(files[1..], Up(f.value, db), applied + {Name(f.key)})
  }

  /** How many of the files are not recorded yet. */
  function Pending(files: Listing, applied: set<string>): nat {
    if files == [] then 0
    else (if Name(files[0].key) in applied then 0 else 1) + Pending(files[1..], applied)
  }

  /** The document and ledger writes that a run has before it. */
  function Outstanding(files: Listing, db: Collections, applied: set<string>): nat {
    if files == [] then 0
    else
      var f := files[0];
      if Name(f.key) in applied then Outstanding(files[1..], db, applied)
      else Work(f.value, db) + 1 + Outstanding(files[1..], Up(f.value, db), applied + {Name(f.key)})
  }

  /** One round of the loop over the files. */
  lemma RunStep(files: Listing, i: nat, db: Collections, applied: set<string>)
    requires i < |files|
    ensures var (f, rest) := (files[i], files[i + 1..]);
      && (Name(f.key) in applied ==>
            && RunAll(files[i..], db, applied) == RunAll(rest, db, applied)
            && Outstanding(files[i..], db, applied) == Outstanding(rest, db, applied)
            && Pending(files[i..], applied) == Pending(rest, applied))
      && (Name(f.key) !in applied ==>
            && RunAll(files[i..], db, applied) == RunAll(rest, Up(f.value, db), applied + {Name(f.key)})
            && Outstanding(files[i..], db, applied)
               == Work(f.value, db) + 1 + Outstanding(rest, Up(f.value, db), applied + {Name(f.key)})
            && Pending(files[i..], applied) == 1 + Pending(rest, applied))
  {
    assert files[i..][0] == files[i] && files[i..][1..] == files[i + 1..];
  }

  lemma AllRun(files: Listing, db: Collections, applied: set<string>)
    ensures RunAll(files[|files|..], db, applied) == (db, applied)
    ensures Outstanding(files[|files|..], db, applied) == 0 && Pending(files[|files|..], applied) == 0
  {
  }

  function Sum(budgets: seq<nat>): nat {
    if budgets == [] then 0 else Sum(budgets[..|budgets| - 1]) + budgets[|budgets| - 1]
  }

  lemma {:induction false} SumGrows(budgets: seq<nat>, i: nat)
    requires i <= |budgets|
    ensures Sum(budgets[..i]) <= Sum(budgets)
  {
    if i == |budgets| {
      assert budgets[..i] == budgets;
    } else {
      SumGrows(budgets[..|budgets| - 1], i);
      assert budgets[..|budgets| - 1][..i] == budgets[..i];
    }
  }

  function Names(files: Listing): set<string> {
    set i | 0 <= i < |files| :: Name(files[i].key)
  }

  /** Recorded migrations at the head of the list are passed over. */
  lemma {:induction false} RunAllSkips(files: Listing, i: nat, db: Collections, applied: set<string>)
    requires i <= |files| && Names(files[..i]) <= applied
    ensures RunAll(files, db, applied) == RunAll(files[i..], db, applied)
    ensures Outstanding(files, db, applied) == Outstanding(files[i..], db, applied)
  {
    if i > 0 {
      assert Name(files[..i][0].key) in Names(files[..i]);
      forall x | x in Names(files[1..][..i - 1])
        ensures x in applied
      {
        var j :| 0 <= j < i - 1 && Name(files[1..][..i - 1][j].key) == x;
        assert files[..i][j + 1] == files[1..][..i - 1][j];
        assert x in Names(files[..i]);
      }
      RunAllSkips(files[1..], i - 1, db, applied);
      assert files[1..][i - 1..] == files[i..];
    }
  }

  lemma NamesSnoc(files: Listing, i: nat)
    requires i < |files|
    ensures Names(files[..i + 1]) == Names(files[..i]) + {Name(files[i].key)}
    ensures DistinctNames(files) ==> Name(files[i].key) !in Names(files[..i])
  {
    forall x
      ensures x in Names(files[..i + 1]) <==> x in Names(files[..i]) + {Name(files[i].key)}
    {
      if x in Names(files[..i]) {
        var j :| 0 <= j < i && Name(files[..i][j].key) == x;
        assert files[..i + 1][j] == files[..i][j];
      }
      assert files[..i + 1][i] == files[i];
      if x in Names(files[..i + 1]) {
        var j :| 0 <= j < i + 1 && Name(files[..i + 1][j].key) == x;
        assert j < i ==> files[..i][j] == files[..i + 1][j];
      }
    }
  }

  /** f is the module that `import` finds under that name (dunder files included). */
  predicate IsModule(f: Entry<seq<AddField>>, name: string) {
    f.key == name + ".py"
  }

  lemma OneModule(listing: Listing, i: nat, j: nat, name: string)
    requires DistinctKeys(listing) && i < |listing| && j < |listing|
    requires IsModule(listing[i], name) && IsModule(listing[j], name)
    ensures i == j
  {
    assert listing[i].key == listing[j].key;
  }

  // ---- a run in terms of the directory and the ledger names ----

  /** The directory has a migration of that name. */
  predicate HasMigration(listing: Listing, n: string) {
    (exists f :: f in listing && f.key == n + ".py") && (n + ".py")[..2] != "__"
  }

  /** The file is a migration, and no recorded name belongs to it. */
  predicate IsPending(f: Entry<seq<AddField>>, applied: set<string>) {
    && |f.key| >= 3 && f.key[|f.key| - 3..] == ".py" && f.key[..2] != "__"
    && forall n :: n in applied ==> n + ".py" != f.key
  }

  lemma SameStem(a: string, b: string)
    requires a + ".py" == b + ".py"
    ensures a == b
  {
    assert a == (a + ".py")[..|a + ".py"| - 3] && b == (b + ".py")[..|b + ".py"| - 3];
  }

  lemma NamesMean(files: Listing, n: string)
    requires forall f :: f in files ==> IsMigrationFile(f.key)
    ensures n in Names(files) <==> exists f :: f in files && f.key == n + ".py"
  {
    if n in Names(files) {
      var i :| 0 <= i < |files| && Name(files[i].key) == n;
      assert files[i] in files;
    }
    if f :| f in files && f.key == n + ".py" {
      var i :| 0 <= i < |files| && files[i] == f;
      assert Name(f.key) + ".py" == n + ".py";
      SameStem(Name(f.key), n);
    }
  }

  /** All migrations of the directory are recorded. */
  lemma AllNamesMean(listing: Listing, n: string)
    requires DistinctKeys(listing)
    ensures n in Names(MigrationFiles(listing)) <==> HasMigration(listing, n)
  {
    FilesAreSorted(listing);
    NamesMean(MigrationFiles(listing), n);
    if HasMigration(listing, n) {
      var f :| f in listing && f.key == n + ".py";
      assert f in MigrationFiles(listing);
    }
  }

  lemma PositionIff(files: Listing, i: nat, p: nat)
    requires SortedByKey(files) && i < |files| && p < |files|
    ensures i < p <==> Less(files[i].key, files[p].key)
  {
    if i >= p {
      LessIrreflexive(files[p].key);
      if i > p && Less(files[i].key, files[p].key) {
        LessTransitive(files[p].key, files[i].key, files[p].key);
      }
    }
  }

  /** The files before position p are those with a smaller name. */
  lemma BeforeMeans(files: Listing, p: nat, key: string)
    requires SortedByKey(files) && p < |files|
    ensures (exists f :: f in files[..p] && f.key == key) <==> (exists f :: f in files && f.key == key) && Less(key, files[p].key)
  {
    hide Less;
    if f :| f in files[..p] && f.key == key {
      var i :| 0 <= i < p && files[..p][i] == f;
      assert files[i] == f && f in files;
      PositionIff(files, i, p);
    }
    if f :| f in files && f.key == key && Less(key, files[p].key) {
      var i :| 0 <= i < |files| && files[i] == f;
      PositionIff(files, i, p);
      assert files[..p][i] == f;
    }
  }

  /** The ledger names of the files before position p. */
  lemma NamesBeforeMean(listing: Listing, p: nat, n: string)
    requires DistinctKeys(listing) && p < |MigrationFiles(listing)|
    ensures n in Names(MigrationFiles(listing)[..p]) <==>
      HasMigration(listing, n) && Less(n + ".py", MigrationFiles(listing)[p].key)
  {
    var files := MigrationFiles(listing);
    FilesAreSorted(listing);
    assert forall f :: f in files[..p] ==> f in files;
    NamesMean(files[..p], n);
    AllNamesMean(listing, n);
    NamesMean(files, n);
    hide Less, MigrationFiles, Names, HasMigration, IsMigrationFile;
    BeforeMeans(files, p, n + ".py");
  }

  lemma RecordedIff(f: Entry<seq<AddField>>, applied: set<string>)
    requires IsMigrationFile(f.key)
    ensures Name(f.key) !in applied <==> IsPending(f, applied)
  {
    assert f.key == Name(f.key) + ".py";
    if n :| n in applied && n + ".py" == f.key {
      SameStem(n, Name(f.key));
    }
  }

  lemma FirstIsFirst(files: Listing)
    requires DistinctKeys(files) && files != []
    ensures files[0] !in files[1..] && DistinctKeys(files[1..])
    ensures forall f :: f in files <==> f == files[0] || f in files[1..]
  {
    assert forall j :: 0 <= j < |files| - 1 ==> files[1..][j] == files[j + 1];
    assert files == [files[0]] + files[1..];
  }

  function PendingSet(files: Listing, applied: set<string>): set<Entry<seq<AddField>>> {
    set f | f in files && IsPending(f, applied)
  }

  lemma PendingSetStep(files: Listing, applied: set<string>)
    requires DistinctKeys(files) && files != []
    ensures files[0] !in PendingSet(files[1..], applied)
    ensures PendingSet(files, applied)
      == PendingSet(files[1..], applied) + if IsPending(files[0], applied) then {files[0]} else {}
  {
    FirstIsFirst(files);
    hide IsPending;
  }

  /** The number of pending files is the number of files without a recorded name. */
  lemma {:induction false} PendingMeans(files: Listing, applied: set<string>)
    requires DistinctKeys(files) && forall f :: f in files ==> IsMigrationFile(f.key)
    ensures Pending(files, applied) == |PendingSet(files, applied)|
  {
    if files != [] {
      FirstIsFirst(files);
      RecordedIff(files[0], applied);
      PendingSetStep(files, applied);
      hide IsPending, IsMigrationFile, Name, PendingSet;
      PendingMeans(files[1..], applied);
    }
  }

  lemma SortedByKeyDistinct(files: Listing)
    requires SortedByKey(files)
    ensures DistinctKeys(files)
  {
    forall i, j | 0 <= i < j < |files|
      ensures files[i].key != files[j].key
    {
      LessIrreflexive(files[i].key);
    }
  }

  lemma PendingOfListing(listing: Listing, applied: set<string>)
    requires DistinctKeys(listing)
    ensures Pending(MigrationFiles(listing), applied) == |set f | f in listing && IsPending(f, applied)|
  {
    var files := MigrationFiles(listing);
    FilesAreSorted(listing);
    SortedByKeyDistinct(files);
    PendingMeans(files, applied);
    assert PendingSet(files, applied) == set f | f in listing && IsPending(f, applied);
  }

  /** The updates of the pending files, file after file. */
  function PendingUpdates(files: Listing, applied: set<string>): seq<AddField> {
    if files == [] then []
    else (if IsPending(files[0], applied) then files[0].value else []) + PendingUpdates(files[1..], applied)
  }

  /** A file's own updates stand between those of the files before and after it. */
  lemma {:induction false} PendingUpdatesAt(files: Listing, applied: set<string>, i: nat)
    requires i < |files|
    ensures PendingUpdates(files, applied) == PendingUpdates(files[..i], applied)
      + (if IsPending(files[i], applied) then files[i].value else []) + PendingUpdates(files[i + 1..], applied)
  {
    if i > 0 {
      assert files[..i][0] == files[0] && files[..i][1..] == files[1..][..i - 1];
      assert files[1..][i..] == files[i + 1..];
      PendingUpdatesAt(files[1..], applied, i - 1);
    } else {
      assert files[..0] == [];
    }
  }

  lemma NoUpdates(db: Collections)
    ensures Up([], db) == db
  {
  }

  /** A complete run makes the updates of the pending files, in name order. */
  lemma {:induction false} RunAllMeans(files: Listing, db: Collections, applied: set<string>, recorded: set<string>)
    requires DistinctNames(files)
    requires forall i :: 0 <= i < |files| ==> (Name(files[i].key) !in applied <==> IsPending(files[i], recorded))
    ensures RunAll(files, db, applied).0 == Up(PendingUpdates(files, recorded), db)
  {
    hide IsPending, Name, Up;
    if files == [] {
      assert Up([], db) == db by { NoUpdates(db); }
    } else {
      var (f, rest) := (files[0], files[1..]);
      assert forall j :: 0 <= j < |rest| ==> rest[j] == files[j + 1];
      if Name(f.key) in applied {
        RunAllMeans(rest, db, applied, recorded);
        assert [] + PendingUpdates(rest, recorded) == PendingUpdates(rest, recorded);
      } else {
        RunAllMeans(rest, Up(f.value, db), applied + {Name(f.key)}, recorded);
        UpConcat(f.value, PendingUpdates(rest, recorded), db);
      }
    }
  }

  lemma CompleteRunMeans(listing: Listing, db: Collections, applied: set<string>)
    requires DistinctKeys(listing)
    ensures RunAll(MigrationFiles(listing), db, applied).0 == Up(PendingUpdates(MigrationFiles(listing), applied), db)
  {
    var files := MigrationFiles(listing);
    FilesAreSorted(listing);
    forall i | 0 <= i < |files|
      ensures Name(files[i].key) !in applied <==> IsPending(files[i], applied)
    {
      assert files[i] in files;
      RecordedIff(files[i], applied);
    }
    RunAllMeans(files, db, applied, applied);
  }

  ghost predicate LedgerUpTo(listing: Listing, recorded: set<string>, applied: set<string>, stop: string) {
    forall n :: n in applied <==> n in recorded || (HasMigration(listing, n) && Less(n + ".py", stop))
  }

  /** The ledger has gained exactly the migrations sorted before some pending one. */
  ghost predicate StoppedBefore(listing: Listing, recorded: set<string>, applied: set<string>) {
    exists f :: f in listing && IsPending(f, recorded) && LedgerUpTo(listing, recorded, applied, f.key)
  }

  datatype Outcome = Completed(count: nat) | StoppedAt(position: nat)

  lemma StopMeans(listing: Listing, recorded: set<string>, applied: set<string>, p: nat)
    requires DistinctKeys(listing) && p < |MigrationFiles(listing)|
    requires Name(MigrationFiles(listing)[p].key) !in recorded
    requires applied == recorded + Names(MigrationFiles(listing)[..p])
    ensures StoppedBefore(listing, recorded, applied)
  {
    hide HasMigration, Less, Names;
    var files := MigrationFiles(listing);
    FilesAreSorted(listing);
    assert files[p] in files;
    RecordedIff(files[p], recorded);
    hide IsPending, MigrationFiles;
    forall n
      ensures n in applied <==> n in recorded || (HasMigration(listing, n) && Less(n + ".py", files[p].key))
    {
      NamesBeforeMean(listing, p, n);
    }
    assert LedgerUpTo(listing, recorded, applied, files[p].key);
  }

  /** What the outcome of a run says of the ledger, the count and the documents. */
  lemma RunMeans(listing: Listing, db: Collections, recorded: set<string>, applied: set<string>, r: Outcome)
    requires DistinctKeys(listing)
    requires var files := MigrationFiles(listing);
      && (r.Completed? ==> applied == recorded + Names(files))
      && (r.StoppedAt? ==>
            && r.position < |files| && Name(files[r.position].key) !in recorded
            && applied == recorded + Names(files[..r.position]))
    ensures r.Completed? ==> forall n :: n in applied <==> n in recorded || HasMigration(listing, n)
    ensures r.StoppedAt? ==> StoppedBefore(listing, recorded, applied)
    ensures Pending(MigrationFiles(listing), recorded) == |set f | f in listing && IsPending(f, recorded)|
    ensures RunAll(MigrationFiles(listing), db, recorded).0
      == Up(PendingUpdates(MigrationFiles(listing), recorded), db)
  {
    hide HasMigration, Less, Up, RunAll, PendingUpdates, Names, Pending, IsPending;
    PendingOfListing(listing, recorded);
    CompleteRunMeans(listing, db, recorded);
    match r
    case Completed(_) =>
      forall n
        ensures n in applied <==> n in recorded || HasMigration(listing, n)
      {
        AllNamesMean(listing, n);
      }
    case StoppedAt(p) => StopMeans(listing, recorded, applied, p);
  }

  class MigrationDatabase {
    var colls: Collections
    /** The names in the `migrations` collection. */
    var applied: set<string>
    /** How many more document and ledger writes succeed before the process dies. */
    var budget: nat
    /** Successful ups and downs so far, by migration. */
    ghost var ups: map<string, int>
    ghost var downs: map<string, int>

    constructor (colls: Collections, budget: nat)
      ensures this.colls == colls && applied == {} && this.budget == budget && Balanced()
    {
      this.colls, this.budget, applied, ups, downs := colls, budget, {}, map[], map[];
    }

    ghost function Count(m: map<string, int>, name: string): int {
      if name in m then m[name] else 0
    }

    /** Successful ups minus successful downs is 1 for recorded migrations, else 0. */
    ghost predicate Balanced()
      reads this
    {
      forall name :: Count(ups, name) - Count(downs, name) == if name in applied then 1 else 0
    }

    /** One write: false when the process dies instead. */
    method Write() returns (ok: bool)
      modifies `budget
      ensures ok == (old(budget) > 0)
      ensures budget == if ok then old(budget) - 1 else 0
    {
      ok := budget > 0;
      if ok { budget := budget - 1; }
    }

    /** One document written back: nothing happens when the process dies. */
    method WriteDoc(coll: string, i: nat, doc: Doc) returns (ok: bool)
      requires coll in colls && i < |colls[coll]|
      modifies `colls, `budget
      ensures ok == (old(budget) > 0)
      ensures budget == if ok then old(budget) - 1 else 0
      ensures colls == if ok then old(colls)[coll := old(colls)[coll][i := doc]] else old(colls)
    {
      ok := Write();
      if ok {
        colls := colls[coll := colls[coll][i := doc]];
      }
    }

    /** One guarded `update_many`, document by document. Interrupted or not, what remains
        to be done leads to the same documents, and every write counts. */
    method UpdateMany(u: AddField) returns (ok: bool)
      modifies `colls, `budget
      ensures UpOne(u, colls) == UpOne(u, old(colls)) && Grown(old(colls), colls)
      ensures if ok then colls == UpOne(u, old(colls)) else budget == 0
      ensures ok <==> old(budget) >= WorkOne(u, old(colls))
      ensures budget <= old(budget) && WorkOne(u, colls) + old(budget) - budget == WorkOne(u, old(colls))
    {
      if u.coll !in colls {
        return true;
      }
      ghost var before := colls[u.coll];
      assert colls[u.coll := before] == colls;
      assert Filled(before, before, u, 0);
      FilledColl(u, colls, before, 0);
      hide Filled, Lacking, UpOne, WorkOne, Grown;
      for i := 0 to |colls[u.coll]|
        invariant u.coll in colls && colls == old(colls)[u.coll := colls[u.coll]] && |colls[u.coll]| == |before|
        invariant Filled(before, colls[u.coll], u, i) && budget <= old(budget)
        invariant Lacking(colls[u.coll], u.field) + old(budget) - budget == Lacking(before, u.field)
      {
        FillNext(before, colls[u.coll], u, i);
        var doc := colls[u.coll][i];
        if u.field !in doc {
          LackingSome(colls[u.coll], i, u.field);
          var alive := WriteDoc(u.coll, i, doc[u.field := u.value]);
          if !alive {
            FilledColl(u, old(colls), colls[u.coll], i);
            return false;
          }
        }
      }
      FilledColl(u, old(colls), colls[u.coll], |before|);
      return true;
    }

    /** `migrate_up`: it completes exactly when its writes fit, and otherwise leaves exactly
        the rest of them. */
    method MigrateUp(us: seq<AddField>) returns (ok: bool)
      modifies `colls, `budget
      ensures Up(us, colls) == Up(us, old(colls))
      ensures if ok then colls == Up(us, old(colls)) && Work(us, colls) == 0 else budget == 0
      ensures ok <==> old(budget) >= Work(us, old(colls))
      ensures budget <= old(budget) && Work(us, colls) + old(budget) - budget == Work(us, old(colls))
    {
      ghost var start := colls;
      for k := 0 to |us|
        invariant colls == Up(us[..k], start) && AllSettled(us[..k], colls)
        invariant budget <= old(budget) && Work(us[k..], colls) + old(budget) - budget == Work(us, start)
      {
        ghost var mid := colls;
        assert us == us[..k] + us[k..] && us[k..][0] == us[k] && us[k..][1..] == us[k + 1..];
        ok := UpdateMany(us[k]);
        SettledGrown(us[..k], mid, colls);
        assert us[..k + 1] == us[..k] + [us[k]];
        if !ok {
          AllSettledUp(us[..k], colls);
          SettledWork(us, k, colls);
          UpConcat(us[..k], us[k..], colls);
          UpConcat(us[..k], us[k..], start);
          return;
        }
        UpOneSettles(us[k], mid);
        UpConcat(us[..k], [us[k]], start);
        assert Up([us[k]], mid) == UpOne(us[k], mid) by {
          assert [us[k]][1..] == [];
        }
      }
      assert us[..|us|] == us;
      AllSettledUp(us, colls);
      SettledWork(us, |us|, colls);
      ok := true;
    }

    /** One pending migration: run it, then record it. */
    method RunOne(us: seq<AddField>, name: string) returns (ok: bool)
      requires name !in applied && Balanced()
      modifies this
      ensures Up(us, colls) == Up(us, old(colls)) && Balanced()
      ensures ok ==> colls == Up(us, old(colls)) && applied == old(applied) + {name} && Work(us, colls) == 0
      ensures !ok ==> applied == old(applied) && budget == 0
      ensures ok <==> old(budget) >= Work(us, old(colls)) + 1
      ensures budget <= old(budget)
      ensures Work(us, colls) + (if ok then 0 else 1) + old(budget) - budget == Work(us, old(colls)) + 1
    {
      ok := MigrateUp(us);
      if ok {
        ok := Write();
        if ok {
          applied := applied + {name};
          ups := ups[name := Count(ups, name) + 1];
        }
      }
    }

    /** One round of the loop: a recorded file is passed over. */
    method RunFile(files: Listing, i: nat, recorded: set<string>) returns (ok: bool)
      requires i < |files| && DistinctNames(files) && Balanced()
      requires applied == recorded + Names(files[..i])
      modifies this
      ensures Balanced() && budget <= old(budget)
      ensures ok ==>
        && applied == recorded + Names(files[..i + 1])
        && RunAll(files[i + 1..], colls, applied) == RunAll(files[i..], old(colls), old(applied))
        && Outstanding(files[i + 1..], colls, applied) + old(budget) - budget
           == Outstanding(files[i..], old(colls), old(applied))
      ensures !ok ==>
        && budget == 0 && applied == old(applied) && Name(files[i].key) !in recorded
        && RunAll(files[i..], colls, applied) == RunAll(files[i..], old(colls), old(applied))
        && Outstanding(files[i..], colls, applied) + old(budget) == Outstanding(files[i..], old(colls), old(applied))
        && Outstanding(files[i..], colls, applied) > 0
    {
      hide RunAll, Outstanding, Pending, Names, DistinctNames, Up, Work;
      var name := Name(files[i].key);
      RunStep(files, i, colls, applied);
      NamesSnoc(files, i);
      if name in recorded {
        assert recorded + Names(files[..i]) == recorded + Names(files[..i + 1]);
        return true;
      }
      ok := RunOne(files[i].value, name);
      if ok {
        assert applied == recorded + Names(files[..i + 1]);
      } else {
        RunStep(files, i, colls, applied);
      }
    }

    /** The loop over the sorted files; `applied` is read once, before it. */
    method RunFiles(files: Listing) returns (r: Outcome)
      requires DistinctNames(files) && Balanced()
      modifies this
      ensures RunAll(files, colls, applied) == RunAll(files, old(colls), old(applied))
      ensures r.Completed? <==> old(budget) >= Outstanding(files, old(colls), old(applied))
      ensures r.Completed? ==>
        (colls, applied) == RunAll(files, old(colls), old(applied)) && applied == old(applied) + Names(files)
      ensures r.Completed? ==> r.count == Pending(files, old(applied))
      ensures r.StoppedAt? ==>
        && budget == 0 && r.position < |files| && Name(files[r.position].key) !in old(applied)
        && applied == old(applied) + Names(files[..r.position])
      ensures budget <= old(budget)
      ensures Outstanding(files, colls, applied) + old(budget) - budget == Outstanding(files, old(colls), old(applied))
      ensures Balanced()
    {
      var recorded := applied;
      ghost var goal := RunAll(files, colls, applied);
      ghost var need := Outstanding(files, colls, applied);
      var pendingCount := 0;
      assert Names(files[..0]) == {};
      assert files[0..] == files;
      hide RunAll, Outstanding, Pending, Names, DistinctNames, Up, Work;
      for i := 0 to |files|
        invariant RunAll(files[i..], colls, applied) == goal
        invariant budget <= old(budget) && Outstanding(files[i..], colls, applied) + old(budget) - budget == need
        invariant pendingCount + Pending(files[i..], recorded) == Pending(files, recorded)
        invariant applied == recorded + Names(files[..i]) && Balanced()
      {
        RunStep(files, i, colls, recorded);
        if Name(files[i].key) !in recorded {
          pendingCount := pendingCount + 1;
        }
        var ok := RunFile(files, i, recorded);
        if !ok {
          RunAllSkips(files, i, colls, applied);
          return StoppedAt(i);
        }
      }
      AllRun(files, colls, applied);
      assert files[..|files|] == files && files[|files|..] == [];
      RunAllSkips(files, |files|, colls, applied);
      r := Completed(pendingCount);
    }

    /** `run_migrations()` without flags. It completes exactly when its writes fit. Whatever
        happens, running to the end later leads where an undisturbed run would have led,
        with the writes made so far spared; the ledger gains exactly the pending files
        sorted before the failure. */
    method RunMigrations(listing: Listing) returns (r: Outcome)
      requires DistinctKeys(listing) && Balanced()
      modifies this
      ensures var files := MigrationFiles(listing);
        && RunAll(files, colls, applied) == RunAll(files, old(colls), old(applied))
        && (r.Completed? <==> old(budget) >= Outstanding(files, old(colls), old(applied)))
        && (r.Completed? ==> (colls, applied) == RunAll(files, old(colls), old(applied)))
        && (r.Completed? ==> applied == old(applied) + Names(files) && r.count == Pending(files, old(applied)))
        && (r.StoppedAt? ==>
              && budget == 0 && r.position < |files| && Name(files[r.position].key) !in old(applied)
              && applied == old(applied) + Names(files[..r.position]))
        && budget <= old(budget)
        && Outstanding(files, colls, applied) + old(budget) - budget == Outstanding(files, old(colls), old(applied))
      ensures r.Completed? ==> forall n :: n in applied <==> n in old(applied) || HasMigration(listing, n)
      ensures r.Completed? ==> r.count == |set f | f in listing && IsPending(f, old(applied))|
      ensures r.Completed? ==> colls == Up(PendingUpdates(MigrationFiles(listing), old(applied)), old(colls))
      ensures r.StoppedAt? ==> StoppedBefore(listing, old(applied), applied)
      ensures Balanced()
    {
      hide HasMigration, IsPending, StoppedBefore, RunAll, Outstanding, Pending, Names, Up, PendingUpdates;
      FilesAreSorted(listing);
      r := RunFiles(MigrationFiles(listing));
      RunMeans(listing, old(colls), old(applied), applied, r);
    }

    /** One guarded `update_many` with `$unset`, one of the updates `us`. */
    method UnsetMany(u: AddField, ghost us: seq<AddField>) returns (ok: bool)
      requires u.coll in colls && Targets(us, u.coll, u.field)
      modifies `colls, `budget
      ensures ok ==> colls == DownOne(u, old(colls)) && budget == old(budget) - UndoOne(u, old(colls))
      ensures ok <==> old(budget) >= UndoOne(u, old(colls))
      ensures Shrunk(us, old(colls), colls)
    {
      hide Shrunk, ShrunkDoc, Targets, Holding;
      ghost var before := colls[u.coll];
      assert colls[u.coll := before] == colls;
      for i := 0 to |colls[u.coll]|
        invariant u.coll in colls && colls == old(colls)[u.coll := colls[u.coll]]
        invariant Emptied(before, colls[u.coll], u, i) && budget <= old(budget)
        invariant Holding(colls[u.coll], u.field) + old(budget) - budget == Holding(before, u.field)
      {
        EmptyNext(before, colls[u.coll], u, i);
        var doc := colls[u.coll][i];
        if u.field in doc {
          var alive := WriteDoc(u.coll, i, doc - {u.field});
          if !alive {
            EmptiedSoFar(us, before, colls[u.coll], u, i);
            ShrunkOne(us, old(colls), u.coll, colls[u.coll]);
            return false;
          }
        }
      }
      EmptiedSoFar(us, before, colls[u.coll], u, |before|);
      ShrunkOne(us, old(colls), u.coll, colls[u.coll]);
      return true;
    }

    /** `migrate_down`. */
    method MigrateDown(us: seq<AddField>) returns (ok: bool)
      modifies `colls, `budget
      ensures Down(us, colls) == Down(us, old(colls))
      ensures ok ==> colls == Down(us, old(colls)) && budget == old(budget) - UndoWork(us, old(colls))
      ensures ok <==> old(budget) >= UndoWork(us, old(colls))
    {
      ghost var start := colls;
      for k := 0 to |us|
        invariant Down(us[k..], colls) == Down(us, start) && Shrunk(us, start, colls)
        invariant budget <= old(budget) && UndoWork(us[k..], colls) + old(budget) - budget == UndoWork(us, start)
      {
        var u := us[k];
        assert us[k..][0] == u && us[k..][1..] == us[k + 1..];
        if u.coll in colls {
          ghost var mid := colls;
          assert Targets(us, u.coll, u.field);
          ok := UnsetMany(u, us);
          ShrunkTwice(us, start, mid, colls);
          if !ok {
            ShrunkDown(us, start, colls);
            return;
          }
        }
      }
      ShrunkDown(us, start, colls);
      ok := true;
    }

    /** `importlib.import_module(name)`: the length of the listing is the ImportError. */
    method FindModule(name: string, listing: Listing) returns (i: nat)
      ensures i <= |listing| && (i == |listing| <==> forall f :: f in listing ==> !IsModule(f, name))
      ensures i < |listing| ==> IsModule(listing[i], name)
    {
      i := 0;
      while i < |listing| && !IsModule(listing[i], name)
        invariant i <= |listing|
        invariant forall j :: 0 <= j < i ==> !IsModule(listing[j], name)
      {
        i := i + 1;
      }
    }

    /** `run_migrations --rollback name`: it succeeds exactly when the migration is recorded,
        its file exists and its writes fit. A rollback interrupted part-way stays recorded
        and ends, when repeated, where it would have ended. */
    method Rollback(name: string, listing: Listing) returns (ok: bool)
      requires DistinctKeys(listing) && Balanced()
      modifies this
      ensures forall f :: f in listing && f.key == name + ".py" && name in old(applied) ==>
        && (ok <==> old(budget) >= UndoWork(f.value, old(colls)) + 1)
        && Down(f.value, colls) == Down(f.value, old(colls))
        && (ok ==> colls == Down(f.value, old(colls)))
      ensures ok ==> name in old(applied) && exists f :: f in listing && f.key == name + ".py"
      ensures applied == if ok then old(applied) - {name} else old(applied)
      ensures name !in old(applied) || !(exists f :: f in listing && f.key == name + ".py") ==> colls == old(colls)
      ensures Balanced()
    {
      if name !in applied {
        return false;
      }
      var i := FindModule(name, listing);
      if i == |listing| {
        return false;
      }
      assert listing[i] in listing;
      forall f | f in listing && IsModule(f, name)
        ensures f == listing[i]
      {
        var j :| 0 <= j < |listing| && listing[j] == f;
        OneModule(listing, i, j, name);
      }
      ok := MigrateDown(listing[i].value);
      if ok {
        ok := Write();
      }
      if ok {
        applied := applied - {name};
        downs := downs[name := Count(downs, name) + 1];
      }
    }

    /** Main result on interruption: a run that is interrupted and restarted any number of
        times, after any write each time, ends with the same documents and the same ledger
        as one undisturbed run, and it ends exactly when the writes of all the attempts
        together are as many as that run needs. */
    method RestartUntilDone(listing: Listing, budgets: seq<nat>) returns (done: bool)
      requires DistinctKeys(listing) && Balanced()
      modifies this
      ensures done ==> (colls, applied) == RunAll(MigrationFiles(listing), old(colls), old(applied))
      ensures done ==> forall n :: n in applied <==> n in old(applied) || HasMigration(listing, n)
      ensures done <==>
        budgets != [] && Sum(budgets) >= Outstanding(MigrationFiles(listing), old(colls), old(applied))
      ensures RunAll(MigrationFiles(listing), colls, applied) == RunAll(MigrationFiles(listing), old(colls), old(applied))
      ensures Balanced()
    {
      ghost var files := MigrationFiles(listing);
      ghost var goal := RunAll(files, colls, applied);
      ghost var need := Outstanding(files, colls, applied);
      done := false;
      hide RunAll, Outstanding, MigrationFiles, Names, Pending, HasMigration, Less, PendingUpdates, Up;
      for i := 0 to |budgets|
        invariant RunAll(files, colls, applied) == goal && Balanced()
        invariant old(applied) <= applied && forall n :: n in applied ==> n in old(applied) || HasMigration(listing, n)
        invariant Outstanding(files, colls, applied) + Sum(budgets[..i]) == need
        invariant i > 0 ==> Outstanding(files, colls, applied) > 0
      {
        assert budgets[..i + 1][..i] == budgets[..i];
        budget := budgets[i];
        var r := RunMigrations(listing);
        if r.Completed? {
          SumGrows(budgets, i + 1);
          return true;
        }
      }
      assert budgets[..|budgets|] == budgets;
    }
  }
}
