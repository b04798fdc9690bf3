/** `detect_db_changes`: which model fields the database lacks, judged by the first
    document of each collection, and the migration generated from that. */
module SchemaDetection {
  import opened TextOrder
  import opened Json
  import opened MigrationUpdates

  /** Per collection, the model's fields with their defaults (None: no default). */
  type Schemas = map<string, map<string, Option<Json>>>

  // ---- detection ----

  /** Field names of `find_one()`, the first document. */
  function SampleFields(docs: seq<Doc>): set<string> {
    if docs == [] then {} else docs[0].Keys
  }

  function ModelFields(schemas: Schemas, coll: string): set<string> {
    if coll in schemas then schemas[coll].Keys - {"id"} else {}
  }

  predicate IsSystem(coll: string) {
    |coll| >= 7 && coll[..7] == "system."
  }

  function Missing(schemas: Schemas, db: Collections, coll: string): set<string>
    requires coll in db
  {
    ModelFields(schemas, coll) - SampleFields(db[coll])
  }

  /** Some document lacks some missing field. */
  predicate HasDocumentsToUpdate(docs: seq<Doc>, missing: set<string>) {
    exists i :: 0 <= i < |docs| && !(missing <= docs[i].Keys)
  }

  predicate IsDetected(schemas: Schemas, db: Collections, coll: string) {
    && coll in schemas && coll in db && !IsSystem(coll)
    && Missing(schemas, db, coll) != {} && HasDocumentsToUpdate(db[coll], Missing(schemas, db, coll))
  }

  /** What `detect_missing_fields` returns. */
  function Detected(schemas: Schemas, db: Collections): map<string, set<string>> {
    map coll | coll in schemas && IsDetected(schemas, db, coll) :: Missing(schemas, db, coll)
  }

  /** `count_documents({field: {$exists: False}}) > 0` for some missing field, with early exit. */
  method AnyToUpdate(docs: seq<Doc>, missing: set<string>) returns (found: bool)
    ensures found == HasDocumentsToUpdate(docs, missing)
  {
    var left := missing;
    while left != {}
      invariant left <= missing
      invariant forall i :: 0 <= i < |docs| ==> missing - left <= docs[i].Keys
      decreases left
    {
      var field :| field in left;
      left := left - {field};
      var count := 0;
      for i := 0 to |docs|
        invariant 0 <= count && (count > 0 <==> exists j :: 0 <= j < i && field !in docs[j])
      {
        if field !in docs[i] { count := count + 1; }
      }
      if count > 0 {
        return true;
      }
    }
    return false;
  }

  /** Where the first document lacks a model field, it is itself to be updated. */
  lemma DetectedIff(schemas: Schemas, db: Collections, c: string)
    ensures c in Detected(schemas, db) <==>
      && c in schemas && c in db && !("system." <= c) && db[c] != []
      && exists f :: f in schemas[c] && f != "id" && f !in db[c][0]
    ensures c in Detected(schemas, db) ==>
      forall f :: f in Detected(schemas, db)[c] <==> f in schemas[c] && f != "id" && f !in db[c][0]
  {
    if c in schemas && c in db && db[c] != [] {
      assert forall f :: f in Missing(schemas, db, c) <==> f in schemas[c] && f != "id" && f !in db[c][0];
      if Missing(schemas, db, c) != {} {
        var f :| f in Missing(schemas, db, c);
        assert !(Missing(schemas, db, c) <= db[c][0].Keys);
      }
    }
  }

  lemma DetectedMeans(schemas: Schemas, db: Collections)
    ensures forall c :: c in Detected(schemas, db) <==>
      && c in schemas && c in db && !("system." <= c) && db[c] != []
      && exists f :: f in schemas[c] && f != "id" && f !in db[c][0]
    ensures forall c, f :: c in Detected(schemas, db) ==>
      (f in Detected(schemas, db)[c] <==> f in schemas[c] && f != "id" && f !in db[c][0])
  {
    hide Detected;
    forall c
      ensures c in Detected(schemas, db) <==>
        && c in schemas && c in db && !("system." <= c) && db[c] != []
        && exists f :: f in schemas[c] && f != "id" && f !in db[c][0]
      ensures c in Detected(schemas, db) ==>
        forall f :: f in Detected(schemas, db)[c] <==> f in schemas[c] && f != "id" && f !in db[c][0]
    {
      DetectedIff(schemas, db, c);
    }
  }

  /** The detected collections exist in the model and in the database and have a first
      document that lacks a model field; they are detected with exactly the fields it lacks. */
  method DetectMissingFields(schemas: Schemas, db: Collections) returns (missingFields: map<string, set<string>>)
    ensures missingFields == Detected(schemas, db)
    ensures forall c :: c in missingFields <==>
      && c in schemas && c in db && !("system." <= c) && db[c] != []
      && exists f :: f in schemas[c] && f != "id" && f !in db[c][0]
    ensures forall c, f :: c in missingFields ==>
      (f in missingFields[c] <==> f in schemas[c] && f != "id" && f !in db[c][0])
  {
    hide HasDocumentsToUpdate, Missing, IsSystem;
    DetectedMeans(schemas, db);
    missingFields := map[];
    var left := schemas.Keys;
    while left != {}
      invariant left <= schemas.Keys
      invariant missingFields == map coll | coll in schemas && coll !in left && IsDetected(schemas, db, coll)
                                     :: Missing(schemas, db, coll)
      decreases left
    {
      var coll :| coll in left;
      left := left - {coll};
      if coll in db && !IsSystem(coll) {
        var missing := Missing(schemas, db, coll);
        if missing != {} {
          var toUpdate := AnyToUpdate(db[coll], missing);
          if toUpdate {
            missingFields := missingFields[coll := missing];
          }
        }
      }
    }
  }

  // ---- generation ----

  /** Container defaults are generated empty; a missing default is None. */
  function GeneratedDefault(schemas: Schemas, coll: string, field: string): Json {
    if coll in schemas && field in schemas[coll] && schemas[coll][field].Some? then
      match schemas[coll][field].value
      case Arr(_) => Arr([])
      case Obj(_) => Obj([])
      case v => v
    else Null
  }

  ghost predicate NoRepeats(us: seq<AddField>) {
    forall i, j :: 0 <= i < j < |us| ==> us[i].coll != us[j].coll || us[i].field != us[j].field
  }

  /** The updates add exactly the detected fields, each once and with its generated default. */
  ghost predicate Adds(us: seq<AddField>, schemas: Schemas, missing: map<string, set<string>>) {
    && (forall c, f :: Targets(us, c, f) <==> c in missing && f in missing[c] && f != "id")
    && NoRepeats(us)
    && forall k :: 0 <= k < |us| ==> us[k].value == GeneratedDefault(schemas, us[k].coll, us[k].field)
  }

  lemma TargetsSnoc(us: seq<AddField>, u: AddField, c: string, f: string)
    ensures Targets(us + [u], c, f) <==> Targets(us, c, f) || (u.coll == c && u.field == f)
  {
    var more := us + [u];
    if Targets(us, c, f) {
      var k :| 0 <= k < |us| && us[k].coll == c && us[k].field == f;
      assert more[k] == us[k];
    }
    assert more[|us|] == u;
    if Targets(more, c, f) {
      var k :| 0 <= k < |more| && more[k].coll == c && more[k].field == f;
      assert k < |us| ==> us[k] == more[k];
    }
  }

  lemma TargetsIff(us: seq<AddField>, c: string, f: string)
    ensures Targets(us, c, f) <==> exists u :: u in us && u.coll == c && u.field == f
  {
    if Targets(us, c, f) {
      var k :| 0 <= k < |us| && us[k].coll == c && us[k].field == f;
      assert us[k] in us;
    }
  }

  /** The updates of the generated file, collection by collection, field by field. */
  method GenerateUpdates(missing: map<string, set<string>>, schemas: Schemas) returns (us: seq<AddField>)
    ensures Adds(us, schemas, missing)
    ensures forall u :: u in us ==> u.coll in missing && u.field in missing[u.coll] && u.field != "id"
    ensures forall c, f :: c in missing && f in missing[c] && f != "id" ==>
      exists u :: u in us && u.coll == c && u.field == f
    ensures forall i, j :: 0 <= i < j < |us| ==> us[i].coll != us[j].coll || us[i].field != us[j].field
    ensures forall u :: u in us && u.coll in schemas && u.field in schemas[u.coll] && schemas[u.coll][u.field].Some? ==>
      var default := schemas[u.coll][u.field].value;
      u.value == if default.Arr? then Arr([]) else if default.Obj? then Obj([]) else default
    ensures forall u :: u in us && (u.coll in schemas && u.field in schemas[u.coll] ==> schemas[u.coll][u.field].None?) ==>
      u.value == Null
  {
    us := [];
    var colls := missing.Keys;
    while colls != {}
      invariant colls <= missing.Keys
      invariant forall c, f :: Targets(us, c, f) <==> c in missing && c !in colls && f in missing[c] && f != "id"
      invariant NoRepeats(us)
      invariant forall k :: 0 <= k < |us| ==> us[k].value == GeneratedDefault(schemas, us[k].coll, us[k].field)
      decreases colls
    {
      var coll :| coll in colls;
      colls := colls - {coll};
      var fields := missing[coll] - {"id"};
      while fields != {}
        invariant fields <= missing[coll] - {"id"}
        invariant forall c, f :: Targets(us, c, f) <==>
          c in missing && c !in colls && f in missing[c] && f != "id" && !(c == coll && f in fields)
        invariant NoRepeats(us)
        invariant forall k :: 0 <= k < |us| ==> us[k].value == GeneratedDefault(schemas, us[k].coll, us[k].field)
        decreases fields
      {
        var field :| field in fields;
        fields := fields - {field};
        var u := AddField(coll, field, GeneratedDefault(schemas, coll, field));
        forall c, f
          ensures Targets(us + [u], c, f) <==> Targets(us, c, f) || (coll == c && field == f)
        {
          TargetsSnoc(us, u, c, f);
        }
        assert !Targets(us, coll, field);
        us := us + [u];
      }
    }
    forall u | u in us
      ensures u.coll in missing && u.field in missing[u.coll] && u.field != "id"
    {
      TargetsIff(us, u.coll, u.field);
    }
    forall c, f | c in missing && f in missing[c] && f != "id"
      ensures exists u :: u in us && u.coll == c && u.field == f
    {
      TargetsIff(us, c, f);
    }
  }

  // ---- what detection does and does not see ----

  lemma {:induction false} UpAdds(us: seq<AddField>, db: Collections, c: string, i: nat, f: string)
    requires c in db && i < |db[c]| && Targets(us, c, f)
    ensures c in Up(us, db) && i < |Up(us, db)[c]| && f in Up(us, db)[c][i]
  {
    TargetsTail(us, c, f);
    var mid := UpOne(us[0], db);
    if us[0].coll == c && us[0].field == f {
      assert f in mid[c][i];
      UpShape(us[1..], mid, c, i);
    } else {
      UpAdds(us[1..], mid, c, i, f);
    }
  }

  /** Detection finds nothing exactly when, in every model collection that exists, the
      first document (if any) has every model field. The other documents are not looked
      at unless the first one lacks something. */
  lemma DetectsNothingIff(schemas: Schemas, db: Collections)
    ensures Detected(schemas, db) == map[] <==>
      forall c :: c in schemas && c in db && !IsSystem(c) && db[c] != [] ==> ModelFields(schemas, c) <= db[c][0].Keys
  {
    forall c | c in schemas && c in db && !IsSystem(c)
      ensures IsDetected(schemas, db, c) <==> db[c] != [] && !(ModelFields(schemas, c) <= db[c][0].Keys)
    {
      if db[c] != [] && !(ModelFields(schemas, c) <= db[c][0].Keys) {
        var f :| f in ModelFields(schemas, c) && f !in db[c][0].Keys;
        assert f in Missing(schemas, db, c);
        assert !(Missing(schemas, db, c) <= db[c][0].Keys);
      }
      if db[c] != [] && ModelFields(schemas, c) <= db[c][0].Keys {
        assert Missing(schemas, db, c) == {};
      }
    }
    if Detected(schemas, db) == map[] {
      forall c | c in schemas && c in db && !IsSystem(c) && db[c] != []
        ensures ModelFields(schemas, c) <= db[c][0].Keys
      {
        assert c !in Detected(schemas, db);
      }
    }
  }

  /** Main result on detection: after running the updates generated from a detection,
      the next detection finds nothing. */
  lemma DetectionSettles(schemas: Schemas, db: Collections, us: seq<AddField>)
    requires Adds(us, schemas, Detected(schemas, db))
    ensures Detected(schemas, Up(us, db)) == map[]
  {
    var after: Collections := Up(us, db);
    UpKeys(us, db);
    forall c: string | c in schemas && c in after && !IsSystem(c) && after[c] != []
      ensures ModelFields(schemas, c) <= after[c][0].Keys
    {
      UpShape(us, db, c, 0);
      forall f | f in ModelFields(schemas, c)
        ensures f in after[c][0].Keys
      {
        if f !in db[c][0] {
          assert f in Missing(schemas, db, c);
          assert !(Missing(schemas, db, c) <= db[c][0].Keys);
          assert IsDetected(schemas, db, c);
          assert Targets(us, c, f);
          UpAdds(us, db, c, 0, f);
        }
      }
    }
    DetectsNothingIff(schemas, after);
  }

  // ---- numbering of the generated file ----

  /** `f"{n:03d}"`. */
  function NumberText(n: nat): string {
    if n < 1000 then Pad(n, 3) else Decimal(n)
  }

  function UnderscoreAt(s: string): (i: nat)
    ensures i <= |s|
    ensures i < |s| ==> s[i] == '_'
    ensures forall j :: 0 <= j < i ==> s[j] != '_'
  {
    if s == "" || s[0] == '_' then 0 else 1 + UnderscoreAt(s[1..])
  }

  /** The number a file name starts with, if its part before the first `_` is all digits. */
  function FileNumber(file: string): Option<int> {
    ReadNat(file[..UnderscoreAt(file)])
  }

  /** A number is the digits before the first underscore, or the whole name if it is digits. */
  lemma FileNumberIff(file: string, n: int)
    ensures FileNumber(file) == Some(n) <==>
      exists k :: 0 <= k <= |file| && AllDigits(file[..k]) && (k < |file| ==> file[k] == '_') && ReadNat(file[..k]) == Some(n)
  {
    hide ReadNat;
    var at := UnderscoreAt(file);
    ReadNatIff(file[..at]);
    forall k | 0 <= k <= |file| && AllDigits(file[..k]) && (k < |file| ==> file[k] == '_')
      ensures k == at
    {
      assert forall i :: 0 <= i < k ==> file[i] == file[..k][i];
    }
  }

  lemma {:induction false} DecimalIsPad(n: nat)
    ensures Decimal(n) == Pad(n, |Decimal(n)|) && n < Pow10(|Decimal(n)|)
  {
    if n < 10 {
      assert Pad(n, 1) == Pad(0, 0) + [Digit(n)];
    } else {
      DecimalIsPad(n / 10);
    }
  }

  lemma ThreeDigits()
    ensures Pow10(3) == 1000 && |Decimal(1000)| == 4
  {
    assert Pow10(1) == 10;
    assert Pow10(2) == 100;
    assert |Decimal(10)| == 2;
    assert |Decimal(100)| == 3;
  }

  lemma {:induction false} DecimalGrows(m: nat, n: nat)
    requires m <= n
    ensures |Decimal(m)| <= |Decimal(n)|
  {
    if m >= 10 {
      DecimalGrows(m / 10, n / 10);
    }
  }

  lemma NumberTextIsPad(n: nat)
    ensures NumberText(n) == Pad(n, |NumberText(n)|) && n < Pow10(|NumberText(n)|)
    ensures |NumberText(n)| >= 3 && (|NumberText(n)| == 3 <==> n <= 999)
  {
    ThreeDigits();
    if n >= 1000 {
      DecimalIsPad(n);
      DecimalGrows(1000, n);
    }
  }

  /** The three-digit form: the digits of n, zero-padded to three, longer only without a
      leading zero. */
  lemma NumberTextReads(n: nat)
    ensures AllDigits(NumberText(n)) && ReadNat(NumberText(n)) == Some(n)
    ensures |NumberText(n)| == 3 || (|NumberText(n)| > 3 && NumberText(n)[0] != '0')
  {
    hide Pad, Decimal, ReadNat, Pow10;
    NumberTextIsPad(n);
    ReadPad(n, |NumberText(n)|);
    ReadNatIff(NumberText(n));
    NoLeadingZero(n);
  }

  function NewFile(n: nat, name: string): string {
    NumberText(n) + "_" + name
  }

  /** The new file has the new number. */
  lemma NewFileNumber(n: nat, name: string)
    ensures FileNumber(NewFile(n, name)) == Some(n)
  {
    hide NumberText, ReadNat;
    NumberTextReads(n);
    var k := |NumberText(n)|;
    var file := NewFile(n, name);
    assert file[..k] == NumberText(n) && file[k] == '_';
    FileNumberIff(file, n);
  }

  /** `max([...]) + 1`, or 1 for an empty directory; None is the ValueError of `max([])`. */
  method NextNumber(files: seq<string>) returns (next: Option<int>)
    ensures files == [] ==> next == Some(1)
    ensures files != [] ==> (next.None? <==> forall i :: 0 <= i < |files| ==> FileNumber(files[i]).None?)
    ensures files != [] && next.Some? ==>
      && (exists i :: 0 <= i < |files| && FileNumber(files[i]) == Some(next.value - 1))
      && (forall i :: 0 <= i < |files| && FileNumber(files[i]).Some? ==> FileNumber(files[i]).value < next.value)
  {
    if files == [] {
      return Some(1);
    }
    next := None;
    for k := 0 to |files|
      invariant next.None? <==> forall i :: 0 <= i < k ==> FileNumber(files[i]).None?
      invariant next.Some? ==> exists i :: 0 <= i < k && FileNumber(files[i]) == Some(next.value - 1)
      invariant next.Some? ==>
        forall i :: 0 <= i < k && FileNumber(files[i]).Some? ==> FileNumber(files[i]).value < next.value
    {
      var number := FileNumber(files[k]);
      if number.Some? && (next.None? || next.value <= number.value) {
        next := Some(number.value + 1);
      }
    }
  }

  lemma {:induction false} PadLess(m: nat, n: nat, w: nat, x: string, y: string)
    requires m < n < Pow10(w)
    ensures Less(Pad(m, w) + x, Pad(n, w) + y)
  {
    var (a, b) := (Pad(m, w) + x, Pad(n, w) + y);
    assert a == Pad(m / 10, w - 1) + ([Digit(m % 10)] + x);
    assert b == Pad(n / 10, w - 1) + ([Digit(n % 10)] + y);
    if m / 10 < n / 10 {
      PadLess(m / 10, n / 10, w - 1, [Digit(m % 10)] + x, [Digit(n % 10)] + y);
    } else {
      LessAtFirstDifference(a, b, w - 1);
    }
  }

  /** A numbered file carries its number in the three-digit form, as generated. */
  ghost predicate Padded(file: string, n: nat) {
    exists rest :: file == NumberText(n) + "_" + rest
  }

  /** Numbers are never shorter than smaller ones. */
  lemma NumberTextGrows(m: nat, n: nat)
    requires m <= n
    ensures |NumberText(m)| <= |NumberText(n)|
  {
    NumberTextIsPad(m);
    NumberTextIsPad(n);
    if m >= 1000 {
      DecimalGrows(m, n);
    }
  }

  /** n without its last d decimal digits. */
  function Leading(n: nat, d: nat): nat {
    if d == 0 then n else Leading(n / 10, d - 1)
  }

  lemma {:induction false} PadPrefix(n: nat, w: nat, v: nat)
    requires v <= w && n < Pow10(w)
    ensures Pad(n, w)[..v] == Pad(Leading(n, w - v), v) && Leading(n, w - v) < Pow10(v)
  {
    if v < w {
      PadPrefix(n / 10, w - 1, v);
      assert Pad(n, w)[..v] == Pad(n / 10, w - 1)[..v];
    } else {
      assert Pad(n, w)[..w] == Pad(n, w);
    }
  }

  lemma {:induction false} PadDigits(n: nat, w: nat, i: nat)
    requires i < w
    ensures IsDigit(Pad(n, w)[i])
  {
    if i < w - 1 {
      PadDigits(n / 10, w - 1, i);
    }
  }

  lemma NotBoth(a: string, b: string)
    requires Less(b, a)
    ensures !Less(a, b)
  {
    if Less(a, b) {
      LessTransitive(a, b, a);
      LessIrreflexive(a);
    }
  }

  /** Where the higher number is longer, its leading digits decide; on a tie the
      underscore of the lower number is greater than any digit. */
  lemma PaddedOrderIff(m: nat, n: nat, v: nat, w: nat, x: string, y: string)
    requires m < n && v <= w && m < Pow10(v) && n < Pow10(w)
    ensures Less(Pad(m, v) + ("_" + x), Pad(n, w) + ("_" + y)) <==> m < Leading(n, w - v)
  {
    hide Less, Pad, Pow10;
    var head := Leading(n, w - v);
    var (a, b) := (Pad(m, v) + ("_" + x), Pad(n, w) + ("_" + y));
    PadPrefix(n, w, v);
    var rest := Pad(n, w)[v..] + ("_" + y);
    assert b == Pad(head, v) + rest;
    if m < head {
      PadLess(m, head, v, "_" + x, rest);
    } else if head < m {
      PadLess(head, m, v, rest, "_" + x);
      NotBoth(a, b);
    } else {
      assert v < w;
      PadDigits(n, w, v);
      assert a[v] == '_' && b[v] == Pad(n, w)[v];
      LessAtFirstDifference(b, a, v);
      NotBoth(a, b);
    }
  }

  /** The file numbered m comes before the new file in the runner's order. */
  lemma SortsBeforeIff(file: string, m: nat, next: nat, name: string)
    requires Padded(file, m) && m < next
    ensures |NumberText(m)| <= |NumberText(next)|
    ensures Less(file, NewFile(next, name)) <==> m < Leading(next, |NumberText(next)| - |NumberText(m)|)
  {
    hide Less, Pad, Decimal, Pow10, Leading;
    NumberTextIsPad(m);
    NumberTextIsPad(next);
    NumberTextGrows(m, next);
    var rest :| file == NumberText(m) + "_" + rest;
    hide NumberText;
    var (v, w) := (|NumberText(m)|, |NumberText(next)|);
    PaddedOrderIff(m, next, v, w, rest, name);
    assert file == Pad(m, v) + ("_" + rest);
    assert NewFile(next, name) == Pad(next, w) + ("_" + name);
  }

  ghost predicate AllPadded(files: seq<string>, next: nat) {
    forall i :: 0 <= i < |files| && FileNumber(files[i]).Some? ==>
      0 <= FileNumber(files[i]).value < next && Padded(files[i], FileNumber(files[i]).value)
  }

  /** Main result on numbering: the new file sorts after an existing numbered file exactly
      when the new number, cut to as many digits, is still the greater one. */
  lemma NewFileSortsLastIff(files: seq<string>, next: nat, name: string)
    requires AllPadded(files, next)
    ensures forall i :: 0 <= i < |files| && FileNumber(files[i]).Some? ==>
      && FileNumber(files[i]).value >= 0 && |NumberText(FileNumber(files[i]).value)| <= |NumberText(next)|
      && (Less(files[i], NewFile(next, name)) <==>
          FileNumber(files[i]).value
          < Leading(next, |NumberText(next)| - |NumberText(FileNumber(files[i]).value)|))
  {
    hide NumberText, FileNumber, NewFile, Padded, Less, Leading;
    forall i | 0 <= i < |files| && FileNumber(files[i]).Some?
      ensures FileNumber(files[i]).value >= 0 && |NumberText(FileNumber(files[i]).value)| <= |NumberText(next)|
      ensures Less(files[i], NewFile(next, name)) <==>
        FileNumber(files[i]).value < Leading(next, |NumberText(next)| - |NumberText(FileNumber(files[i]).value)|)
    {
      SortsBeforeIff(files[i], FileNumber(files[i]).value, next, name);
    }
  }

  lemma ThreeDigitsSortBefore(file: string, m: nat, next: nat, name: string)
    requires Padded(file, m) && m < next <= 999
    ensures Less(file, NewFile(next, name))
  {
    hide NumberText, NewFile, Padded, Less;
    NumberTextIsPad(m);
    NumberTextIsPad(next);
    SortsBeforeIff(file, m, next, name);
  }

  lemma ThousandText()
    ensures |NumberText(1000)| == 4
  {
    ThreeDigits();
  }

  lemma ThousandSortsBefore999(file: string, name: string)
    requires Padded(file, 999)
    ensures !Less(file, NewFile(1000, name))
  {
    hide NumberText, NewFile, Padded, Less;
    NumberTextIsPad(999);
    assert |NumberText(1000)| == 4 by { ThousandText(); }
    SortsBeforeIff(file, 999, 1000, name);
    assert Leading(1000, 1) == 100;
  }

  /** Up to 999 it therefore sorts after all of them; 1000 sorts before 999. */
  lemma ThreeDigitsSortLast(files: seq<string>, next: nat, name: string)
    requires AllPadded(files, next) && next <= 1000
    requires exists i :: 0 <= i < |files| && FileNumber(files[i]) == Some(next - 1)
    ensures (forall i :: 0 <= i < |files| && FileNumber(files[i]).Some? ==> Less(files[i], NewFile(next, name)))
      <==> next <= 999
  {
    hide NumberText, FileNumber, NewFile, Padded, Less;
    if next <= 999 {
      forall i | 0 <= i < |files| && FileNumber(files[i]).Some?
        ensures Less(files[i], NewFile(next, name))
      {
        ThreeDigitsSortBefore(files[i], FileNumber(files[i]).value, next, name);
      }
    } else {
      var i :| 0 <= i < |files| && FileNumber(files[i]) == Some(next - 1);
      ThousandSortsBefore999(files[i], name);
    }
  }
}
