/** The update history of a watched document (`_diff_cmp`, `_compute_diff`, `DAO.update`,
    `DAO.upsert`, `_sanitize_for_mongo`): what the recorded maps are good for after any
    number of updates. */
module UpdateHistory {
  import opened Json
  import opened AuditRow

  // ---- values, and how the diff compares them ----

  /** The `json.dumps` text of a dict or a list, cut at the naive or UTC datetimes inside. */
  datatype Dump = Text(text: string) | Slot(before: string, t: DateTime, rest: Dump)

  /** A naive or UTC datetime is a Moment; Abroad is one aware in another zone, with its
      wall clock; Nested is a dict or a list. Everything else enters with its `str`; values
      of different kinds can share it. */
  datatype Value =
    | PyNone
    | Moment(t: DateTime)
    | Abroad(wall: DateTime, offsetMinutes: int)
    | Nested(dump: Dump)
    | Other(kind: string, text: string)

  /** `v.replace(tzinfo=None).isoformat()`. */
  function NaiveIso(t: DateTime): string {
    IsoUtc(t)[..|IsoUtc(t)| - |"+00:00"|]
  }

  lemma IsoEnd(t: DateTime)
    ensures IsoUtc(t)[|IsoUtc(t)| - 6..] == "+00:00"
  {
    var f := Fraction(t.micro);
    assert f[|f| - 6..] == "+00:00";
    assert IsoUtc(t)[|IsoUtc(t)| - |f|..] == f;
  }

  lemma FixedLength(t: DateTime)
    ensures |NaiveIso(t)| == if t.micro == 0 then 19 else 26
    ensures IsoUtc(t) == NaiveIso(t) + "+00:00"
    ensures NaiveIso(t)[10] == 'T'
  {
    IsoEnd(t);
    assert |IsoUtc(t)| == if t.micro == 0 then 25 else 32;
  }

  /** `t.isoformat()`, with the offset when there is one. */
  function Isoformat(t: DateTime): (r: string)
    ensures |r| > 10 && r[10] == 'T'
  {
    FixedLength(t);
    if t.zone == Naive then NaiveIso(t) else IsoUtc(t)
  }

  /** `str(t)` puts a space where `isoformat` has its T. */
  function StrTime(t: DateTime): string {
    Isoformat(t)[10 := ' ']
  }

  /** `json.dumps(v, sort_keys=True, default=str)`. */
  function DumpText(d: Dump): string {
    match d
    case Text(text) => text
    case Slot(before, t, rest) => before + StrTime(t) + DumpText(rest)
  }

  /** The comparison text of a value. */
  function DiffCmp(v: Value): Option<string> {
    match v
    case PyNone => None
    case Moment(t) => Some(NaiveIso(t))
    case Abroad(wall, _) => Some(NaiveIso(wall))
    case Nested(dump) => Some(DumpText(dump))
    case Other(_, text) => Some(text)
  }

  /** Two datetimes compare equal exactly when their wall clocks do. */
  lemma NaiveIsoIff(t: DateTime, u: DateTime)
    requires ValidTime(t) && ValidTime(u)
    ensures NaiveIso(t) == NaiveIso(u) <==> SameInstant(t, u)
  {
    hide ValidTime, SameInstant;
    assert IsoUtc(t) == NaiveIso(t) + "+00:00" by { IsoEnd(t); }
    assert IsoUtc(u) == NaiveIso(u) + "+00:00" by { IsoEnd(u); }
    IsoUtcIff(t, u);
  }

  /** `isoformat` is the naive text with the offset of an aware datetime, and `str` is the
      same text with a space for the T. */
  lemma TimeTexts(t: DateTime)
    ensures Isoformat(t) == NaiveIso(t) + if t.zone == Naive then "" else "+00:00"
    ensures |StrTime(t)| == |Isoformat(t)| && StrTime(t)[10] == ' '
    ensures StrTime(t)[..10] == Isoformat(t)[..10] && StrTime(t)[11..] == Isoformat(t)[11..]
  {
    FixedLength(t);
    hide NaiveIso, IsoUtc;
    assert t.zone == Naive ==> NaiveIso(t) + "" == NaiveIso(t);
  }

  /** The values are of one kind and differ as the diff must see it: one of them is None, or
      their texts or their wall clocks differ. */
  predicate Differ(v: Value, w: Value) {
    match (v, w)
    case (PyNone, _) => !w.PyNone?
    case (_, PyNone) => true
    case (Nested(Text(x)), Nested(Text(y))) => x != y
    case (Other(_, x), Other(_, y)) => x != y
    case (Moment(t), Moment(u)) => ValidTime(t) && ValidTime(u) && t.(zone := Naive) != u.(zone := Naive)
    case (Moment(t), Abroad(u, _)) => ValidTime(t) && ValidTime(u) && t.(zone := Naive) != u.(zone := Naive)
    case (_, _) => false
  }

  lemma DifferentValuesCompareUnequal(v: Value, w: Value)
    requires Differ(v, w)
    ensures DiffCmp(v) != DiffCmp(w)
  {
    hide NaiveIso, ValidTime;
    match (v, w)
    case (Moment(t), Moment(u)) => NaiveIsoIff(t, u);
    case (Moment(t), Abroad(u, _)) => NaiveIsoIff(t, u);
    case (_, _) =>
  }

  /** What compares equal although it differs: nothing but None compares like None, and
      texts of dicts, lists and other values compare as they read. */
  lemma ComparesAlikeIff(v: Value, x: string, y: string, kind: string, kind': string)
    ensures DiffCmp(v) == DiffCmp(PyNone) <==> v.PyNone?
    ensures DiffCmp(Nested(Text(x))) == DiffCmp(Nested(Text(y))) <==> x == y
    ensures DiffCmp(Other(kind, x)) == DiffCmp(Other(kind', y)) <==> x == y
    ensures DiffCmp(Nested(Text(x))) == DiffCmp(Other(kind, y)) <==> x == y
  {
  }

  lemma CancelAround(before: string, a: string, b: string, rest: string)
    requires before + a + rest == before + b + rest && |a| == |b|
    ensures a == b
  {
    var n := |before|;
    assert a == (before + a + rest)[n..n + |a|] && b == (before + b + rest)[n..n + |b|];
  }

  lemma SameButAt(a: string, b: string, i: nat)
    requires i < |a| == |b| && a[..i] == b[..i] && a[i] == b[i] && a[i + 1..] == b[i + 1..]
    ensures a == b
  {
    assert a == a[..i] + [a[i]] + a[i + 1..] && b == b[..i] + [b[i]] + b[i + 1..];
  }

  lemma StrTimeShows(t: DateTime, u: DateTime)
    requires ValidTime(t) && ValidTime(u) && t.zone == u.zone && |NaiveIso(t)| == |NaiveIso(u)|
    requires StrTime(t) == StrTime(u)
    ensures t == u
  {
    TimeTexts(t);
    TimeTexts(u);
    NaiveIsoIff(t, u);
    SameButAt(Isoformat(t), Isoformat(u), 10);
    hide IsoUtc, Isoformat, StrTime, ValidTime;
    assert NaiveIso(t) == Isoformat(t)[..|NaiveIso(t)|] && NaiveIso(u) == Isoformat(u)[..|NaiveIso(u)|];
  }

  /** A datetime inside a dict or a list shows in its text, and so does what follows it. */
  lemma SlotShows(before: string, t: DateTime, u: DateTime, rest: Dump, other: Dump)
    requires ValidTime(t) && ValidTime(u) && t.zone == u.zone && |NaiveIso(t)| == |NaiveIso(u)|
    ensures DumpText(Slot(before, t, rest)) == DumpText(Slot(before, u, rest)) <==> t == u
    ensures DumpText(Slot(before, t, rest)) == DumpText(Slot(before, t, other)) <==> DumpText(rest) == DumpText(other)
  {
    assert DumpText(Slot(before, t, rest)) == before + StrTime(t) + DumpText(rest);
    assert DumpText(Slot(before, u, rest)) == before + StrTime(u) + DumpText(rest);
    assert DumpText(Slot(before, t, other)) == before + StrTime(t) + DumpText(other);
    hide Isoformat, StrTime, NaiveIso, ValidTime, DumpText;
    if DumpText(Slot(before, t, rest)) == DumpText(Slot(before, t, other)) {
      var n := |before + StrTime(t)|;
      assert DumpText(rest) == (before + StrTime(t) + DumpText(rest))[n..];
      assert DumpText(other) == (before + StrTime(t) + DumpText(other))[n..];
    }
    if DumpText(Slot(before, t, rest)) == DumpText(Slot(before, u, rest)) {
      assert |StrTime(t)| == |StrTime(u)| by {
        TimeTexts(t);
        TimeTexts(u);
      }
      CancelAround(before, StrTime(t), StrTime(u), DumpText(rest));
      StrTimeShows(t, u);
    }
  }

  // ---- documents, the diff and its entry ----

  type Doc = map<string, Value>

  const SKIPPED: set<string> := {"_id", "id", "updated_at", "created_at"}

  /** `doc.get(key)`. */
  function Get(d: Doc, k: string): Value {
    if k in d then d[k] else PyNone
  }

  function Changed(d: Doc, fields: Doc): set<string> {
    set k | k in fields && k !in SKIPPED && DiffCmp(Get(d, k)) != DiffCmp(fields[k])
  }

  function DiffBefore(d: Doc, fields: Doc): Doc {
    map k | k in Changed(d, fields) :: Get(d, k)
  }

  function DiffAfter(d: Doc, fields: Doc): Doc {
    map k | k in Changed(d, fields) :: fields[k]
  }

  method ComputeDiff(existing: Doc, fields: Doc) returns (before: Doc, after: Doc)
    ensures before == DiffBefore(existing, fields) && after == DiffAfter(existing, fields)
    ensures before.Keys == after.Keys
    ensures forall k :: k in after <==> k in fields && k !in SKIPPED && DiffCmp(Get(existing, k)) != DiffCmp(fields[k])
  {
    hide DiffCmp;
    before, after := map[], map[];
    var left := fields.Keys;
    while left != {}
      invariant left <= fields.Keys
      invariant before.Keys == after.Keys == Changed(existing, fields) - left
      invariant forall k :: k in after ==> after[k] == fields[k] && before[k] == Get(existing, k)
      decreases left
    {
      var k :| k in left;
      left := left - {k};
      if k !in SKIPPED {
        var oldValue := Get(existing, k);
        if DiffCmp(oldValue) != DiffCmp(fields[k]) {
          before, after := before[k := oldValue], after[k := fields[k]];
        }
      }
    }
  }

  // ---- the database ----

  function StoredDump(d: Dump): Dump {
    match d
    case Text(_) => d
    case Slot(before, t, rest) => Slot(before, StoredTime(t, Naive), StoredDump(rest))
  }

  /** The database as what it gives back for a value it was given: None and what came from
      it unchanged, a datetime, also inside a dict or a list, in whole milliseconds, naive
      and in UTC. */
  ghost predicate Database(store: Value -> Value) {
    && store(PyNone) == PyNone
    && (forall v :: store(store(v)) == store(v))
    && (forall v :: !store(v).Abroad?)
    && (forall t :: store(Moment(t)) == Moment(StoredTime(t, Naive)))
    && forall d :: store(Nested(d)) == Nested(StoredDump(d))
  }

  function StoredDoc(store: Value -> Value, d: Doc): Doc {
    map k | k in d :: store(d[k])
  }

  /** `$set`. */
  function SetFields(store: Value -> Value, d: Doc, fields: Doc): Doc {
    d + StoredDoc(store, fields)
  }

  /** A history entry, as read back from the history collection. */
  datatype Entry = Entry(before: Doc, after: Doc)

  /** The history keeps values in a form of its own: `keep` is what it gives back for a
      value that was recorded. */
  function Kept(keep: Value -> Value, d: Doc): Doc {
    map k | k in d :: keep(d[k])
  }

  /** An entry is written only when something changed. */
  function Record(keep: Value -> Value, d: Doc, fields: Doc): seq<Entry> {
    if Changed(d, fields) == {} then []
    else [Entry(Kept(keep, DiffBefore(d, fields)), Kept(keep, DiffAfter(d, fields)))]
  }

  /** The field is written with a value that compares unequal to the one before. */
  predicate FieldChanged(d: Doc, fields: Doc, k: string) {
    && k in fields && k != "_id" && k != "id" && k != "updated_at" && k != "created_at"
    && DiffCmp(if k in d then d[k] else PyNone) != DiffCmp(fields[k])
  }

  /** One entry with the former and the new value of exactly the changed fields, in the form
      the history keeps; none when nothing changed. */
  ghost predicate RecordsChanges(keep: Value -> Value, d: Doc, fields: Doc, entries: seq<Entry>) {
    && |entries| <= 1
    && (entries == [] <==> forall k :: !FieldChanged(d, fields, k))
    && (entries != [] ==> forall k ::
          && (k in entries[0].before <==> FieldChanged(d, fields, k))
          && (k in entries[0].after <==> FieldChanged(d, fields, k))
          && (FieldChanged(d, fields, k) ==>
                && entries[0].before[k] == keep(if k in d then d[k] else PyNone)
                && entries[0].after[k] == keep(fields[k])))
  }

  lemma RecordMeans(keep: Value -> Value, d: Doc, fields: Doc)
    ensures RecordsChanges(keep, d, fields, Record(keep, d, fields))
  {
    hide DiffCmp;
    forall k
      ensures k in Changed(d, fields) <==> FieldChanged(d, fields, k)
    {
      assert k in SKIPPED <==> k == "_id" || k == "id" || k == "updated_at" || k == "created_at";
    }
    assert Changed(d, fields) == {} <==> forall k :: !FieldChanged(d, fields, k);
  }

  /** The field is not one of the four and is written with a different value. */
  predicate MustBeRecorded(d: Doc, fields: Doc, k: string) {
    && k in fields && k != "_id" && k != "id" && k != "updated_at" && k != "created_at"
    && Differ(if k in d then d[k] else PyNone, fields[k])
  }

  /** A write of a different value to a field is recorded. */
  lemma DifferenceIsRecorded(keep: Value -> Value, d: Doc, fields: Doc, k: string)
    requires MustBeRecorded(d, fields, k)
    ensures var h := Record(keep, d, fields);
      && |h| == 1 && k in h[0].before && k in h[0].after
      && h[0].before[k] == keep(if k in d then d[k] else PyNone) && h[0].after[k] == keep(fields[k])
  {
    RecordMeans(keep, d, fields);
    DifferentValuesCompareUnequal(if k in d then d[k] else PyNone, fields[k]);
    hide DiffCmp, Differ, Record;
    assert FieldChanged(d, fields, k);
  }

  function DocAfter(store: Value -> Value, d: Doc, updates: seq<Doc>): Doc
    decreases |updates|
  {
    if updates == [] then d else DocAfter(store, SetFields(store, d, updates[0]), updates[1..])
  }

  function HistoryOf(store: Value -> Value, keep: Value -> Value, d: Doc, updates: seq<Doc>): seq<Entry>
    decreases |updates|
  {
    if updates == [] then []
    else Record(keep, d, updates[0]) + HistoryOf(store, keep, SetFields(store, d, updates[0]), updates[1..])
  }

  /** A history applied forwards, and backwards with the newest entry first. */
  function Replay(d: Doc, history: seq<Entry>): Doc
    decreases |history|
  {
    if history == [] then d else Replay(d + history[0].after, history[1..])
  }

  function Rewind(d: Doc, history: seq<Entry>): Doc
    decreases |history|
  {
    if history == [] then d else Rewind(d, history[1..]) + history[0].before
  }

  ghost predicate AgreeOn(a: Doc, b: Doc, k: string) {
    k !in SKIPPED ==> DiffCmp(Get(a, k)) == DiffCmp(Get(b, k))
  }

  /** The same content but for the skipped keys, an absent key read as None. */
  ghost predicate Agree(a: Doc, b: Doc) {
    forall k :: AgreeOn(a, b, k)
  }

  /** Replaying k is right: the recorded value, or else the value the diff took for
      unchanged, compares like the one that was stored. */
  ghost predicate ReplaysOn(store: Value -> Value, keep: Value -> Value, d: Doc, fields: Doc, k: string) {
    k in fields && k !in SKIPPED ==>
      DiffCmp(store(fields[k])) == DiffCmp(if k in Changed(d, fields) then keep(fields[k]) else fields[k])
  }

  ghost predicate Replays(store: Value -> Value, keep: Value -> Value, d: Doc, fields: Doc) {
    forall k :: ReplaysOn(store, keep, d, fields, k)
  }

  ghost predicate ReplayRun(store: Value -> Value, keep: Value -> Value, d: Doc, updates: seq<Doc>)
    decreases |updates|
  {
    updates == []
    || (Replays(store, keep, d, updates[0]) && ReplayRun(store, keep, SetFields(store, d, updates[0]), updates[1..]))
  }

  /** Rewinding k is right: the former value compares as before in the form it was
      recorded, or else what the diff took for unchanged is unchanged once stored. */
  ghost predicate RewindsOn(store: Value -> Value, keep: Value -> Value, d: Doc, fields: Doc, k: string) {
    k in fields && k !in SKIPPED ==>
      if k in Changed(d, fields) then DiffCmp(keep(Get(d, k))) == DiffCmp(Get(d, k))
      else DiffCmp(store(fields[k])) == DiffCmp(fields[k])
  }

  ghost predicate Rewinds(store: Value -> Value, keep: Value -> Value, d: Doc, fields: Doc) {
    forall k :: RewindsOn(store, keep, d, fields, k)
  }

  ghost predicate RewindRun(store: Value -> Value, keep: Value -> Value, d: Doc, updates: seq<Doc>)
    decreases |updates|
  {
    updates == []
    || (Rewinds(store, keep, d, updates[0]) && RewindRun(store, keep, SetFields(store, d, updates[0]), updates[1..]))
  }

  // ---- one update ----

  lemma ReplayOneKey(store: Value -> Value, keep: Value -> Value, d: Doc, copy: Doc, fields: Doc, k: string)
    requires AgreeOn(copy, d, k)
    ensures AgreeOn(copy + Kept(keep, DiffAfter(d, fields)), SetFields(store, d, fields), k)
      <==> ReplaysOn(store, keep, d, fields, k)
  {
    hide DiffCmp;
    var replayed := copy + Kept(keep, DiffAfter(d, fields));
    if k in Changed(d, fields) {
      assert Get(replayed, k) == keep(fields[k]);
    } else {
      assert Get(replayed, k) == Get(copy, k);
    }
  }

  lemma ReplayRecord(keep: Value -> Value, d: Doc, copy: Doc, fields: Doc)
    ensures Replay(copy, Record(keep, d, fields)) == copy + Kept(keep, DiffAfter(d, fields))
    ensures Rewind(copy, Record(keep, d, fields)) == copy + Kept(keep, DiffBefore(d, fields))
  {
    hide Changed;
    var h := Record(keep, d, fields);
    if h != [] {
      assert Replay(copy + h[0].after, h[1..]) == copy + h[0].after;
      assert Rewind(copy, h[1..]) == copy;
    }
  }

  /** Applying what one update recorded to a copy gives the updated document exactly when
      every field it writes replays, */
  lemma ReplayOneIff(store: Value -> Value, keep: Value -> Value, d: Doc, copy: Doc, fields: Doc)
    requires Agree(copy, d)
    ensures Agree(Replay(copy, Record(keep, d, fields)), SetFields(store, d, fields)) <==> Replays(store, keep, d, fields)
  {
    ReplayRecord(keep, d, copy, fields);
    hide AgreeOn, ReplaysOn, Record, Replay, SetFields, Kept, DiffAfter;
    forall k
      ensures AgreeOn(copy + Kept(keep, DiffAfter(d, fields)), SetFields(store, d, fields), k)
        <==> ReplaysOn(store, keep, d, fields, k)
    {
      ReplayOneKey(store, keep, d, copy, fields, k);
    }
  }

  lemma RewindOneKey(store: Value -> Value, keep: Value -> Value, d: Doc, copy: Doc, fields: Doc, k: string)
    requires AgreeOn(copy, SetFields(store, d, fields), k)
    ensures AgreeOn(copy + Kept(keep, DiffBefore(d, fields)), d, k) <==> RewindsOn(store, keep, d, fields, k)
  {
    hide DiffCmp;
    var rewound := copy + Kept(keep, DiffBefore(d, fields));
    if k in Changed(d, fields) {
      assert Get(rewound, k) == keep(Get(d, k));
    } else {
      assert Get(rewound, k) == Get(copy, k);
    }
  }

  /** and taking it back gives the former one exactly when every field rewinds. */
  lemma RewindOneIff(store: Value -> Value, keep: Value -> Value, d: Doc, copy: Doc, fields: Doc)
    requires Agree(copy, SetFields(store, d, fields))
    ensures Agree(Rewind(copy, Record(keep, d, fields)), d) <==> Rewinds(store, keep, d, fields)
  {
    ReplayRecord(keep, d, copy, fields);
    hide AgreeOn, RewindsOn, Record, Rewind, SetFields, Kept, DiffBefore;
    forall k
      ensures AgreeOn(copy + Kept(keep, DiffBefore(d, fields)), d, k) <==> RewindsOn(store, keep, d, fields, k)
    {
      RewindOneKey(store, keep, d, copy, fields, k);
    }
  }

  // ---- runs ----

  /** Entry i is the newest, or the oldest, that holds k. */
  predicate Newest(history: seq<Entry>, i: nat, k: string) {
    i < |history| && k in history[i].after && forall j :: i < j < |history| ==> k !in history[j].after
  }

  predicate Oldest(history: seq<Entry>, i: nat, k: string) {
    i < |history| && k in history[i].before && forall j :: 0 <= j < i ==> k !in history[j].before
  }

  /** Replaying gives each key the value of the newest entry that holds it, */
  lemma {:induction false} ReplayMeans(d: Doc, history: seq<Entry>, k: string)
    ensures (exists i :: 0 <= i < |history| && k in history[i].after) || k in d <==> k in Replay(d, history)
    ensures (forall i :: 0 <= i < |history| ==> k !in history[i].after) && k in d ==> Replay(d, history)[k] == d[k]
    ensures forall i: nat :: Newest(history, i, k) ==> Replay(d, history)[k] == history[i].after[k]
    decreases |history|
  {
    if history != [] {
      var (next, rest) := (d + history[0].after, history[1..]);
      ReplayMeans(next, rest, k);
      assert forall j :: 0 < j < |history| ==> history[j] == rest[j - 1];
      forall i: nat | Newest(history, i, k)
        ensures Replay(d, history)[k] == history[i].after[k]
      {
        assert i > 0 ==> Newest(rest, i - 1, k);
      }
      if i :| 0 <= i < |rest| && k in rest[i].after {
        assert k in history[i + 1].after;
      }
      if i :| 0 <= i < |history| && k in history[i].after {
        assert i > 0 ==> k in rest[i - 1].after;
      }
    }
  }

  /** and rewinding that of the oldest one. */
  lemma {:induction false} RewindMeans(d: Doc, history: seq<Entry>, k: string)
    ensures (exists i :: 0 <= i < |history| && k in history[i].before) || k in d <==> k in Rewind(d, history)
    ensures (forall i :: 0 <= i < |history| ==> k !in history[i].before) && k in d ==> Rewind(d, history)[k] == d[k]
    ensures forall i: nat :: Oldest(history, i, k) ==> Rewind(d, history)[k] == history[i].before[k]
    decreases |history|
  {
    if history != [] {
      var rest := history[1..];
      RewindMeans(d, rest, k);
      assert forall j :: 0 < j < |history| ==> history[j] == rest[j - 1];
      forall i: nat | Oldest(history, i, k)
        ensures Rewind(d, history)[k] == history[i].before[k]
      {
        if i > 0 {
          assert k !in history[0].before;
          assert forall j :: 0 <= j < i - 1 ==> rest[j] == history[j + 1];
          assert Oldest(rest, i - 1, k);
        }
      }
      if i :| 0 <= i < |rest| && k in rest[i].before {
        assert k in history[i + 1].before;
      }
      if i :| 0 <= i < |history| && k in history[i].before {
        assert i > 0 ==> k in rest[i - 1].before;
      }
    }
  }

  lemma {:induction false} ReplayConcat(d: Doc, older: seq<Entry>, newer: seq<Entry>)
    ensures Replay(d, older + newer) == Replay(Replay(d, older), newer)
    ensures Rewind(d, older + newer) == Rewind(Rewind(d, newer), older)
    decreases |older|
  {
    if older == [] {
      assert older + newer == newer;
    } else {
      assert (older + newer)[1..] == older[1..] + newer;
      ReplayConcat(d + older[0].after, older[1..], newer);
      ReplayConcat(d, older[1..], newer);
    }
  }

  /** At one point of a run, the history so far brings a copy of the first document to the
      present one. */
  ghost predicate ReplaysTo(store: Value -> Value, keep: Value -> Value, d: Doc, copy: Doc, updates: seq<Doc>, i: nat)
    requires i <= |updates|
  {
    Agree(Replay(copy, HistoryOf(store, keep, d, updates[..i])), DocAfter(store, d, updates[..i]))
  }

  lemma ReplaysToNext(store: Value -> Value, keep: Value -> Value, d: Doc, copy: Doc, updates: seq<Doc>, i: nat)
    requires i < |updates|
    ensures ReplaysTo(store, keep, d, copy, updates, i + 1)
      <==> ReplaysTo(store, keep, SetFields(store, d, updates[0]), Replay(copy, Record(keep, d, updates[0])), updates[1..], i)
  {
    assert updates[..i + 1][1..] == updates[1..][..i];
    ReplayConcat(copy, Record(keep, d, updates[0]),
                 HistoryOf(store, keep, SetFields(store, d, updates[0]), updates[1..][..i]));
  }

  /** Over any run of updates by one writer, replaying the recorded `diff_after` maps keeps
      up with the document at every point exactly when each update replays: what was recorded
      of a changed field, and what was written to an unchanged one, compares like what was
      stored. */
  lemma {:induction false} ReplayIff(store: Value -> Value, keep: Value -> Value, d: Doc, copy: Doc, updates: seq<Doc>)
    requires Agree(copy, d)
    ensures (forall i :: 0 <= i <= |updates| ==> ReplaysTo(store, keep, d, copy, updates, i)) <==> ReplayRun(store, keep, d, updates)
    decreases |updates|
  {
    assert ReplaysTo(store, keep, d, copy, updates, 0) by { assert updates[..0] == []; }
    if updates != [] {
      var (next, copy') := (SetFields(store, d, updates[0]), Replay(copy, Record(keep, d, updates[0])));
      ReplayOneIff(store, keep, d, copy, updates[0]);
      forall i | 0 <= i < |updates|
        ensures ReplaysTo(store, keep, d, copy, updates, i + 1) <==> ReplaysTo(store, keep, next, copy', updates[1..], i)
      {
        ReplaysToNext(store, keep, d, copy, updates, i);
      }
      assert ReplaysTo(store, keep, next, copy', updates[1..], 0) <==> Agree(copy', next) by {
        assert updates[1..][..0] == [];
      }
      if Agree(copy', next) {
        ReplayIff(store, keep, next, copy', updates[1..]);
        if forall i :: 0 <= i <= |updates| ==> ReplaysTo(store, keep, d, copy, updates, i) {
          forall i | 0 <= i <= |updates[1..]|
            ensures ReplaysTo(store, keep, next, copy', updates[1..], i)
          {
            assert ReplaysTo(store, keep, d, copy, updates, i + 1);
          }
        } else {
          var i :| 0 <= i <= |updates| && !ReplaysTo(store, keep, d, copy, updates, i);
          assert !ReplaysTo(store, keep, next, copy', updates[1..], i - 1);
        }
      } else {
        assert !ReplaysTo(store, keep, d, copy, updates, 0 + 1);
      }
    }
  }

  /** From the end of a run, the history since one point brings the last document back to
      the one of that point. */
  ghost predicate RewindsTo(store: Value -> Value, keep: Value -> Value, d: Doc, updates: seq<Doc>, i: nat)
    requires i <= |updates|
  {
    var past := DocAfter(store, d, updates[..i]);
    Agree(Rewind(DocAfter(store, past, updates[i..]), HistoryOf(store, keep, past, updates[i..])), past)
  }

  lemma RewindsToNext(store: Value -> Value, keep: Value -> Value, d: Doc, updates: seq<Doc>, i: nat)
    requires i < |updates|
    ensures RewindsTo(store, keep, d, updates, i + 1) <==> RewindsTo(store, keep, SetFields(store, d, updates[0]), updates[1..], i)
  {
    assert updates[..i + 1][1..] == updates[1..][..i];
    assert updates[i + 1..] == updates[1..][i..];
  }

  /** And applying the `diff_before` maps backwards leads back through every former state of
      the document exactly when each update rewinds: the former value of a changed field
      compares alike in its recorded form, and an unchanged field is unchanged once stored. */
  lemma {:induction false} RewindIff(store: Value -> Value, keep: Value -> Value, d: Doc, updates: seq<Doc>)
    ensures (forall i :: 0 <= i <= |updates| ==> RewindsTo(store, keep, d, updates, i)) <==> RewindRun(store, keep, d, updates)
    decreases |updates|
  {
    if updates == [] {
      assert updates[..0] == [] && updates[0..] == [];
    } else {
      var (next, rest) := (SetFields(store, d, updates[0]), updates[1..]);
      RewindIff(store, keep, next, rest);
      forall i | 0 <= i <= |rest|
        ensures RewindsTo(store, keep, d, updates, i + 1) <==> RewindsTo(store, keep, next, rest, i)
      {
        RewindsToNext(store, keep, d, updates, i);
      }
      if RewindsTo(store, keep, next, rest, 0) {
        assert rest[..0] == [] && rest[0..] == rest && updates[..0] == [] && updates[0..] == updates;
        var back := Rewind(DocAfter(store, next, rest), HistoryOf(store, keep, next, rest));
        ReplayConcat(DocAfter(store, next, rest), Record(keep, d, updates[0]), HistoryOf(store, keep, next, rest));
        RewindOneIff(store, keep, d, back, updates[0]);
        assert RewindsTo(store, keep, d, updates, 0) <==> Rewinds(store, keep, d, updates[0]);
      }
      if forall i :: 0 <= i <= |updates| ==> RewindsTo(store, keep, d, updates, i) {
        forall i | 0 <= i <= |rest|
          ensures RewindsTo(store, keep, next, rest, i)
        {
          assert RewindsTo(store, keep, d, updates, i + 1);
        }
      } else {
        var i :| 0 <= i <= |updates| && !RewindsTo(store, keep, d, updates, i);
        assert i > 0 ==> !RewindsTo(store, keep, next, rest, i - 1);
      }
    }
  }

  // ---- the database and the recorder: which values replay and rewind ----

  /** A document that came from the database. */
  ghost predicate FromDatabase(store: Value -> Value, d: Doc) {
    forall k :: k in d ==> store(d[k]) == d[k]
  }

  lemma SetKeepsFromDatabase(store: Value -> Value, d: Doc, fields: Doc)
    requires Database(store) && FromDatabase(store, d)
    ensures FromDatabase(store, SetFields(store, d, fields))
  {
  }

  /** "+05:30" and the like. */
  function OffsetText(minutes: int): string {
    var m := if minutes < 0 then -minutes else minutes;
    (if minutes < 0 then "-" else "+") + Pad(m / 60, 2) + ":" + Pad(m % 60, 2)
  }

  lemma OffsetReads(minutes: int)
    requires -1440 < minutes < 1440
    ensures var s := OffsetText(minutes);
      && |s| == 6 && s[0] == (if minutes < 0 then '-' else '+') && s[3] == ':'
      && ReadNat(s[1..3]).Some? && ReadNat(s[4..6]).Some?
      && minutes == (if minutes < 0 then -1 else 1) * (60 * ReadNat(s[1..3]).value + ReadNat(s[4..6]).value)
  {
    var m := if minutes < 0 then -minutes else minutes;
    var s := OffsetText(minutes);
    assert Pow10(2) == 100;
    ReadPad(m / 60, 2);
    ReadPad(m % 60, 2);
    hide Pad, ReadNat, Pow10;
    assert s[1..3] == Pad(m / 60, 2) && s[4..6] == Pad(m % 60, 2);
  }

  /** What `_sanitize_for_mongo` makes of a dict or a list: the datetimes inside become
      their `isoformat` texts. */
  function Sanitized(d: Dump): string {
    match d
    case Text(text) => text
    case Slot(before, t, rest) => before + Isoformat(t) + Sanitized(rest)
  }

  /** Nothing else changes: the recorded text is the compared one but for spaces that
      become a T. */
  lemma {:induction false} SanitizedIsDump(d: Dump)
    ensures |Sanitized(d)| == |DumpText(d)|
    ensures forall i :: 0 <= i < |DumpText(d)| ==>
      Sanitized(d)[i] == DumpText(d)[i] || (Sanitized(d)[i] == 'T' && DumpText(d)[i] == ' ')
  {
    if d.Slot? {
      SanitizedIsDump(d.rest);
      TimeTexts(d.t);
      assert Sanitized(d) == d.before + Isoformat(d.t) + Sanitized(d.rest);
      assert DumpText(d) == d.before + StrTime(d.t) + DumpText(d.rest);
      assert Isoformat(d.t)[10] == 'T';
      hide Sanitized, DumpText, Isoformat, StrTime, NaiveIso;
      var (s, x, y) := (|d.before|, Isoformat(d.t), StrTime(d.t));
      forall i | 0 <= i < |x|
        ensures x[i] == y[i] || (x[i] == 'T' && y[i] == ' ')
      {
        assert i < 10 ==> x[i] == x[..10][i] && y[i] == y[..10][i];
        assert i > 10 ==> x[i] == x[11..][i - 11] && y[i] == y[11..][i - 11];
      }
    }
  }

  /** The recorder keeps None, and every datetime as its `isoformat` text. */
  ghost predicate Recorder(keep: Value -> Value) {
    && keep(PyNone) == PyNone
    && (forall t :: keep(Moment(t)) == Other("str", Isoformat(t)))
    && (forall t, m :: keep(Abroad(t, m)) == Other("str", NaiveIso(t) + OffsetText(m)))
    && forall d :: keep(Nested(d)) == Nested(Text(Sanitized(d)))
  }

  /** A changed datetime, naive or UTC, replays exactly when it is naive and in whole
      milliseconds: the text of any other one differs from what was stored. */
  lemma MomentReplaysIff(store: Value -> Value, keep: Value -> Value, t: DateTime)
    requires Database(store) && Recorder(keep) && ValidTime(t)
    ensures DiffCmp(keep(Moment(t))) == DiffCmp(store(Moment(t))) <==> t.zone == Naive && t.micro % 1000 == 0
  {
    var u := StoredTime(t, Naive);
    assert store(Moment(t)) == Moment(u) && keep(Moment(t)) == Other("str", Isoformat(t));
    FixedLength(t);
    FixedLength(u);
    NaiveIsoIff(t, u);
    hide NaiveIso, IsoUtc;
    if t.zone == Utc {
      assert |IsoUtc(t)| != |NaiveIso(u)|;
    }
  }

  /** A datetime of another zone, stored as one in UTC, never does. */
  lemma AbroadNeverReplays(store: Value -> Value, keep: Value -> Value, wall: DateTime, offsetMinutes: int, u: DateTime)
    requires Recorder(keep) && store(Abroad(wall, offsetMinutes)) == Moment(u)
    ensures DiffCmp(keep(Abroad(wall, offsetMinutes))) != DiffCmp(store(Abroad(wall, offsetMinutes)))
  {
    FixedLength(wall);
    FixedLength(u);
    hide NaiveIso;
    assert |OffsetText(offsetMinutes)| == 6;
    assert |NaiveIso(wall) + OffsetText(offsetMinutes)| != |NaiveIso(u)|;
  }

  /** A dict or a list compares alike in its recorded and its stored form exactly when no
      datetime is inside. */
  lemma SanitizedIff(d: Dump)
    ensures Sanitized(d) == DumpText(StoredDump(d)) <==> d.Text?
  {
    if d.Slot? {
      var i := |d.before| + 10;
      assert Sanitized(d)[i] == Isoformat(d.t)[10];
      assert DumpText(StoredDump(d))[i] == StrTime(StoredTime(d.t, Naive))[10];
    }
  }

  /** All datetimes inside are naive and in whole milliseconds. */
  predicate NaiveSlots(d: Dump) {
    d.Text? || (d.t.zone == Naive && d.t.micro % 1000 == 0 && NaiveSlots(d.rest))
  }

  lemma {:induction false} NaiveSlotsStay(d: Dump)
    requires NaiveSlots(d)
    ensures StoredDump(d) == d
  {
    if d.Slot? {
      NaiveSlotsStay(d.rest);
    }
  }

  /** None, a naive or UTC datetime, a dict or a list with such datetimes inside, or another
      value whose text neither the database nor the recorder changes. */
  ghost predicate Plain(store: Value -> Value, keep: Value -> Value, v: Value) {
    match v
    case PyNone => true
    case Moment(t) => ValidTime(t)
    case Abroad(_, _) => false
    case Nested(_) => true
    case Other(_, text) => DiffCmp(store(v)) == Some(text) && DiffCmp(keep(v)) == Some(text)
  }

  /** The update writes plain values over plain values: a datetime only over a datetime or
      nothing, and where the diff sees no change, datetimes inside a dict or a list are
      naive and in whole milliseconds. */
  ghost predicate PlainUpdate(store: Value -> Value, keep: Value -> Value, d: Doc, fields: Doc) {
    forall k :: k in fields && k !in SKIPPED ==>
      && Plain(store, keep, fields[k]) && Plain(store, keep, Get(d, k))
      && (fields[k].Moment? ==> Get(d, k).Moment? || Get(d, k).PyNone?)
      && (fields[k].Nested? && k !in Changed(d, fields) ==> NaiveSlots(fields[k].dump))
  }

  /** The recorded form of the value compares like the stored one: a datetime is naive and
      in whole milliseconds, and a dict or a list holds none. */
  predicate RecordedAlike(v: Value) {
    match v
    case Moment(t) => t.zone == Naive && t.micro % 1000 == 0
    case Nested(d) => d.Text?
    case _ => true
  }

  lemma TextDumps(text: string)
    ensures DumpText(Text(text)) == text
  {
  }

  lemma PlainRecordedIff(store: Value -> Value, keep: Value -> Value, v: Value)
    requires Database(store) && Recorder(keep) && Plain(store, keep, v)
    ensures DiffCmp(keep(v)) == DiffCmp(store(v)) <==> RecordedAlike(v)
  {
    hide NaiveIso, IsoUtc, ValidTime, StoredTime, Isoformat, StrTime;
    match v
    case Moment(t) => MomentReplaysIff(store, keep, t);
    case Nested(d) =>
      SanitizedIff(d);
      TextDumps(Sanitized(d));
    case _ =>
  }

  /** A datetime that compares equal to a stored one is in whole milliseconds itself. */
  lemma MomentSurvives(was: DateTime, t: DateTime)
    requires ValidTime(was) && ValidTime(t) && was == StoredTime(was, Naive) && NaiveIso(was) == NaiveIso(t)
    ensures NaiveIso(StoredTime(t, Naive)) == NaiveIso(t)
  {
    hide NaiveIso;
    NaiveIsoIff(was, t);
    NaiveIsoIff(StoredTime(t, Naive), t);
  }

  /** What the diff takes for unchanged in a plain update is unchanged. */
  lemma UnchangedIsStored(store: Value -> Value, keep: Value -> Value, d: Doc, fields: Doc, k: string)
    requires Database(store) && FromDatabase(store, d) && PlainUpdate(store, keep, d, fields)
    requires k in fields && k !in SKIPPED && k !in Changed(d, fields)
    ensures DiffCmp(store(fields[k])) == DiffCmp(fields[k])
  {
    hide NaiveIso, ValidTime, StoredTime;
    assert DiffCmp(Get(d, k)) == DiffCmp(fields[k]);
    assert store(Get(d, k)) == Get(d, k);
    if fields[k].Moment? {
      MomentSurvives(Get(d, k).t, fields[k].t);
    } else if fields[k].Nested? {
      NaiveSlotsStay(fields[k].dump);
    }
  }

  /** Main result for plain updates: one replays exactly when the recorded form of every new
      value of a changed field compares alike, */
  lemma PlainReplaysIff(store: Value -> Value, keep: Value -> Value, d: Doc, fields: Doc)
    requires Database(store) && Recorder(keep) && FromDatabase(store, d) && PlainUpdate(store, keep, d, fields)
    ensures Replays(store, keep, d, fields) <==> forall k :: k in Changed(d, fields) ==> RecordedAlike(fields[k])
  {
    forall k
      ensures ReplaysOn(store, keep, d, fields, k) <==> (k in Changed(d, fields) ==> RecordedAlike(fields[k]))
    {
      if k in Changed(d, fields) {
        PlainRecordedIff(store, keep, fields[k]);
      } else if k in fields && k !in SKIPPED {
        UnchangedIsStored(store, keep, d, fields, k);
      }
    }
    hide ReplaysOn;
  }

  /** and rewinds exactly when that of every former value does: when no changed field held
      a dict or a list with a datetime inside. */
  lemma PlainRewindsIff(store: Value -> Value, keep: Value -> Value, d: Doc, fields: Doc)
    requires Database(store) && Recorder(keep) && FromDatabase(store, d) && PlainUpdate(store, keep, d, fields)
    ensures Rewinds(store, keep, d, fields) <==>
      forall k :: k in Changed(d, fields) && Get(d, k).Nested? ==> Get(d, k).dump.Text?
  {
    forall k
      ensures RewindsOn(store, keep, d, fields, k) <==>
        (k in Changed(d, fields) && Get(d, k).Nested? ==> Get(d, k).dump.Text?)
    {
      if k in Changed(d, fields) {
        assert store(Get(d, k)) == Get(d, k);
        PlainRecordedIff(store, keep, Get(d, k));
        assert Get(d, k).Moment? ==> RecordedAlike(Get(d, k));
      } else if k in fields && k !in SKIPPED {
        UnchangedIsStored(store, keep, d, fields, k);
      }
    }
    hide RewindsOn;
  }

  // ---- inputs on which replaying or rewinding fails ----

  const NOON := DateTime(2025, 6, 1, 12, 0, 0, 0, Naive)

  /** Setting an empty field to noon UTC: the history has the text with its offset, the
      document the naive datetime. Replaying gives a document that compares unequal. */
  lemma UtcWriteReplaysUnequal(store: Value -> Value, keep: Value -> Value)
    requires Database(store) && Recorder(keep)
    ensures var (d, fields) := (map["starts_at" := PyNone], map["starts_at" := Moment(NOON.(zone := Utc))]);
      && !Agree(Replay(d, Record(keep, d, fields)), SetFields(store, d, fields))
      && Agree(Rewind(SetFields(store, d, fields), Record(keep, d, fields)), d)
  {
    var (d, fields) := (map["starts_at" := PyNone], map["starts_at" := Moment(NOON.(zone := Utc))]);
    assert FromDatabase(store, d) && PlainUpdate(store, keep, d, fields);
    assert "starts_at" in Changed(d, fields) && !RecordedAlike(fields["starts_at"]);
    hide Database, Recorder, FromDatabase, PlainUpdate, Rewinds, Replays, Rewind, Replay, Record, SetFields, AgreeOn, NaiveIso;
    PlainReplaysIff(store, keep, d, fields);
    PlainRewindsIff(store, keep, d, fields);
    ReplayOneIff(store, keep, d, d, fields);
    RewindOneIff(store, keep, d, SetFields(store, d, fields), fields);
  }

  lemma ClearingIsPlain(store: Value -> Value, keep: Value -> Value, dump: Dump)
    requires Database(store) && NaiveSlots(dump)
    ensures var (d, fields) := (map["slot" := Nested(dump)], map["slot" := PyNone]);
      FromDatabase(store, d) && PlainUpdate(store, keep, d, fields) && "slot" in Changed(d, fields)
  {
    hide DumpText, NaiveSlots, NaiveIso;
    NaiveSlotsStay(dump);
  }

  /** Clearing a dict or a list that holds a datetime, as in `{"at": datetime(2025, 6, 1, 12)}`:
      the diff compares by a text with a space in the datetime, the history has a `T` there.
      Rewinding gives a value that compares unequal. */
  lemma NestedDatetimeRewindsUnequal(store: Value -> Value, keep: Value -> Value, dump: Dump)
    requires Database(store) && Recorder(keep) && dump.Slot? && NaiveSlots(dump)
    ensures var (d, fields) := (map["slot" := Nested(dump)], map["slot" := PyNone]);
      !Agree(Rewind(SetFields(store, d, fields), Record(keep, d, fields)), d)
  {
    var (d, fields) := (map["slot" := Nested(dump)], map["slot" := PyNone]);
    ClearingIsPlain(store, keep, dump);
    hide Database, Recorder, FromDatabase, PlainUpdate, Rewinds, Rewind, Record, SetFields, Changed, NaiveSlots, AgreeOn;
    PlainRewindsIff(store, keep, d, fields);
    assert Get(d, "slot") == Nested(dump);
    RewindOneIff(store, keep, d, SetFields(store, d, fields), fields);
  }

  /** Noon at +02:00 written over a stored naive noon is another instant with the same wall
      clock. The document changes and nothing is recorded. */
  lemma SameWallClockGoesUnrecorded(store: Value -> Value, keep: Value -> Value)
    requires Database(store) && store(Abroad(NOON, 120)) == Moment(NOON.(hour := 10))
    ensures var (d, fields) := (map["starts_at" := Moment(NOON)], map["starts_at" := Abroad(NOON, 120)]);
      && Record(keep, d, fields) == []
      && !Agree(SetFields(store, d, fields), d)
  {
    NaiveIsoIff(NOON, NOON.(hour := 10));
    var (d, fields) := (map["starts_at" := Moment(NOON)], map["starts_at" := Abroad(NOON, 120)]);
    assert Changed(d, fields) == {};
    assert !AgreeOn(SetFields(store, d, fields), d, "starts_at");
  }

  // ---- the operations ----

  lemma TailOfSnoc<T>(s: seq<T>, x: T)
    requires s != []
    ensures (s + [x])[0] == s[0] && (s + [x])[1..] == s[1..] + [x]
  {
  }

  lemma {:induction false} OneMoreUpdate(store: Value -> Value, keep: Value -> Value, d: Doc, updates: seq<Doc>, fields: Doc)
    ensures DocAfter(store, d, updates + [fields]) == SetFields(store, DocAfter(store, d, updates), fields)
    ensures HistoryOf(store, keep, d, updates + [fields])
      == HistoryOf(store, keep, d, updates) + Record(keep, DocAfter(store, d, updates), fields)
    decreases |updates|
  {
    hide SetFields, Record;
    if updates == [] {
      assert ([] + [fields])[1..] == [];
    } else {
      TailOfSnoc(updates, fields);
      OneMoreUpdate(store, keep, SetFields(store, d, updates[0]), updates[1..], fields);
    }
  }

  /** What a write does to a document, field by field. */
  ghost predicate FieldsSet(store: Value -> Value, d: Doc, fields: Doc, d': Doc) {
    && (forall k :: k in d' <==> k in d || k in fields)
    && forall k :: k in d' ==> d'[k] == if k in fields then store(fields[k]) else d[k]
  }

  /** What a write to a watched document adds to its history: at most one entry, with the
      changed fields, among them every field that is written with a different value. */
  ghost predicate HistoryGrows(keep: Value -> Value, d: Doc, fields: Doc, h: seq<Entry>, h': seq<Entry>) {
    && h <= h' && RecordsChanges(keep, d, fields, h'[|h|..])
    && forall k :: MustBeRecorded(d, fields, k) ==>
         |h'| == |h| + 1 && k in h'[|h|].after && h'[|h|].after[k] == keep(fields[k])
  }

  lemma WriteMeans(store: Value -> Value, keep: Value -> Value, d: Doc, fields: Doc, h: seq<Entry>)
    ensures FieldsSet(store, d, fields, SetFields(store, d, fields))
    ensures HistoryGrows(keep, d, fields, h, h + Record(keep, d, fields))
  {
    var entries := Record(keep, d, fields);
    RecordMeans(keep, d, fields);
    hide Differ, RecordsChanges, Record, DiffCmp;
    assert (h + entries)[|h|..] == entries;
    forall k | MustBeRecorded(d, fields, k)
      ensures |entries| == 1 && k in entries[0].after && k in fields && entries[0].after[k] == keep(fields[k])
    {
      DifferenceIsRecorded(keep, d, fields, k);
    }
  }

  /** One document of a collection and its entries in the history. */
  class WatchedDocument {
    const store: Value -> Value
    const keep: Value -> Value
    const watched: bool
    var doc: Option<Doc>
    var history: seq<Entry>
    /** The document as inserted, and the updates made to it since. */
    ghost var first: Doc
    ghost var updates: seq<Doc>

    ghost predicate Valid()
      reads this
    {
      && Database(store)
      && (doc.None? ==> history == [])
      && (doc.Some? ==>
        && FromDatabase(store, first) && FromDatabase(store, doc.value)
        && doc.value == DocAfter(store, first, updates)
        && history == if watched then HistoryOf(store, keep, first, updates) else [])
    }

    constructor (store: Value -> Value, keep: Value -> Value, watched: bool)
      requires Database(store)
      ensures Valid() && doc == None && this.store == store && this.keep == keep && this.watched == watched
    {
      this.store, this.keep, this.watched := store, keep, watched;
      doc, history := None, [];
    }

    /** The write shared by `update` and the update branch of `upsert`. */
    method Write(fields: Doc)
      requires Valid() && doc.Some?
      modifies this
      ensures Valid() && doc.Some? && FieldsSet(store, old(doc).value, fields, doc.value)
      ensures if watched then HistoryGrows(keep, old(doc).value, fields, old(history), history) else history == old(history)
      ensures doc == Some(SetFields(store, old(doc).value, fields))
      ensures history == old(history) + if watched then Record(keep, old(doc).value, fields) else []
      ensures first == old(first) && updates == old(updates) + [fields]
    {
      hide DiffCmp, HistoryOf, DocAfter, RecordsChanges, HistoryGrows, FieldsSet;
      var existing := doc.value;
      OneMoreUpdate(store, keep, first, updates, fields);
      SetKeepsFromDatabase(store, existing, fields);
      WriteMeans(store, keep, existing, fields, history);
      doc := Some(existing + StoredDoc(store, fields));
      updates := updates + [fields];
      if watched {
        var before, after := ComputeDiff(existing, fields);
        if before != map[] || after != map[] {
          history := history + [Entry(Kept(keep, before), Kept(keep, after))];
        } else {
          assert Changed(existing, fields) == after.Keys;
        }
      }
    }

    method Update(fields: Doc) returns (n: nat)
      requires Valid()
      modifies this
      ensures Valid()
      ensures n == if old(doc).None? || fields == map[] then 0 else 1
      ensures n == 0 ==> doc == old(doc) && history == old(history)
      ensures n == 1 ==> doc.Some? && FieldsSet(store, old(doc).value, fields, doc.value) && first == old(first)
      ensures n == 1 && watched ==> HistoryGrows(keep, old(doc).value, fields, old(history), history)
      ensures n == 1 ==> updates == old(updates) + [fields]
    {
      if doc.None? || fields == map[] {
        return 0;
      }
      Write(fields);
      n := 1;
    }

    /** `created` is what validation makes of the filter and the fields of a new document. */
    method Upsert(fields: Doc, created: Doc, now: DateTime)
      requires Valid()
      modifies this
      ensures Valid() && doc.Some?
      ensures old(doc).None? ==>
        FieldsSet(store, map[], created["created_at" := Moment(now)]["updated_at" := Moment(now)], doc.value)
      ensures old(doc).Some? ==>
        && FieldsSet(store, old(doc).value, fields["updated_at" := Moment(now)], doc.value)
        && (watched ==> HistoryGrows(keep, old(doc).value, fields["updated_at" := Moment(now)], old(history), history))
      ensures old(doc).None? ==>
        && doc.value == StoredDoc(store, created["created_at" := Moment(now)]["updated_at" := Moment(now)])
        && updates == [] && history == []
      ensures old(doc).Some? ==>
        && doc.value == SetFields(store, old(doc).value, fields["updated_at" := Moment(now)])
        && first == old(first) && updates == old(updates) + [fields["updated_at" := Moment(now)]]
    {
      if doc.None? {
        var inserted := StoredDoc(store, created["created_at" := Moment(now)]["updated_at" := Moment(now)]);
        doc := Some(inserted);
        first, updates := inserted, [];
      } else {
        Write(fields["updated_at" := Moment(now)]);
      }
    }
  }
}
