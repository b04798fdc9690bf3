/** Audit rows, their timestamps, and the payload that is hashed. */
module AuditRow {
  import opened TextOrder
  import opened Json

  // ---- timestamps ----

  /** A timestamp read back from the database is naive or UTC, depending on the client. */
  datatype Zone = Naive | Utc

  datatype DateTime = DateTime(
    year: nat, month: nat, day: nat, hour: nat, minute: nat, second: nat, micro: nat, zone: Zone)

  predicate ValidTime(t: DateTime) {
    && t.year <= 9999 && t.month <= 12 && t.day <= 31
    && t.hour < 24 && t.minute < 60 && t.second < 60 && t.micro < 1_000_000
  }

  function Fraction(micro: nat): string {
    if micro == 0 then "+00:00" else "." + Pad(micro, 6) + "+00:00"
  }

  /** `isoformat()` after conversion to UTC. A naive timestamp is taken as UTC, and
      Python leaves out the fraction when it is zero. */
  function IsoUtc(t: DateTime): string {
    Pad(t.year, 4) + ("-" + Pad(t.month, 2) + ("-" + Pad(t.day, 2) + ("T" + Pad(t.hour, 2)
    + (":" + Pad(t.minute, 2) + (":" + Pad(t.second, 2) + Fraction(t.micro))))))
  }

  lemma SplitEqual(a: string, b: string, c: string, d: string)
    requires a + b == c + d && |a| == |c|
    ensures a == c && b == d
  {
    assert a == (a + b)[..|a|] && b == (a + b)[|a|..];
    assert c == (c + d)[..|c|] && d == (c + d)[|c|..];
  }

  lemma FieldInjective(mark: string, n: nat, m: nat, w: nat, rest: string, rest': string)
    requires n < Pow10(w) && m < Pow10(w)
    requires mark + Pad(n, w) + rest == mark + Pad(m, w) + rest'
    ensures n == m && rest == rest'
  {
    SplitEqual(mark + Pad(n, w), rest, mark + Pad(m, w), rest');
    SplitEqual(mark, Pad(n, w), mark, Pad(m, w));
    PadInjective(n, m, w);
  }

  lemma FractionInjective(m: nat, n: nat)
    requires m < 1_000_000 && n < 1_000_000 && Fraction(m) == Fraction(n)
    ensures m == n
  {
    assert Pow10(2) == 100;
    assert Pow10(6) == 1_000_000;
    assert m == 0 <==> |Fraction(m)| == 6;
    assert n == 0 <==> |Fraction(n)| == 6;
    if m != 0 {
      FieldInjective(".", m, n, 6, "+00:00", "+00:00");
    }
  }

  /** The same instant, whether stored naive or as UTC. */
  predicate SameInstant(t: DateTime, u: DateTime) {
    t.(zone := Utc) == u.(zone := Utc)
  }

  lemma IsoUtcIff(t: DateTime, u: DateTime)
    requires ValidTime(t) && ValidTime(u)
    ensures IsoUtc(t) == IsoUtc(u) <==> SameInstant(t, u)
  {
    if IsoUtc(t) == IsoUtc(u) {
      assert Pow10(2) == 100;
      assert Pow10(4) == 10_000;
      var s, s' := ":" + Pad(t.second, 2) + Fraction(t.micro), ":" + Pad(u.second, 2) + Fraction(u.micro);
      var m, m' := ":" + Pad(t.minute, 2) + s, ":" + Pad(u.minute, 2) + s';
      var h, h' := "T" + Pad(t.hour, 2) + m, "T" + Pad(u.hour, 2) + m';
      var d, d' := "-" + Pad(t.day, 2) + h, "-" + Pad(u.day, 2) + h';
      var o, o' := "-" + Pad(t.month, 2) + d, "-" + Pad(u.month, 2) + d';
      assert "" + Pad(t.year, 4) + o == IsoUtc(t) == IsoUtc(u) == "" + Pad(u.year, 4) + o';
      FieldInjective("", t.year, u.year, 4, o, o');
      FieldInjective("-", t.month, u.month, 2, d, d');
      FieldInjective("-", t.day, u.day, 2, h, h');
      FieldInjective("T", t.hour, u.hour, 2, m, m');
      FieldInjective(":", t.minute, u.minute, 2, s, s');
      FieldInjective(":", t.second, u.second, 2, Fraction(t.micro), Fraction(u.micro));
      FractionInjective(t.micro, u.micro);
    }
  }

  /** r is t up to the zone and the microseconds below the millisecond. */
  predicate SameMillisecond(t: DateTime, r: DateTime) {
    && r.year == t.year && r.month == t.month && r.day == t.day
    && r.hour == t.hour && r.minute == t.minute && r.second == t.second
    && r.micro % 1000 == 0 && r.micro <= t.micro < r.micro + 1000
  }

  /** `now.replace(microsecond=(now.microsecond // 1000) * 1000)`. */
  function TruncateToMs(t: DateTime): (r: DateTime)
    ensures SameMillisecond(t, r) && r.zone == t.zone
  {
    t.(micro := t.micro / 1000 * 1000)
  }

  /** What the database gives back: millisecond precision, naive or UTC. */
  function StoredTime(t: DateTime, z: Zone): (r: DateTime)
    ensures SameMillisecond(t, r) && r.zone == z
  {
    TruncateToMs(t).(zone := z)
  }

  lemma IsoUtcPieces(t: DateTime)
    ensures var s := IsoUtc(t);
      && |s| == (if t.micro == 0 then 25 else 32)
      && s[..4] == Pad(t.year, 4) && s[4] == '-' && s[5..7] == Pad(t.month, 2) && s[7] == '-'
      && s[8..10] == Pad(t.day, 2) && s[10] == 'T' && s[11..13] == Pad(t.hour, 2) && s[13] == ':'
      && s[14..16] == Pad(t.minute, 2) && s[16] == ':' && s[17..19] == Pad(t.second, 2)
      && (t.micro != 0 ==> s[19] == '.' && s[20..26] == Pad(t.micro, 6))
      && s[|s| - 6..] == "+00:00"
  {
    hide Pad;
    var f := Fraction(t.micro);
    assert IsoUtc(t)[19..] == f;
  }

  /** The text of a timestamp, field by field: `YYYY-MM-DDTHH:MM:SS`, the six digits of the
      microseconds unless they are zero, and `+00:00`. */
  lemma IsoUtcReads(t: DateTime)
    requires ValidTime(t)
    ensures var s := IsoUtc(t);
      && |s| == (if t.micro == 0 then 25 else 32)
      && ReadNat(s[..4]) == Some(t.year) && s[4] == '-' && ReadNat(s[5..7]) == Some(t.month) && s[7] == '-'
      && ReadNat(s[8..10]) == Some(t.day) && s[10] == 'T' && ReadNat(s[11..13]) == Some(t.hour) && s[13] == ':'
      && ReadNat(s[14..16]) == Some(t.minute) && s[16] == ':' && ReadNat(s[17..19]) == Some(t.second)
      && (t.micro != 0 ==> s[19] == '.' && ReadNat(s[20..26]) == Some(t.micro))
      && s[|s| - 6..] == "+00:00"
  {
    var s := IsoUtc(t);
    IsoUtcPieces(t);
    assert Pow10(2) == 100;
    assert Pow10(4) == 10_000;
    assert Pow10(6) == 1_000_000;
    hide IsoUtc, Pad, ReadNat, Pow10;
    ReadPad(t.year, 4);
    ReadPad(t.month, 2);
    ReadPad(t.day, 2);
    ReadPad(t.hour, 2);
    ReadPad(t.minute, 2);
    ReadPad(t.second, 2);
    ReadPad(t.micro, 6);
  }

  /** A stored timestamp hashes like the one that was emitted exactly when the
      emitted one carried whole milliseconds: the truncation in `emit` is needed. */
  lemma StoredTimeHashesAlikeIff(t: DateTime, z: Zone)
    requires ValidTime(t)
    ensures IsoUtc(StoredTime(t, z)) == IsoUtc(t) <==> t.micro % 1000 == 0
  {
    IsoUtcIff(StoredTime(t, z), t);
  }

  // ---- rows ----

  /** What the caller of `emit` supplies. Object ids are their hex strings. */
  datatype Event = Event(
    eventType: string,
    actorUserId: Option<string>,
    actorApiConsumerFlag: Option<string>,
    actorDeviceId: Option<string>,
    sessionMeetingId: Option<string>,
    voteConfigId: Option<string>,
    documentMetaId: Option<string>,
    paroleRequestId: Option<string>,
    details: seq<Entry<Json>>)

  datatype Row = Row(
    org: string, number: nat, occurredAt: DateTime, event: Event, prevEventHash: string, eventHash: string)

  ghost predicate WfRow(r: Row) {
    ValidTime(r.occurredAt) && Wf(Obj(r.event.details))
  }

  function OptText(o: Option<string>): Json {
    match o case None => Null case Some(s) => Str(s)
  }

  /** The dict that is hashed, in the order in which the source fills it. */
  function HashPayload(org: string, number: nat, at: DateTime, e: Event): Json {
    Obj([
      Entry("sys_organization_id", Str(org)),
      Entry("sequence_number", Int(number)),
      Entry("occurred_at", Str(IsoUtc(at))),
      Entry("event_type", Str(e.eventType)),
      Entry("actor_user_id", OptText(e.actorUserId)),
      Entry("actor_api_consumer_flag", OptText(e.actorApiConsumerFlag)),
      Entry("actor_device_id_str", OptText(e.actorDeviceId)),
      Entry("session_meeting_id", OptText(e.sessionMeetingId)),
      Entry("vote_config_id", OptText(e.voteConfigId)),
      Entry("document_meta_id", OptText(e.documentMetaId)),
      Entry("parole_request_id", OptText(e.paroleRequestId)),
      Entry("details", Obj(e.details))
    ])
  }

  function PayloadOf(r: Row): Json {
    HashPayload(r.org, r.number, r.occurredAt, r.event)
  }

  /** Two rows record the same event: every hashed field agrees, details up to dict
      order, the timestamp as an instant. */
  ghost predicate SameRecord(r: Row, s: Row) {
    && r.org == s.org && r.number == s.number && SameInstant(r.occurredAt, s.occurredAt)
    && r.event.(details := []) == s.event.(details := [])
    && Same(Obj(r.event.details), Obj(s.event.details))
  }

  /** Objects with the same distinct keys in the same places are equal value by value. */
  lemma SameByPosition(a: seq<Entry<Json>>, b: seq<Entry<Json>>)
    requires |a| == |b| && DistinctKeys(a)
    requires forall i :: 0 <= i < |a| ==> a[i].key == b[i].key
    ensures Same(Obj(a), Obj(b)) <==> forall i :: 0 <= i < |a| ==> Same(a[i].value, b[i].value)
  {
    forall i | 0 <= i < |a|
      ensures a[i].key in KeySet(b) && b[i].key in KeySet(a)
    {
      assert a[i].key == b[i].key;
    }
    assert KeySet(a) == KeySet(b);
    if forall i :: 0 <= i < |a| ==> Same(a[i].value, b[i].value) {
      forall i, j | 0 <= i < |a| && 0 <= j < |b| && a[i].key == b[j].key
        ensures Same(a[i].value, b[j].value)
      {
        assert a[j].key == b[j].key;
        assert i == j;
      }
    }
  }

  /** The value the payload holds at each of its twelve places. */
  ghost predicate HoldsValues(a: seq<Entry<Json>>, r: Row) {
    var e := r.event;
    && |a| == 12
    && a[0].value == Str(r.org)
    && a[1].value == Int(r.number)
    && a[2].value == Str(IsoUtc(r.occurredAt))
    && a[3].value == Str(e.eventType)
    && a[4].value == OptText(e.actorUserId)
    && a[5].value == OptText(e.actorApiConsumerFlag)
    && a[6].value == OptText(e.actorDeviceId)
    && a[7].value == OptText(e.sessionMeetingId)
    && a[8].value == OptText(e.voteConfigId)
    && a[9].value == OptText(e.documentMetaId)
    && a[10].value == OptText(e.paroleRequestId)
    && a[11].value == Obj(e.details)
  }

  lemma OptTextSame(o: Option<string>, p: Option<string>)
    ensures Same(OptText(o), OptText(p)) <==> o == p
  {
  }

  lemma NextSeven(a: seq<Entry<Json>>, b: seq<Entry<Json>>)
    requires |a| == |b| == 12
    ensures (forall i :: 4 <= i < 11 ==> Same(a[i].value, b[i].value)) <==>
      (&& Same(a[4].value, b[4].value) && Same(a[5].value, b[5].value) && Same(a[6].value, b[6].value)
       && Same(a[7].value, b[7].value) && Same(a[8].value, b[8].value) && Same(a[9].value, b[9].value)
       && Same(a[10].value, b[10].value))
  {
  }

  lemma SameReferencesIff(a: seq<Entry<Json>>, r: Row, b: seq<Entry<Json>>, s: Row)
    requires HoldsValues(a, r) && HoldsValues(b, s)
    ensures (forall i :: 4 <= i < 11 ==> Same(a[i].value, b[i].value))
      <==> r.event.(eventType := "", details := []) == s.event.(eventType := "", details := [])
  {
    var e, f := r.event, s.event;
    OptTextSame(e.actorUserId, f.actorUserId);
    OptTextSame(e.actorApiConsumerFlag, f.actorApiConsumerFlag);
    OptTextSame(e.actorDeviceId, f.actorDeviceId);
    OptTextSame(e.sessionMeetingId, f.sessionMeetingId);
    OptTextSame(e.voteConfigId, f.voteConfigId);
    OptTextSame(e.documentMetaId, f.documentMetaId);
    OptTextSame(e.paroleRequestId, f.paroleRequestId);
    NextSeven(a, b);
  }

  lemma FirstFour(a: seq<Entry<Json>>, b: seq<Entry<Json>>)
    requires |a| == |b| == 12
    ensures (forall i :: 0 <= i < 4 ==> Same(a[i].value, b[i].value)) <==>
      (&& Same(a[0].value, b[0].value) && Same(a[1].value, b[1].value)
       && Same(a[2].value, b[2].value) && Same(a[3].value, b[3].value))
  {
  }

  lemma SameScalarsIff(a: seq<Entry<Json>>, r: Row, b: seq<Entry<Json>>, s: Row)
    requires HoldsValues(a, r) && HoldsValues(b, s) && WfRow(r) && WfRow(s)
    ensures (forall i :: 0 <= i < 4 ==> Same(a[i].value, b[i].value))
      <==> r.org == s.org && r.number == s.number && SameInstant(r.occurredAt, s.occurredAt)
           && r.event.eventType == s.event.eventType
  {
    IsoUtcIff(r.occurredAt, s.occurredAt);
    FirstFour(a, b);
  }

  lemma SameEntriesIff(a: seq<Entry<Json>>, r: Row, b: seq<Entry<Json>>, s: Row)
    requires HoldsValues(a, r) && HoldsValues(b, s) && WfRow(r) && WfRow(s)
    requires DistinctKeys(a) && forall i :: 0 <= i < 12 ==> a[i].key == b[i].key
    ensures Same(Obj(a), Obj(b)) <==> SameRecord(r, s)
  {
    SameByPosition(a, b);
    SameScalarsIff(a, r, b, s);
    SameReferencesIff(a, r, b, s);
    assert (forall i :: 0 <= i < 12 ==> Same(a[i].value, b[i].value)) <==>
      (&& (forall i :: 0 <= i < 4 ==> Same(a[i].value, b[i].value))
       && (forall i :: 4 <= i < 11 ==> Same(a[i].value, b[i].value))
       && Same(a[11].value, b[11].value));
  }

  lemma PayloadHoldsValues(r: Row)
    ensures HoldsValues(PayloadOf(r).members, r)
  {
    hide IsoUtc, OptText;
  }

  lemma PayloadKeysDistinct(r: Row)
    ensures DistinctKeys(PayloadOf(r).members)
  {
    hide IsoUtc, OptText;
  }

  lemma PayloadValuesWf(r: Row, i: nat)
    requires WfRow(r) && i < 12
    ensures Wf(PayloadOf(r).members[i].value)
  {
    hide IsoUtc, ValidTime;
  }

  lemma PayloadShape(r: Row)
    ensures PayloadOf(r).Obj? && |PayloadOf(r).members| == 12
  {
  }

  lemma PayloadWf(r: Row)
    requires WfRow(r)
    ensures Wf(PayloadOf(r))
  {
    hide HashPayload, PayloadOf;
    PayloadHoldsValues(r);
    PayloadKeysDistinct(r);
    assert PayloadOf(r).Obj? && |PayloadOf(r).members| == 12 by { PayloadShape(r); }
    forall i | 0 <= i < 12
      ensures Wf(PayloadOf(r).members[i].value)
    {
      PayloadValuesWf(r, i);
    }
  }

  lemma PayloadKeysAligned(r: Row, s: Row)
    ensures forall i :: 0 <= i < 12 ==> PayloadOf(r).members[i].key == PayloadOf(s).members[i].key
  {
  }

  /** Main result on payloads: they are equal exactly when the rows record the same event. */
  lemma SamePayloadIff(r: Row, s: Row)
    requires WfRow(r) && WfRow(s)
    ensures Same(PayloadOf(r), PayloadOf(s)) <==> SameRecord(r, s)
  {
    PayloadWf(r);
    PayloadHoldsValues(r);
    PayloadHoldsValues(s);
    PayloadKeysAligned(r, s);
    PayloadKeysDistinct(r);
    PayloadShape(r);
    PayloadShape(s);
    hide HashPayload, PayloadOf, HoldsValues, Wf;
    SameEntriesIff(PayloadOf(r).members, r, PayloadOf(s).members, s);
  }
}
