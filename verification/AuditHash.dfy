/** What is hashed: `prev_hash|canonical_json(payload)`. The separator is safe for
    every link text, even one that itself contains `|`. */
module AuditHash {
  import opened TextOrder
  import opened Json
  import opened JsonReader
  import opened JsonCanonical
  import opened AuditRow

  predicate IsDigestText(s: string) {
    |s| == 64 && forall i :: 0 <= i < 64 ==> '0' <= s[i] <= '9' || 'a' <= s[i] <= 'f'
  }

  /** 64 lower-case hex characters. The hash is a parameter, never assumed injective. */
  type Digest = s: string | IsDigestText(s) witness seq(64, _ => '0')

  const GENESIS_HASH := "GENESIS"

  function Material(r: Row): string {
    r.prevEventHash + "|" + Canonical(PayloadOf(r))
  }

  /** `compute_event_hash(row.prev_event_hash, _payload_for_hash(row))`. */
  function EventHash(H: string -> Digest, r: Row): Digest {
    H(Material(r))
  }

  // ---- the hashed text, name by name ----

  function TextOrNull(o: Option<string>): Json {
    if o.Some? then Str(o.value) else Null
  }

  lemma BoundAfterSort(m: seq<Entry<Json>>, i: nat)
    requires i < |m|
    ensures Entry(m[i].key, SortKeys(m[i].value)) in Sort(SortMembers(m))
  {
    SameElements(SortMembers(m), Sort(SortMembers(m)));
    assert SortMembers(m)[i] in SortMembers(m);
  }

  lemma SortedSize(m: seq<Entry<Json>>)
    ensures |Sort(SortMembers(m))| == |m|
  {
    SameElements(SortMembers(m), Sort(SortMembers(m)));
  }

  /** The twelve members that the hashed object has. */
  ghost predicate HoldsRow(m: seq<Entry<Json>>, r: Row) {
    && |m| == 12
    && Entry("sys_organization_id", Str(r.org)) in m
    && Entry("sequence_number", Int(r.number)) in m
    && Entry("occurred_at", Str(IsoUtc(r.occurredAt))) in m
    && Entry("event_type", Str(r.event.eventType)) in m
    && Entry("actor_user_id", TextOrNull(r.event.actorUserId)) in m
    && Entry("actor_api_consumer_flag", TextOrNull(r.event.actorApiConsumerFlag)) in m
    && Entry("actor_device_id_str", TextOrNull(r.event.actorDeviceId)) in m
    && Entry("session_meeting_id", TextOrNull(r.event.sessionMeetingId)) in m
    && Entry("vote_config_id", TextOrNull(r.event.voteConfigId)) in m
    && Entry("document_meta_id", TextOrNull(r.event.documentMetaId)) in m
    && Entry("parole_request_id", TextOrNull(r.event.paroleRequestId)) in m
    && Entry("details", SortKeys(Obj(r.event.details))) in m
  }

  lemma PayloadMembers(r: Row)
    ensures var m := PayloadOf(r).members;
      && |m| == 12
      && m[0] == Entry("sys_organization_id", Str(r.org))
      && m[1] == Entry("sequence_number", Int(r.number))
      && m[2] == Entry("occurred_at", Str(IsoUtc(r.occurredAt)))
      && m[3] == Entry("event_type", Str(r.event.eventType))
      && m[4] == Entry("actor_user_id", TextOrNull(r.event.actorUserId))
      && m[5] == Entry("actor_api_consumer_flag", TextOrNull(r.event.actorApiConsumerFlag))
      && m[6] == Entry("actor_device_id_str", TextOrNull(r.event.actorDeviceId))
      && m[7] == Entry("session_meeting_id", TextOrNull(r.event.sessionMeetingId))
      && m[8] == Entry("vote_config_id", TextOrNull(r.event.voteConfigId))
      && m[9] == Entry("document_meta_id", TextOrNull(r.event.documentMetaId))
      && m[10] == Entry("parole_request_id", TextOrNull(r.event.paroleRequestId))
      && m[11] == Entry("details", Obj(r.event.details))
  {
    hide IsoUtc;
  }

  lemma PayloadScalar(r: Row, i: nat)
    requires i < 11
    ensures |PayloadOf(r).members| == 12
    ensures var v := PayloadOf(r).members[i].value; v.Null? || v.Int? || v.Str?
  {
    hide IsoUtc;
  }

  /** Sorting moves a payload's members and leaves all but the details as they are. */
  lemma PayloadMemberStays(r: Row, i: nat)
    requires i < 11
    ensures |PayloadOf(r).members| == 12 && PayloadOf(r).members[i] in Sort(SortMembers(PayloadOf(r).members))
  {
    PayloadScalar(r, i);
    hide PayloadOf, HashPayload, Sort, SortMembers;
    BoundAfterSort(PayloadOf(r).members, i);
  }

  lemma SortedPayloadHoldsRow(r: Row)
    ensures HoldsRow(Sort(SortMembers(PayloadOf(r).members)), r)
  {
    var m := PayloadOf(r).members;
    PayloadMembers(r);
    SortedSize(m);
    BoundAfterSort(m, 11);
    hide PayloadOf, HashPayload, IsoUtc, Sort, SortMembers, TextOrNull, SortKeys;
    forall i: nat | i < 11
      ensures m[i] in Sort(SortMembers(m))
    {
      PayloadMemberStays(r, i);
    }
    assert m[0] in Sort(SortMembers(m)) && m[1] in Sort(SortMembers(m)) && m[2] in Sort(SortMembers(m));
    assert m[3] in Sort(SortMembers(m)) && m[4] in Sort(SortMembers(m)) && m[5] in Sort(SortMembers(m));
    assert m[6] in Sort(SortMembers(m)) && m[7] in Sort(SortMembers(m)) && m[8] in Sort(SortMembers(m));
    assert m[9] in Sort(SortMembers(m)) && m[10] in Sort(SortMembers(m));
  }

  /** Main result on what is hashed: the link, a bar, and a text that reads as an object
      with exactly twelve members, each name bound to its field of the row; the details may
      come in another dict order. */
  lemma MaterialReads(r: Row) returns (m: seq<Entry<Json>>, text: string)
    requires WfRow(r)
    ensures Material(r) == r.prevEventHash + "|" + text && ReadValue(text) == Some((Obj(m), ""))
    ensures HoldsRow(m, r) && DistinctKeys(m) && KeysAscend(Obj(m))
    ensures Same(Obj(r.event.details), SortKeys(Obj(r.event.details)))
  {
    text := Canonical(PayloadOf(r));
    m := Sort(SortMembers(PayloadOf(r).members));
    PayloadWf(r);
    PayloadShape(r);
    CanonicalRoundTrip(PayloadOf(r));
    SortKeysWf(PayloadOf(r));
    SortKeysAscend(PayloadOf(r));
    SortKeysIsSame(Obj(r.event.details));
    SortedPayloadHoldsRow(r);
    hide PayloadOf, HashPayload, Canonical, HoldsRow, Sort, SortMembers, ReadValue;
    assert SortKeys(PayloadOf(r)) == Obj(m);
  }

  /** The two rows exhibit a collision of the hash. */
  predicate Collide(H: string -> Digest, r: Row, s: Row) {
    Material(r) != Material(s) && EventHash(H, r) == EventHash(H, s)
  }

  // ---- the text after the separator cannot be re-cut ----

  predicate EndsMember(c: char) {
    IsDelimiter(c) || c == ':'
  }

  predicate CutSafe(s: string, i: nat) {
    i + 3 < |s| && s[i] == '|' && s[i + 1] == '{' && s[i + 2] == '"' ==> EndsMember(s[i + 3])
  }

  /** Wherever `|{"` occurs, the quote closes a string: what follows is punctuation. */
  ghost predicate PipeSafe(s: string) {
    forall i: nat :: CutSafe(s, i)
  }

  lemma PushSafe(c: char, s: string)
    requires PipeSafe(s)
    requires c == '|' && |s| >= 3 && s[0] == '{' && s[1] == '"' ==> EndsMember(s[2])
    ensures PipeSafe([c] + s)
  {
    var t := [c] + s;
    forall i: nat
      ensures CutSafe(t, i)
    {
      if i > 0 {
        assert CutSafe(s, i - 1);
      }
    }
  }

  lemma {:induction false} PrefixSafe(t: string, s: string)
    requires PipeSafe(s) && forall i :: 0 <= i < |t| ==> t[i] != '|'
    ensures PipeSafe(t + s)
  {
    if t == "" {
      assert t + s == s;
    } else {
      PrefixSafe(t[1..], s);
      PushSafe(t[0], t[1..] + s);
      assert [t[0]] + (t[1..] + s) == t + s;
    }
  }

  lemma CharsNonEmpty(t: string, s: string)
    requires s != ""
    ensures EmitChars(t, s) != ""
  {
  }

  /** Inside a string literal an unescaped quote is the closing one. */
  lemma CharsHead(t: string, rest: string)
    requires rest != ""
    ensures var s := EmitChars(t, "\"" + rest);
      && |s| >= 2
      && (s[0] == '"' ==> t == "" && s[1] == rest[0])
      && (s[0] == '{' ==> t != "" && t[0] == '{')
  {
    if t != "" {
      var s := EmitChars(t[1..], "\"" + rest);
      assert EmitChars(t, "\"" + rest) == EscapeChar(t[0]) + s;
      CharsNonEmpty(t[1..], "\"" + rest);
    }
  }

  /** After a `|` inside a literal, `{"` can only be the end of it. */
  lemma PipeHead(t: string, rest: string)
    requires t != "" && rest != "" && EndsMember(rest[0])
    ensures var tail := EmitChars(t[1..], "\"" + rest);
      |tail| >= 3 && tail[0] == '{' && tail[1] == '"' ==> EndsMember(tail[2])
  {
    if |t| >= 2 && t[1] == '{' {
      CharsHead(t[2..], rest);
      assert EmitChars(t[1..], "\"" + rest) == "{" + EmitChars(t[2..], "\"" + rest);
    } else {
      CharsHead(t[1..], rest);
    }
  }

  lemma {:induction false} CharsSafe(t: string, rest: string)
    requires PipeSafe(rest) && rest != "" && EndsMember(rest[0])
    ensures PipeSafe(EmitChars(t, "\"" + rest))
  {
    PrefixSafe("\"", rest);
    if t != "" {
      var tail := EmitChars(t[1..], "\"" + rest);
      CharsSafe(t[1..], rest);
      if t[0] == '|' {
        PipeHead(t, rest);
        PushSafe('|', tail);
      } else {
        PrefixSafe(EscapeChar(t[0]), tail);
      }
    }
  }

  lemma StringSafe(t: string, rest: string)
    requires PipeSafe(rest) && rest != "" && EndsMember(rest[0])
    ensures PipeSafe(EmitString(t, rest)) && EmitString(t, rest) != ""
  {
    CharsSafe(t, rest);
    PrefixSafe("\"", EmitChars(t, "\"" + rest));
  }

  lemma ScalarNoPipe(v: Json)
    requires Wf(v) && (v.Null? || v.Bool? || v.Int? || v.Float?)
    ensures forall i :: 0 <= i < |ScalarText(v)| ==> ScalarText(v)[i] != '|'
  {
    if v.Int? {
      IntTextChars(v.n);
    }
    hide IntText;
  }

  lemma {:induction false} EmitSafe(v: Json, rest: string)
    requires Wf(v)
    requires PipeSafe(rest) && rest != "" && EndsMember(rest[0])
    ensures PipeSafe(Emit(v, rest))
    decreases v, 1
  {
    match v
    case Str(t) => StringSafe(t, rest);
    case Arr(items) =>
      PrefixSafe("]", rest);
      EmitItemsSafe(items, true, "]" + rest);
      PrefixSafe("[", EmitItems(items, true, "]" + rest));
    case Obj(members) =>
      PrefixSafe("}", rest);
      EmitMembersSafe(members, true, "}" + rest);
      PrefixSafe("{", EmitMembers(members, true, "}" + rest));
    case _ =>
      ScalarNoPipe(v);
      PrefixSafe(ScalarText(v), rest);
  }

  lemma {:induction false} EmitItemsSafe(items: seq<Json>, first: bool, rest: string)
    requires forall i :: 0 <= i < |items| ==> Wf(items[i])
    requires PipeSafe(rest) && rest != "" && EndsMember(rest[0])
    ensures PipeSafe(EmitItems(items, first, rest))
    ensures EmitItems(items, first, rest) != ""
    ensures !first ==> EndsMember(EmitItems(items, first, rest)[0])
    decreases items, 0
  {
    if items != [] {
      var more := EmitItems(items[1..], false, rest);
      EmitItemsSafe(items[1..], false, rest);
      EmitSafe(items[0], more);
      EmitHead(items[0], more);
      PrefixSafe(if first then "" else ",", Emit(items[0], more));
    }
  }

  lemma {:induction false} EmitMembersSafe(members: seq<Entry<Json>>, first: bool, rest: string)
    requires forall i :: 0 <= i < |members| ==> Wf(members[i].value)
    requires PipeSafe(rest) && rest != "" && EndsMember(rest[0])
    ensures PipeSafe(EmitMembers(members, first, rest))
    ensures EmitMembers(members, first, rest) != ""
    ensures !first ==> EndsMember(EmitMembers(members, first, rest)[0])
    decreases members, 0
  {
    if members != [] {
      var more := EmitMembers(members[1..], false, rest);
      var value := Emit(members[0].value, more);
      EmitMembersSafe(members[1..], false, rest);
      EmitSafe(members[0].value, more);
      PrefixSafe(":", value);
      StringSafe(members[0].key, ":" + value);
      PrefixSafe(if first then "" else ",", EmitString(members[0].key, ":" + value));
    }
  }

  lemma LeastKey(m: seq<Entry<Json>>, x: seq<Entry<Json>>, sorted: seq<Entry<Json>>)
    requires m != [] && |x| == |m| && multiset(x) == multiset(sorted)
    requires forall i :: 0 <= i < |m| ==> x[i].key == m[i].key && m[i].key != "" && 'a' <= m[i].key[0] <= 'z'
    ensures sorted != [] && sorted[0].key != "" && 'a' <= sorted[0].key[0] <= 'z'
  {
    SameElements(x, sorted);
    assert sorted[0] in x;
  }

  lemma MembersHead(m: seq<Entry<Json>>, rest: string)
    requires m != [] && m[0].key != "" && 'a' <= m[0].key[0] <= 'z'
    ensures var t := "{" + EmitMembers(m, true, rest);
      |t| >= 3 && t[0] == '{' && t[1] == '"' && t[2] == m[0].key[0]
  {
    var k := m[0].key;
    var after := ":" + Emit(m[0].value, EmitMembers(m[1..], false, rest));
    assert EmitMembers(m, true, rest) == "" + EmitString(k, after);
    assert EmitString(k, after) == "\"" + EmitChars(k, "\"" + after);
    assert EmitChars(k, "\"" + after) == EscapeChar(k[0]) + EmitChars(k[1..], "\"" + after);
  }

  /** The text of an object whose keys all start with a lower-case letter. */
  lemma ObjectText(m: seq<Entry<Json>>)
    requires Wf(Obj(m)) && m != []
    requires forall i :: 0 <= i < |m| ==> m[i].key != "" && 'a' <= m[i].key[0] <= 'z'
    ensures var t := Canonical(Obj(m));
      |t| >= 3 && t[0] == '{' && t[1] == '"' && 'a' <= t[2] <= 'z' && PipeSafe(t)
  {
    var sorted := Sort(SortMembers(m));
    SortKeysWf(Obj(m));
    assert SortKeys(Obj(m)) == Obj(sorted);
    LeastKey(m, SortMembers(m), sorted);
    var tail := EmitMembers(sorted, true, "}" + "");
    EmitMembersSafe(sorted, true, "}" + "");
    PrefixSafe("{", tail);
    MembersHead(sorted, "}" + "");
  }

  lemma PayloadKeyLetters(r: Row, i: nat)
    requires i < 12
    ensures PayloadOf(r).members[i].key != "" && 'a' <= PayloadOf(r).members[i].key[0] <= 'z'
  {
  }

  lemma PayloadText(r: Row)
    requires WfRow(r)
    ensures var t := Canonical(PayloadOf(r));
      |t| >= 3 && t[0] == '{' && t[1] == '"' && 'a' <= t[2] <= 'z' && PipeSafe(t)
  {
    var m := PayloadOf(r).members;
    PayloadWf(r);
    forall i | 0 <= i < |m|
      ensures m[i].key != "" && 'a' <= m[i].key[0] <= 'z'
    {
      PayloadKeyLetters(r, i);
    }
    ObjectText(m);
  }

  /** A payload text has no proper suffix after `|` that is a payload text. */
  lemma CutElsewhere(p: string, t: string, q: string, u: string)
    requires |p| < |q| && PipeSafe(t)
    requires |u| >= 3 && u[0] == '{' && u[1] == '"' && 'a' <= u[2] <= 'z'
    ensures p + "|" + t != q + "|" + u
  {
    var w, v := p + "|" + t, q + "|" + u;
    if |w| == |v| {
      var i := |q| - |p| - 1;
      assert CutSafe(t, i);
      assert w[|q|..][..4] == t[i..][..4];
      assert v[|q|..][..4] == ['|', u[0], u[1], u[2]];
      assert t[i..][..4] == [t[i], t[i + 1], t[i + 2], t[i + 3]];
    }
  }

  /** Main result on hashed texts: two rows hash the same text exactly when they
      carry the same link and record the same event, whatever the links contain. */
  lemma MaterialIff(r: Row, s: Row)
    requires WfRow(r) && WfRow(s)
    ensures Material(r) == Material(s) <==> r.prevEventHash == s.prevEventHash && SameRecord(r, s)
  {
    PayloadWf(r);
    PayloadWf(s);
    CanonicalIff(PayloadOf(r), PayloadOf(s));
    SamePayloadIff(r, s);
    if Material(r) == Material(s) {
      PayloadText(r);
      PayloadText(s);
      var (p, q, t, u) := (r.prevEventHash, s.prevEventHash, Canonical(PayloadOf(r)), Canonical(PayloadOf(s)));
      if |p| < |q| {
        CutElsewhere(p, t, q, u);
      } else if |q| < |p| {
        CutElsewhere(q, u, p, t);
      }
      SplitEqual(p + "|", t, q + "|", u);
      SplitEqual(p, "|", q, "|");
    }
  }
}
