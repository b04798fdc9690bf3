/** The audit chain as a step system: any number of emitters interleave their lock
    attempts, tail reads and inserts over one collection with a unique index on
    (organisation, sequence number). The lock may answer anything and may expire
    at any time, so no step depends on it; a tail read may be stale. `digest` gives
    the hash of a row's link and payload; AuditHash says what it is in the source. */
module AuditChain {
  import opened Json
  import opened AuditRow
  import opened AuditHash

  datatype Slot = Slot(org: string, number: nat)

  /** The collection. A map is the unique index: one row per slot. */
  type Rows = map<Slot, Row>

  function SlotOf(r: Row): Slot {
    Slot(r.org, r.number)
  }

  /** Where an emitter stands in `emit`; `attempt` counts from 0. */
  datatype Pc =
    | TryLock
    | ReadTail(attempt: nat)
    | InsertRow(attempt: nat, draft: Row)
    | Done(row: Row)
    | Failed

  datatype Emitter = Emitter(org: string, event: Event, maxRetries: int, locked: bool, pc: Pc)

  /** `author` remembers which emitter committed each row. */
  datatype State = State(rows: Rows, emitters: map<nat, Emitter>, author: map<Slot, nat>)

  datatype Step =
    | Start(id: nat, org: string, event: Event, maxRetries: int)
    | Lock(id: nat, granted: bool)
    | Read(id: nat, seen: nat, now: DateTime)
    | Insert(id: nat)

  const EMPTY := State(map[], map[], map[])

  // ---- the steps of emit ----

  function TailHash(rows: Rows, org: string, seen: nat): string
    requires seen > 0 ==> Slot(org, seen - 1) in rows
  {
    if seen == 0 then GENESIS_HASH else rows[Slot(org, seen - 1)].eventHash
  }

  function Unhashed(r: Row): Row {
    r.(eventHash := "")
  }

  /** The row built from the tail that was read: numbered after it, linked to it,
      stamped with whole milliseconds and hashed. */
  function BuildRow(digest: Row -> Digest, org: string, number: nat, prev: string, now: DateTime, e: Event): Row {
    var unhashed := Row(org, number, TruncateToMs(now), e, prev, "");
    unhashed.(eventHash := digest(unhashed))
  }

  function Retry(attempt: nat, maxRetries: int): Pc {
    if attempt < maxRetries then ReadTail(attempt) else Failed
  }

  /** One step; a step that is not enabled changes nothing. `seen` is the number of
      rows of the organisation in the (possibly outdated) snapshot of the tail read. */
  function Next(digest: Row -> Digest, s: State, step: Step): State {
    if step.Start? then
      if step.id in s.emitters then s
      else s.(emitters := s.emitters[step.id := Emitter(step.org, step.event, step.maxRetries, false, TryLock)])
    else if step.id !in s.emitters then s
    else
      var e := s.emitters[step.id];
      match step
      case Lock(id, granted) =>
        if e.pc != TryLock then s
        else s.(emitters := s.emitters[id := e.(locked := granted, pc := Retry(0, e.maxRetries))])
      case Read(id, seen, now) =>
        if !e.pc.ReadTail? || (seen > 0 && Slot(e.org, seen - 1) !in s.rows) then s
        else
          var draft := BuildRow(digest, e.org, seen, TailHash(s.rows, e.org, seen), now, e.event);
          s.(emitters := s.emitters[id := e.(pc := InsertRow(e.pc.attempt, draft))])
      case Insert(id) =>
        if !e.pc.InsertRow? then s
        else
          var draft := e.pc.draft;
          if SlotOf(draft) in s.rows then
            s.(emitters := s.emitters[id := e.(pc := Retry(e.pc.attempt + 1, e.maxRetries))])
          else
            State(s.rows[SlotOf(draft) := draft],
                  s.emitters[id := e.(pc := Done(draft))],
                  s.author[SlotOf(draft) := id])
  }

  function Run(digest: Row -> Digest, s: State, steps: seq<Step>): State {
    if steps == [] then s else Next(digest, Run(digest, s, steps[..|steps| - 1]), steps[|steps| - 1])
  }

  /** What the source demands of its callers and its clock: JSON-able details, a UTC clock. */
  ghost predicate Sane(step: Step) {
    match step
    case Start(_, _, event, _) => Wf(Obj(event.details))
    case Read(_, _, now) => ValidTime(now) && now.zone == Utc
    case _ => true
  }

  ghost predicate AllSane(steps: seq<Step>) {
    forall i :: 0 <= i < |steps| ==> Sane(steps[i])
  }

  // ---- the invariant ----

  /** r is correctly hashed and linked to the row before it. */
  ghost predicate Linked(digest: Row -> Digest, rows: Rows, r: Row) {
    && WfRow(r)
    && r.occurredAt.micro % 1000 == 0
    && r.eventHash == digest(Unhashed(r))
    && (r.number > 0 ==> Slot(r.org, r.number - 1) in rows)
    && r.prevEventHash == TailHash(rows, r.org, r.number)
  }

  ghost predicate RowOk(digest: Row -> Digest, rows: Rows, k: Slot)
    requires k in rows
  {
    SlotOf(rows[k]) == k && Linked(digest, rows, rows[k])
  }

  ghost predicate RowsOk(digest: Row -> Digest, rows: Rows) {
    forall k {:trigger RowOk(digest, rows, k)} :: k in rows ==> RowOk(digest, rows, k)
  }

  ghost predicate EmitterOk(digest: Row -> Digest, s: State, id: nat)
    requires id in s.emitters
  {
    var e := s.emitters[id];
    && Wf(Obj(e.event.details))
    && (e.pc.ReadTail? ==> e.pc.attempt < e.maxRetries)
    && (e.pc.InsertRow? ==>
          && e.pc.attempt < e.maxRetries && e.pc.draft.org == e.org && e.pc.draft.event == e.event
          && Linked(digest, s.rows, e.pc.draft))
    && (e.pc.Done? ==>
          && e.pc.row.org == e.org && e.pc.row.event == e.event
          && SlotOf(e.pc.row) in s.rows && s.rows[SlotOf(e.pc.row)] == e.pc.row
          && SlotOf(e.pc.row) in s.author && s.author[SlotOf(e.pc.row)] == id)
  }

  ghost predicate EmittersOk(digest: Row -> Digest, s: State) {
    forall id {:trigger EmitterOk(digest, s, id)} :: id in s.emitters ==> EmitterOk(digest, s, id)
  }

  ghost predicate AuthorOk(s: State, k: Slot)
    requires k in s.rows && s.author.Keys == s.rows.Keys
  {
    s.author[k] in s.emitters && s.emitters[s.author[k]].pc == Done(s.rows[k])
  }

  /** Every row was committed by exactly one emit call, which returned that row. */
  ghost predicate AuthorsOk(s: State) {
    && s.author.Keys == s.rows.Keys
    && forall k {:trigger AuthorOk(s, k)} :: k in s.rows ==> AuthorOk(s, k)
  }

  ghost predicate Inv(digest: Row -> Digest, s: State) {
    RowsOk(digest, s.rows) && EmittersOk(digest, s) && AuthorsOk(s)
  }

  ghost predicate AppendOnly(before: Rows, after: Rows) {
    forall k :: k in before ==> k in after && after[k] == before[k]
  }

  lemma LinkedStays(digest: Row -> Digest, before: Rows, after: Rows, r: Row)
    requires AppendOnly(before, after) && Linked(digest, before, r)
    ensures Linked(digest, after, r)
  {
  }

  lemma BuildRowLinked(digest: Row -> Digest, rows: Rows, org: string, seen: nat, now: DateTime, e: Event)
    requires seen > 0 ==> Slot(org, seen - 1) in rows
    requires ValidTime(now) && Wf(Obj(e.details))
    ensures Linked(digest, rows, BuildRow(digest, org, seen, TailHash(rows, org, seen), now, e))
  {
    var r := BuildRow(digest, org, seen, TailHash(rows, org, seen), now, e);
    assert Unhashed(r) == Row(org, seen, TruncateToMs(now), e, TailHash(rows, org, seen), "");
  }

  lemma InsertKeepsRows(digest: Row -> Digest, rows: Rows, draft: Row)
    requires RowsOk(digest, rows) && Linked(digest, rows, draft) && SlotOf(draft) !in rows
    ensures RowsOk(digest, rows[SlotOf(draft) := draft]) && AppendOnly(rows, rows[SlotOf(draft) := draft])
  {
    var after := rows[SlotOf(draft) := draft];
    forall k | k in after
      ensures RowOk(digest, after, k)
    {
      assert k != SlotOf(draft) ==> RowOk(digest, rows, k);
      LinkedStays(digest, rows, after, after[k]);
    }
  }

  lemma EmitterStays(digest: Row -> Digest, s: State, t: State, id: nat)
    requires id in s.emitters && EmitterOk(digest, s, id)
    requires id in t.emitters && t.emitters[id] == s.emitters[id]
    requires AppendOnly(s.rows, t.rows)
    requires forall k :: k in s.author ==> k in t.author && t.author[k] == s.author[k]
    ensures EmitterOk(digest, t, id)
  {
    if s.emitters[id].pc.InsertRow? {
      LinkedStays(digest, s.rows, t.rows, s.emitters[id].pc.draft);
    }
  }

  /** A step that commits nothing moves only the acting emitter. */
  lemma QuietStepKeepsInv(digest: Row -> Digest, s: State, id: nat, e: Emitter)
    requires Inv(digest, s)
    requires id in s.emitters ==> !s.emitters[id].pc.Done?
    requires EmitterOk(digest, s.(emitters := s.emitters[id := e]), id)
    ensures Inv(digest, s.(emitters := s.emitters[id := e]))
  {
    var t := s.(emitters := s.emitters[id := e]);
    forall i | i in t.emitters
      ensures EmitterOk(digest, t, i)
    {
      if i != id {
        assert EmitterOk(digest, s, i);
        EmitterStays(digest, s, t, i);
      }
    }
    forall k | k in t.rows
      ensures AuthorOk(t, k)
    {
      assert AuthorOk(s, k);
    }
  }

  /** The state after emitter `id` has inserted its draft. */
  function Committed(s: State, id: nat): State
    requires id in s.emitters && s.emitters[id].pc.InsertRow?
  {
    var draft := s.emitters[id].pc.draft;
    State(s.rows[SlotOf(draft) := draft],
          s.emitters[id := s.emitters[id].(pc := Done(draft))],
          s.author[SlotOf(draft) := id])
  }

  lemma CommitStep(digest: Row -> Digest, s: State, id: nat)
    requires id in s.emitters && s.emitters[id].pc.InsertRow? && SlotOf(s.emitters[id].pc.draft) !in s.rows
    ensures Next(digest, s, Insert(id)) == Committed(s, id)
  {
  }

  lemma CommitKeepsEmitter(digest: Row -> Digest, s: State, id: nat, i: nat)
    requires Inv(digest, s) && id in s.emitters && s.emitters[id].pc.InsertRow?
    requires SlotOf(s.emitters[id].pc.draft) !in s.rows && i in s.emitters
    ensures EmitterOk(digest, Committed(s, id), i)
  {
    assert EmitterOk(digest, s, i);
    if i != id {
      EmitterStays(digest, s, Committed(s, id), i);
    }
  }

  lemma CommitKeepsAuthors(digest: Row -> Digest, s: State, id: nat)
    requires Inv(digest, s) && id in s.emitters && s.emitters[id].pc.InsertRow?
    requires SlotOf(s.emitters[id].pc.draft) !in s.rows
    ensures AuthorsOk(Committed(s, id))
  {
    hide RowsOk, EmittersOk;
    var t := Committed(s, id);
    forall k | k in t.rows
      ensures AuthorOk(t, k)
    {
      if k in s.rows {
        assert AuthorOk(s, k);
      }
    }
  }

  lemma CommitKeepsInv(digest: Row -> Digest, s: State, id: nat)
    requires Inv(digest, s) && id in s.emitters && s.emitters[id].pc.InsertRow?
    requires SlotOf(s.emitters[id].pc.draft) !in s.rows
    ensures Inv(digest, Next(digest, s, Insert(id)))
    ensures AppendOnly(s.rows, Next(digest, s, Insert(id)).rows)
  {
    var t := Committed(s, id);
    CommitStep(digest, s, id);
    CommitKeepsAuthors(digest, s, id);
    assert EmitterOk(digest, s, id);
    InsertKeepsRows(digest, s.rows, s.emitters[id].pc.draft);
    hide Next, AuthorsOk, RowsOk, Linked;
    forall i | i in t.emitters
      ensures EmitterOk(digest, t, i)
    {
      CommitKeepsEmitter(digest, s, id, i);
    }
  }

  /** One step of anybody keeps the invariant and never changes a committed row. */
  lemma NextKeepsInv(digest: Row -> Digest, s: State, step: Step)
    requires Inv(digest, s) && Sane(step)
    ensures Inv(digest, Next(digest, s, step))
    ensures AppendOnly(s.rows, Next(digest, s, step).rows)
  {
    var t := Next(digest, s, step);
    if t != s {
      var id := step.id;
      if t.rows != s.rows {
        CommitKeepsInv(digest, s, id);
      } else {
        assert t == s.(emitters := s.emitters[id := t.emitters[id]]);
        assert id in s.emitters ==> EmitterOk(digest, s, id);
        if step.Read? {
          var e := s.emitters[id];
          BuildRowLinked(digest, s.rows, e.org, step.seen, step.now, e.event);
        }
        QuietStepKeepsInv(digest, s, id, t.emitters[id]);
      }
    }
  }

  /** Main safety result: every run, from any good state, with any lock answers and
      any staleness, keeps the invariant and only appends. */
  lemma {:induction false} RunKeepsInv(digest: Row -> Digest, s: State, steps: seq<Step>)
    requires Inv(digest, s) && AllSane(steps)
    ensures Inv(digest, Run(digest, s, steps))
    ensures AppendOnly(s.rows, Run(digest, s, steps).rows)
  {
    if steps != [] {
      RunKeepsInv(digest, s, steps[..|steps| - 1]);
      NextKeepsInv(digest, Run(digest, s, steps[..|steps| - 1]), steps[|steps| - 1]);
    }
  }

  /** A committed row keeps its author. */
  lemma {:induction false} AuthorsStay(digest: Row -> Digest, s: State, steps: seq<Step>, k: Slot)
    requires Inv(digest, s) && AllSane(steps) && k in s.author
    ensures k in Run(digest, s, steps).author && Run(digest, s, steps).author[k] == s.author[k]
  {
    if steps != [] {
      var init := steps[..|steps| - 1];
      AuthorsStay(digest, s, init, k);
      RunKeepsInv(digest, s, init);
    }
  }

  /** A step adds at most one row, to the acting emitter's organisation, right after
      that organisation's last row; every other chain is untouched. */
  lemma StepTouchesOneChain(digest: Row -> Digest, s: State, step: Step, k: Slot)
    requires Inv(digest, s) && k in Next(digest, s, step).rows && k !in s.rows
    ensures step.Insert? && step.id in s.emitters && k.org == s.emitters[step.id].org
    ensures k.number > 0 ==> Slot(k.org, k.number - 1) in s.rows
    ensures Next(digest, s, step).rows.Keys == s.rows.Keys + {k}
  {
    assert EmitterOk(digest, s, step.id);
  }

  // ---- no gaps ----

  lemma {:induction false} NoGaps(digest: Row -> Digest, rows: Rows, org: string, p: nat, q: nat)
    requires RowsOk(digest, rows) && p <= q && Slot(org, q) in rows
    ensures Slot(org, p) in rows
    decreases q
  {
    if p < q {
      assert RowOk(digest, rows, Slot(org, q));
      NoGaps(digest, rows, org, p, q - 1);
    }
  }

  /** The organisation has exactly the sequence numbers 0..n-1. */
  ghost predicate IsLength(rows: Rows, org: string, n: nat) {
    forall q: nat :: Slot(org, q) in rows <==> q < n
  }

  lemma HasLength(digest: Row -> Digest, rows: Rows, org: string) returns (n: nat)
    requires RowsOk(digest, rows)
    ensures IsLength(rows, org, n)
  {
    n := 0;
    ghost var left := rows.Keys;
    while Slot(org, n) in rows
      invariant forall q: nat :: q < n ==> Slot(org, q) in rows
      invariant left == set k | k in rows && !(k.org == org && k.number < n)
      decreases left
    {
      var smaller := set k | k in rows && !(k.org == org && k.number < n + 1);
      assert Slot(org, n) in left && Slot(org, n) !in smaller;
      left := smaller;
      n := n + 1;
    }
    forall q: nat | Slot(org, q) in rows
      ensures q < n
    {
      if n <= q {
        NoGaps(digest, rows, org, n, q);
      }
    }
  }

  /** An organisation's rows in sequence order. */
  function ChainOf(rows: Rows, org: string, n: nat): (c: seq<Row>)
    requires forall q: nat :: q < n ==> Slot(org, q) in rows
    ensures |c| == n && forall q: nat :: q < n ==> c[q] == rows[Slot(org, q)]
  {
    if n == 0 then [] else ChainOf(rows, org, n - 1) + [rows[Slot(org, n - 1)]]
  }

  ghost predicate HonestRow(digest: Row -> Digest, org: string, c: seq<Row>, i: nat)
    requires i < |c|
  {
    && WfRow(c[i]) && c[i].org == org && c[i].number == i
    && c[i].prevEventHash == (if i == 0 then GENESIS_HASH else c[i - 1].eventHash)
    && c[i].eventHash == digest(Unhashed(c[i]))
  }

  /** A whole chain as emitted: numbered from 0, first row linked to GENESIS, every
      other row linked to its predecessor, every row correctly hashed. */
  ghost predicate HonestChain(digest: Row -> Digest, org: string, c: seq<Row>) {
    forall i: nat {:trigger HonestRow(digest, org, c, i)} :: i < |c| ==> HonestRow(digest, org, c, i)
  }

  lemma RowsFormHonestChain(digest: Row -> Digest, rows: Rows, org: string, n: nat)
    requires RowsOk(digest, rows) && IsLength(rows, org, n)
    ensures HonestChain(digest, org, ChainOf(rows, org, n))
  {
    var c := ChainOf(rows, org, n);
    forall i | 0 <= i < n
      ensures HonestRow(digest, org, c, i)
    {
      assert c[i] == rows[Slot(org, i)];
      assert RowOk(digest, rows, Slot(org, i));
      assert i > 0 ==> c[i - 1] == rows[Slot(org, i - 1)];
    }
  }

  /** Every state reachable by emits holds, for every organisation, one honest chain. */
  lemma ReachableChainIsHonest(digest: Row -> Digest, steps: seq<Step>, org: string) returns (n: nat)
    requires AllSane(steps)
    ensures IsLength(Run(digest, EMPTY, steps).rows, org, n)
    ensures HonestChain(digest, org, ChainOf(Run(digest, EMPTY, steps).rows, org, n))
  {
    RunKeepsInv(digest, EMPTY, steps);
    n := HasLength(digest, Run(digest, EMPTY, steps).rows, org);
    RowsFormHonestChain(digest, Run(digest, EMPTY, steps).rows, org, n);
  }

  // ---- how an emit can fail ----

  lemma {:induction false} RunConcat(digest: Row -> Digest, s: State, xs: seq<Step>, ys: seq<Step>)
    ensures Run(digest, s, xs + ys) == Run(digest, Run(digest, s, xs), ys)
    decreases |ys|
  {
    hide Next;
    if ys == [] {
      assert xs + ys == xs;
    } else {
      var m := |ys| - 1;
      RunConcat(digest, s, xs, ys[..m]);
      assert (xs + ys)[..|xs| + m] == xs + ys[..m];
    }
  }

  /** The tail reads of emitter `id` are fresh along the run: each sees the last row. */
  ghost predicate FreshReads(digest: Row -> Digest, s: State, steps: seq<Step>, id: nat) {
    forall i :: 0 <= i < |steps| && steps[i].Read? && steps[i].id == id ==>
      var at := Run(digest, s, steps[..i]);
      id in at.emitters ==> Slot(at.emitters[id].org, steps[i].seen) !in at.rows
  }

  /** What contention has cost emitter `id` so far: for each failed attempt the chain
      has grown by one row past the length `base` it had when the emit started. */
  ghost predicate Charged(s: State, id: nat, base: nat)
    requires id in s.emitters
  {
    var e := s.emitters[id];
    match e.pc
    case TryLock => true
    case ReadTail(a) => forall q: nat :: q < base + a ==> Slot(e.org, q) in s.rows
    case InsertRow(a, draft) => base + a <= draft.number
    case Done(_) => true
    case Failed => forall q: nat :: q < base + e.maxRetries ==> Slot(e.org, q) in s.rows
  }

  lemma ChargedStep(digest: Row -> Digest, s: State, step: Step, id: nat, base: nat)
    requires Inv(digest, s) && Sane(step) && id in s.emitters && Charged(s, id, base)
    requires forall q: nat :: q < base ==> Slot(s.emitters[id].org, q) in s.rows
    requires step.Read? && step.id == id ==> Slot(s.emitters[id].org, step.seen) !in s.rows
    ensures id in Next(digest, s, step).emitters && Charged(Next(digest, s, step), id, base)
  {
    hide RowsOk, AuthorsOk, Linked, TailHash;
    NextKeepsInv(digest, s, step);
    var e := s.emitters[id];
    assert EmitterOk(digest, s, id);
    if step.Insert? && step.id == id && e.pc.InsertRow? && SlotOf(e.pc.draft) in s.rows {
      forall q: nat | q < base + e.pc.attempt + 1
        ensures Slot(e.org, q) in s.rows
      {
        NoGaps(digest, s.rows, e.org, q, e.pc.draft.number);
      }
    }
  }

  lemma {:induction false} ChargedRun(digest: Row -> Digest, s: State, steps: seq<Step>, id: nat, base: nat)
    requires Inv(digest, s) && AllSane(steps) && FreshReads(digest, s, steps, id)
    requires id in s.emitters && s.emitters[id].pc == TryLock
    requires IsLength(s.rows, s.emitters[id].org, base)
    ensures var t := Run(digest, s, steps);
      id in t.emitters && Charged(t, id, base)
      && t.emitters[id].(locked := true, pc := TryLock) == s.emitters[id].(locked := true)
  {
    if steps != [] {
      var init := steps[..|steps| - 1];
      forall i | 0 <= i < |init| && init[i].Read? && init[i].id == id
        ensures var at := Run(digest, s, init[..i]); id in at.emitters ==> Slot(at.emitters[id].org, init[i].seen) !in at.rows
      {
        assert init[..i] == steps[..i];
      }
      ChargedRun(digest, s, init, id, base);
      RunKeepsInv(digest, s, init);
      ChargedStep(digest, Run(digest, s, init), steps[|steps| - 1], id, base);
    }
  }

  /** Main result on failure: an emit whose tail reads are fresh fails only if at
      least maxRetries rows of its organisation, all by other emitters, were
      committed during its own run. */
  lemma FailureNeedsContention(digest: Row -> Digest, s: State, steps: seq<Step>, id: nat, base: nat)
    requires Inv(digest, s) && AllSane(steps) && FreshReads(digest, s, steps, id)
    requires id in s.emitters && s.emitters[id].pc == TryLock
    requires IsLength(s.rows, s.emitters[id].org, base)
    requires id in Run(digest, s, steps).emitters && Run(digest, s, steps).emitters[id].pc == Failed
    ensures var t := Run(digest, s, steps); var e := s.emitters[id];
      forall q: nat :: base <= q < base + e.maxRetries ==>
        Slot(e.org, q) !in s.rows && Slot(e.org, q) in t.rows && Slot(e.org, q) in t.author && t.author[Slot(e.org, q)] != id
  {
    ChargedRun(digest, s, steps, id, base);
    RunKeepsInv(digest, s, steps);
    var (t, e) := (Run(digest, s, steps), s.emitters[id]);
    forall q: nat | base <= q < base + e.maxRetries
      ensures Slot(e.org, q) in t.rows && Slot(e.org, q) in t.author && t.author[Slot(e.org, q)] != id
    {
      assert AuthorOk(t, Slot(e.org, q));
    }
  }

  // ---- an emitter whose reads are never fresh ----

  /** n attempts that all read the tail before the first row was there. */
  function StaleAttempts(id: nat, now: DateTime, n: nat): (steps: seq<Step>)
    ensures forall i :: 0 <= i < |steps| ==> steps[i] == Read(id, 0, now) || steps[i] == Insert(id)
  {
    if n == 0 then [] else StaleAttempts(id, now, n - 1) + [Read(id, 0, now), Insert(id)]
  }

  lemma RunTwoMore(digest: Row -> Digest, s: State, steps: seq<Step>, x: Step, y: Step)
    ensures Run(digest, s, steps + [x, y]) == Next(digest, Next(digest, Run(digest, s, steps), x), y)
  {
    hide Next;
    assert (steps + [x, y])[..|steps| + 1] == steps + [x];
    assert (steps + [x])[..|steps|] == steps;
  }

  lemma RunTwo(digest: Row -> Digest, s: State, x: Step, y: Step)
    ensures Run(digest, s, [x, y]) == Next(digest, Next(digest, s, x), y)
  {
    hide Next;
    RunTwoMore(digest, s, [], x, y);
    assert [] + [x, y] == [x, y];
  }

  lemma OneStaleAttempt(digest: Row -> Digest, s: State, id: nat, now: DateTime)
    requires id in s.emitters && s.emitters[id].pc.ReadTail? && Slot(s.emitters[id].org, 0) in s.rows
    ensures var e := s.emitters[id];
      Next(digest, Next(digest, s, Read(id, 0, now)), Insert(id))
      == s.(emitters := s.emitters[id := e.(pc := Retry(e.pc.attempt + 1, e.maxRetries))])
  {
    var e := s.emitters[id];
    var t := Next(digest, s, Read(id, 0, now));
    assert t.emitters[id].pc.InsertRow? && SlotOf(t.emitters[id].pc.draft) == Slot(e.org, 0);
    var u := Next(digest, t, Insert(id));
    assert u.emitters == s.emitters[id := e.(pc := Retry(e.pc.attempt + 1, e.maxRetries))];
  }

  lemma {:induction false} StaleAttemptsFail(digest: Row -> Digest, s: State, id: nat, now: DateTime, n: nat)
    requires id in s.emitters && s.emitters[id].pc == Retry(0, s.emitters[id].maxRetries)
    requires Slot(s.emitters[id].org, 0) in s.rows && (n == 0 || n <= s.emitters[id].maxRetries)
    ensures var e := s.emitters[id];
      Run(digest, s, StaleAttempts(id, now, n)) == s.(emitters := s.emitters[id := e.(pc := Retry(n, e.maxRetries))])
  {
    hide Next;
    if n > 0 {
      var before := StaleAttempts(id, now, n - 1);
      StaleAttemptsFail(digest, s, id, now, n - 1);
      RunTwoMore(digest, s, before, Read(id, 0, now), Insert(id));
      OneStaleAttempt(digest, Run(digest, s, before), id, now);
    }
  }

  lemma Arrival(digest: Row -> Digest, s: State, id: nat, org: string, e: Event, maxRetries: int, granted: bool)
    requires id !in s.emitters
    ensures Next(digest, s, Start(id, org, e, maxRetries))
      == s.(emitters := s.emitters[id := Emitter(org, e, maxRetries, false, TryLock)])
    ensures Next(digest, Next(digest, s, Start(id, org, e, maxRetries)), Lock(id, granted))
      == s.(emitters := s.emitters[id := Emitter(org, e, maxRetries, granted, Retry(0, maxRetries))])
  {
    var s1 := Next(digest, s, Start(id, org, e, maxRetries));
    assert s1.emitters[id := Emitter(org, e, maxRetries, granted, Retry(0, maxRetries))]
      == s.emitters[id := Emitter(org, e, maxRetries, granted, Retry(0, maxRetries))];
  }

  /** The whole call: it arrives, gets the lock, and makes its attempts. */
  function StaleCall(id: nat, org: string, e: Event, maxRetries: int, now: DateTime): seq<Step> {
    [Start(id, org, e, maxRetries), Lock(id, true)] + StaleAttempts(id, now, if maxRetries > 0 then maxRetries else 0)
  }

  lemma StaleCallIsSane(id: nat, org: string, e: Event, maxRetries: int, now: DateTime)
    requires Wf(Obj(e.details)) && ValidTime(now) && now.zone == Utc
    ensures AllSane(StaleCall(id, org, e, maxRetries, now))
    ensures forall i :: 0 <= i < |StaleCall(id, org, e, maxRetries, now)| ==> StaleCall(id, org, e, maxRetries, now)[i].id == id
  {
    var steps := StaleCall(id, org, e, maxRetries, now);
    var attempts := StaleAttempts(id, now, if maxRetries > 0 then maxRetries else 0);
    hide Wf, ValidTime;
    forall i | 0 <= i < |steps|
      ensures Sane(steps[i]) && steps[i].id == id
    {
      if i >= 2 {
        assert steps[i] == attempts[i - 2];
      }
    }
  }

  lemma OverwriteEmitter(s: State, id: nat, e: Emitter, e': Emitter)
    ensures var t := s.(emitters := s.emitters[id := e]); t.(emitters := t.emitters[id := e']) == s.(emitters := s.emitters[id := e'])
  {
    assert s.emitters[id := e][id := e'] == s.emitters[id := e'];
  }

  /** Freshness is needed: whatever its number of attempts, an emit whose tail reads are
      outdated fails although nobody else committed anything during its run. */
  lemma StaleReadsFailAlone(digest: Row -> Digest, s: State, id: nat, org: string, e: Event, maxRetries: int, now: DateTime)
      returns (steps: seq<Step>)
    requires id !in s.emitters && Slot(org, 0) in s.rows
    requires Wf(Obj(e.details)) && ValidTime(now) && now.zone == Utc
    ensures AllSane(steps) && forall i :: 0 <= i < |steps| ==> steps[i].id == id
    ensures Run(digest, s, steps) == s.(emitters := s.emitters[id := Emitter(org, e, maxRetries, true, Failed)])
  {
    var n := if maxRetries > 0 then maxRetries else 0;
    steps := StaleCall(id, org, e, maxRetries, now);
    StaleCallIsSane(id, org, e, maxRetries, now);
    Arrival(digest, s, id, org, e, maxRetries, true);
    hide Next, Wf, ValidTime, AllSane;
    var (start, lock) := (Start(id, org, e, maxRetries), Lock(id, true));
    RunTwo(digest, s, start, lock);
    var s2 := Run(digest, s, [start, lock]);
    RunConcat(digest, s, [start, lock], StaleAttempts(id, now, n));
    StaleAttemptsFail(digest, s2, id, now, n);
    OverwriteEmitter(s, id, s2.emitters[id], Emitter(org, e, maxRetries, true, Failed));
  }
}
