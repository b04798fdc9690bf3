/** `emit` as the source writes it: a retry loop over the shared collection, with the
    steps of other emitters running in between. It is one emitter of AuditChain, so
    everything proved there about runs holds of it. */
module AuditService {
  import opened Json
  import opened AuditRow
  import opened AuditHash
  import opened AuditChain

  ghost predicate OfOthers(steps: seq<Step>, id: nat) {
    forall i :: 0 <= i < |steps| ==> steps[i].id != id
  }

  /** `trace` explains how the collection got from `start` to `now`, with fresh tail
      reads by emitter `id`. */
  ghost predicate Explains(digest: Row -> Digest, start: State, trace: seq<Step>, now: State, id: nat) {
    now == Run(digest, start, trace) && AllSane(trace) && FreshReads(digest, start, trace, id)
  }

  lemma ExplainStep(digest: Row -> Digest, start: State, trace: seq<Step>, now: State, id: nat, x: Step)
    requires Explains(digest, start, trace, now, id) && Sane(x)
    requires x.Read? && x.id == id && id in now.emitters ==> Slot(now.emitters[id].org, x.seen) !in now.rows
    ensures Explains(digest, start, trace + [x], Next(digest, now, x), id)
  {
    var more := trace + [x];
    assert more[..|trace|] == trace;
    forall i | 0 <= i < |more| && more[i].Read? && more[i].id == id
      ensures var at := Run(digest, start, more[..i]);
        id in at.emitters ==> Slot(at.emitters[id].org, more[i].seen) !in at.rows
    {
      if i < |trace| {
        assert more[..i] == trace[..i];
      }
    }
  }

  lemma ExplainArrival(digest: Row -> Digest, start: State, x: Step, y: Step, id: nat)
    requires Sane(x) && Sane(y) && !x.Read? && !y.Read?
    ensures Explains(digest, start, [x, y], Next(digest, Next(digest, start, x), y), id)
  {
    hide Next;
    RunTwo(digest, start, x, y);
    assert [x, y][0] == x && [x, y][1] == y;
  }

  /** What is explained from before a step is explained from after it. */
  lemma ExplainTail(digest: Row -> Digest, start: State, x: Step, rest: seq<Step>, now: State, id: nat)
    requires Explains(digest, start, [x] + rest, now, id)
    ensures Sane(x) && Explains(digest, Next(digest, start, x), rest, now, id)
  {
    hide Next;
    var all := [x] + rest;
    var s := Next(digest, start, x);
    assert all[0] == x;
    assert Run(digest, start, [x]) == s by {
      assert [x][..0] == [];
    }
    RunConcat(digest, start, [x], rest);
    forall i | 0 <= i < |rest|
      ensures Sane(rest[i])
      ensures rest[i].Read? && rest[i].id == id ==>
        var at := Run(digest, s, rest[..i]); id in at.emitters ==> Slot(at.emitters[id].org, rest[i].seen) !in at.rows
    {
      assert all[i + 1] == rest[i];
      assert all[..i + 1] == [x] + rest[..i];
      RunConcat(digest, start, [x], rest[..i]);
    }
  }

  // ---- what the others did meanwhile ----

  function Others(steps: seq<Step>, id: nat): seq<Step> {
    if steps == [] then []
    else
      var last := steps[|steps| - 1];
      Others(steps[..|steps| - 1], id) + (if last.id != id then [last] else [])
  }

  /** The first n gaps, one after the other. */
  function Gaps(gap: nat -> seq<Step>, n: nat): seq<Step> {
    if n == 0 then [] else Gaps(gap, n - 1) + gap(n - 1)
  }

  lemma OthersSnoc(before: seq<Step>, x: Step, id: nat)
    ensures Others(before + [x], id) == Others(before, id) + if x.id == id then [] else [x]
  {
    assert (before + [x])[..|before|] == before;
  }

  lemma OthersTwo(x: Step, y: Step, id: nat)
    requires x.id == id && y.id == id
    ensures Others([x, y], id) == []
  {
    OthersSnoc([], x, id);
    OthersSnoc([x], y, id);
    assert [] + [x] == [x] && [x] + [y] == [x, y];
  }

  lemma AppendLast<T>(a: seq<T>, b: seq<T>)
    requires b != []
    ensures a + b == (a + b[..|b| - 1]) + [b[|b| - 1]]
  {
  }

  lemma {:induction false} OthersAppend(before: seq<Step>, steps: seq<Step>, id: nat)
    requires OfOthers(steps, id)
    ensures Others(before + steps, id) == Others(before, id) + steps
    decreases |steps|
  {
    if steps == [] {
      assert before + steps == before;
    } else {
      var m := |steps| - 1;
      OthersAppend(before, steps[..m], id);
      OthersSnoc(before + steps[..m], steps[m], id);
      hide Others;
      AppendLast(before, steps);
      AppendLast(Others(before, id), steps);
    }
  }

  /** The call made n attempts, with the first 2 n gaps in between. */
  ghost predicate Attempted(trace: seq<Step>, id: nat, gap: nat -> seq<Step>, n: nat) {
    Others(trace, id) == Gaps(gap, 2 * n)
  }

  lemma NoGapsYet(gap: nat -> seq<Step>)
    ensures Gaps(gap, 2 * 0) == []
  {
  }

  lemma ExplainedKeepsInv(digest: Row -> Digest, start: State, trace: seq<Step>, now: State, id: nat)
    requires Inv(digest, start) && Explains(digest, start, trace, now, id)
    ensures Inv(digest, now) && AppendOnly(start.rows, now.rows)
  {
    RunKeepsInv(digest, start, trace);
  }

  /** One round: two gaps, each followed by a step of the call itself. */
  lemma OneAttempt(before: seq<Step>, id: nat, gap: nat -> seq<Step>, a: nat, x: Step, y: Step, after: seq<Step>)
    requires Attempted(before, id, gap, a) && x.id == id && y.id == id
    requires OfOthers(gap(2 * a), id) && OfOthers(gap(2 * a + 1), id)
    requires after == ((before + gap(2 * a)) + [x] + gap(2 * a + 1)) + [y]
    ensures Attempted(after, id, gap, a + 1)
  {
    hide Others, OfOthers;
    var (g, h) := (gap(2 * a), gap(2 * a + 1));
    var (p, q) := (before + g, before + g + [x]);
    OthersAppend(before, g, id);
    OthersSnoc(p, x, id);
    OthersAppend(q, h, id);
    OthersSnoc(q + h, y, id);
    var o := Others(before, id);
    assert Others(after, id) == o + g + [] + h + [] == o + g + h;
    assert Gaps(gap, 2 * a + 2) == Gaps(gap, 2 * a + 1) + h;
    assert Gaps(gap, 2 * a + 1) == Gaps(gap, 2 * a) + g;
  }

  /** The slots that a call by `id` lost: all that `maxRetries` attempts went for. */
  ghost predicate LostTo(before: Rows, after: State, id: nat, org: string, maxRetries: int) {
    forall base: nat, q: nat {:trigger IsLength(before, org, base), Slot(org, q)} ::
      IsLength(before, org, base) && base <= q < base + maxRetries ==>
        && Slot(org, q) !in before && Slot(org, q) in after.rows
        && Slot(org, q) in after.author && after.author[Slot(org, q)] != id
  }

  /** A call that was explained and failed has lost that many slots to other calls. */
  lemma FailedEmitLost(digest: Row -> Digest, start: State, rest: seq<Step>, now: State,
                       id: nat, org: string, event: Event, maxRetries: int)
    requires Inv(digest, start) && id !in start.emitters
    requires Explains(digest, start, [Start(id, org, event, maxRetries)] + rest, now, id)
    requires id in now.emitters && now.emitters[id].pc == Failed
    ensures LostTo(start.rows, now, id, org, maxRetries)
  {
    var x := Start(id, org, event, maxRetries);
    var s := Next(digest, start, x);
    ExplainTail(digest, start, x, rest, now, id);
    NextKeepsInv(digest, start, x);
    assert s.rows == start.rows && s.emitters[id] == Emitter(org, event, maxRetries, false, TryLock);
    hide Next;
    forall base: nat, q: nat | IsLength(start.rows, org, base) && base <= q < base + maxRetries
      ensures Slot(org, q) !in start.rows && Slot(org, q) in now.rows
      ensures Slot(org, q) in now.author && now.author[Slot(org, q)] != id
    {
      FailureNeedsContention(digest, s, rest, id, base);
    }
  }

  /** The row that a call returned is new, its own, and next in its chain. */
  ghost predicate Appended(digest: Row -> Digest, before: Rows, after: Rows, org: string, event: Event, row: Row) {
    && row.org == org && row.event == event
    && Slot(org, row.number) !in before && Slot(org, row.number) in after && after[Slot(org, row.number)] == row
    && row.eventHash == digest(row.(eventHash := ""))
    && (row.number == 0 ==> row.prevEventHash == "GENESIS")
    && (row.number > 0 ==>
          var k := Slot(org, row.number - 1); k in after && row.prevEventHash == after[k].eventHash)
  }

  lemma DoneIsAppended(digest: Row -> Digest, start: State, trace: seq<Step>, now: State, id: nat)
    requires Inv(digest, start) && id !in start.emitters && Explains(digest, start, trace, now, id)
    requires id in now.emitters && now.emitters[id].pc.Done?
    ensures var e := now.emitters[id]; Appended(digest, start.rows, now.rows, e.org, e.event, e.pc.row)
  {
    RunKeepsInv(digest, start, trace);
    var row := now.emitters[id].pc.row;
    assert EmitterOk(digest, now, id) && RowOk(digest, now.rows, SlotOf(row));
    if SlotOf(row) in start.rows {
      assert AuthorOk(start, SlotOf(row));
      AuthorsStay(digest, start, trace, SlotOf(row));
    }
  }

  /** What the read of a fresh tail does to the step system. */
  lemma ReadStep(digest: Row -> Digest, s: State, id: nat, number: nat, prevHash: string, now: DateTime)
    requires id in s.emitters && s.emitters[id].pc.ReadTail?
    requires number > 0 ==> Slot(s.emitters[id].org, number - 1) in s.rows
    requires prevHash == TailHash(s.rows, s.emitters[id].org, number)
    ensures var e := s.emitters[id];
      var row := BuildRow(digest, e.org, number, prevHash, now, e.event);
      && row.number == number && row.occurredAt == TruncateToMs(now)
      && Next(digest, s, Read(id, number, now))
         == s.(emitters := s.emitters[id := e.(pc := Pc.InsertRow(e.pc.attempt, row))])
  {
  }

  class AuditCollection {
    /** The collection, and where every other emitter stands. */
    var state: State

    constructor ()
      ensures state == EMPTY
    {
      state := EMPTY;
    }

    /** The steps that other emitters take while this one is suspended. */
    method Interleave(digest: Row -> Digest, steps: seq<Step>, ghost start: State, ghost before: seq<Step>, ghost id: nat)
      returns (ghost trace: seq<Step>)
      requires Explains(digest, start, before, state, id)
      requires AllSane(steps) && OfOthers(steps, id) && id in state.emitters
      modifies this
      ensures Explains(digest, start, trace, state, id) && trace == before + steps
      ensures id in state.emitters && state.emitters[id] == old(state.emitters[id])
    {
      trace := before;
      assert before + steps[..0] == before;
      for i := 0 to |steps|
        invariant Explains(digest, start, trace, state, id) && trace == before + steps[..i]
        invariant id in state.emitters && state.emitters[id] == old(state.emitters[id])
      {
        assert before + steps[..i + 1] == before + steps[..i] + [steps[i]];
        ExplainStep(digest, start, trace, state, id, steps[i]);
        state := Next(digest, state, steps[i]);
        trace := trace + [steps[i]];
      }
      assert steps[..|steps|] == steps;
    }

    /** `find(org).sort(-sequence_number).first_or_none()`. */
    method LastRow(digest: Row -> Digest, org: string) returns (last: Option<Row>)
      requires RowsOk(digest, state.rows)
      ensures last.None? ==> forall q: nat :: Slot(org, q) !in state.rows
      ensures last.Some? ==>
        && last.value.org == org && SlotOf(last.value) in state.rows && state.rows[SlotOf(last.value)] == last.value
        && forall q: nat :: Slot(org, q) in state.rows ==> q <= last.value.number
    {
      ghost var n := HasLength(digest, state.rows, org);
      assert n > 0 ==> var m: nat := n - 1; Slot(org, m) in state.rows && Slot(org, m + 1) !in state.rows;
      if k :| k in state.rows && k.org == org && Slot(org, k.number + 1) !in state.rows {
        assert RowOk(digest, state.rows, k);
        assert k.number + 1 == n;
        last := Some(state.rows[k]);
      } else {
        last := None;
      }
    }

    /** `row.insert()` under the unique index: false is the DuplicateKeyError. */
    method InsertRow(row: Row, id: nat) returns (ok: bool)
      modifies this
      ensures ok == (SlotOf(row) !in old(state.rows))
      ensures state == if ok then old(state).(rows := old(state.rows)[SlotOf(row) := row],
                                              author := old(state.author)[SlotOf(row) := id])
                       else old(state)
    {
      ok := SlotOf(row) !in state.rows;
      if ok {
        state := state.(rows := state.rows[SlotOf(row) := row], author := state.author[SlotOf(row) := id]);
      }
    }

    /** Records where this emitter stands, for the benefit of the step system. */
    method MoveTo(id: nat, e: Emitter)
      modifies this
      ensures state == old(state).(emitters := old(state.emitters)[id := e])
    {
      state := state.(emitters := state.emitters[id := e]);
    }

    /** First half of an attempt: read the tail and build the row after it. */
    method ReadAndBuild(digest: Row -> Digest, id: nat, now: DateTime, attempt: nat,
                        ghost start: State, ghost before: seq<Step>)
      returns (row: Row, ghost trace: seq<Step>)
      requires Explains(digest, start, before, state, id) && Inv(digest, state)
      requires id in state.emitters && state.emitters[id].pc == ReadTail(attempt)
      requires ValidTime(now) && now.zone == Utc
      modifies this
      ensures Explains(digest, start, trace, state, id) && state.rows == old(state.rows)
      ensures trace == before + [Read(id, row.number, now)]
      ensures row.occurredAt.zone == Utc && SameMillisecond(now, row.occurredAt)
      ensures id in state.emitters
      ensures state.emitters[id] == old(state.emitters[id]).(pc := Pc.InsertRow(attempt, row))
    {
      var e := state.emitters[id];
      var last := LastRow(digest, e.org);
      var number := if last.Some? then last.value.number + 1 else 0;
      var prevHash := if last.Some? then last.value.eventHash else GENESIS_HASH;
      row := BuildRow(digest, e.org, number, prevHash, now, e.event);
      assert last.Some? ==> SlotOf(last.value) == Slot(e.org, last.value.number);
      ReadStep(digest, state, id, number, prevHash, now);
      hide Next, Explains, Inv, RowsOk, Linked, BuildRow;
      ExplainStep(digest, start, before, state, id, Read(id, number, now));
      trace := before + [Read(id, number, now)];
      MoveTo(id, e.(pc := Pc.InsertRow(attempt, row)));
    }

    /** Second half of an attempt: insert, or note the duplicate key. */
    method TryInsert(digest: Row -> Digest, id: nat, row: Row, attempt: nat,
                     ghost start: State, ghost before: seq<Step>)
      returns (ok: bool, ghost trace: seq<Step>)
      requires Explains(digest, start, before, state, id)
      requires id in state.emitters && state.emitters[id].pc == Pc.InsertRow(attempt, row)
      modifies this
      ensures Explains(digest, start, trace, state, id) && id in state.emitters
      ensures trace == before + [Insert(id)]
      ensures ok == (SlotOf(row) !in old(state.rows))
      ensures state.emitters[id] == old(state.emitters[id]).(
        pc := if ok then Done(row) else Retry(attempt + 1, old(state.emitters[id]).maxRetries))
    {
      var e := state.emitters[id];
      ExplainStep(digest, start, before, state, id, Insert(id));
      trace := before + [Insert(id)];
      ok := InsertRow(row, id);
      MoveTo(id, e.(pc := if ok then Done(row) else Retry(attempt + 1, e.maxRetries)));
    }

    /** The call arrives and asks for the lock. */
    method Begin(digest: Row -> Digest, id: nat, org: string, event: Event, maxRetries: int, granted: bool)
      returns (ghost trace: seq<Step>)
      requires id !in state.emitters && Wf(Obj(event.details))
      modifies this
      ensures Explains(digest, old(state), trace, state, id)
      ensures trace == [Start(id, org, event, maxRetries), Lock(id, granted)] && Others(trace, id) == []
      ensures state == old(state).(emitters :=
        old(state.emitters)[id := Emitter(org, event, maxRetries, granted, Retry(0, maxRetries))])
    {
      ghost var start := state;
      ghost var (s, l) := (Start(id, org, event, maxRetries), Lock(id, granted));
      Arrival(digest, start, id, org, event, maxRetries, granted);
      ExplainArrival(digest, start, s, l, id);
      OthersTwo(s, l, id);
      hide Next, Explains, Others;
      MoveTo(id, Emitter(org, event, maxRetries, false, TryLock));
      MoveTo(id, Emitter(org, event, maxRetries, granted, Retry(0, maxRetries)));
      assert state == Next(digest, Next(digest, start, s), l);
      trace := [s, l];
    }

    /** One attempt: others run, the tail is read, others run, the row is tried. */
    method Attempt(digest: Row -> Digest, id: nat, now: DateTime, attempt: nat, gap: nat -> seq<Step>,
                   ghost start: State, ghost before: seq<Step>)
      returns (result: Option<Row>, ghost trace: seq<Step>)
      requires Inv(digest, start) && Explains(digest, start, before, state, id) && Attempted(before, id, gap, attempt)
      requires id in state.emitters && state.emitters[id].pc == ReadTail(attempt)
      requires ValidTime(now) && now.zone == Utc
      requires forall g :: AllSane(gap(g)) && OfOthers(gap(g), id)
      modifies this
      ensures Explains(digest, start, trace, state, id) && before <= trace && Attempted(trace, id, gap, attempt + 1)
      ensures id in state.emitters
      ensures state.emitters[id] == old(state.emitters[id]).(
        pc := if result.Some? then Done(result.value) else Retry(attempt + 1, old(state.emitters[id]).maxRetries))
      ensures result.Some? ==> result.value.occurredAt.zone == Utc && SameMillisecond(now, result.value.occurredAt)
    {
      hide Next, AllSane, OfOthers, Others, Gaps, Explains, RowsOk, Attempted, FreshReads;
      var row, ok;
      trace := Interleave(digest, gap(2 * attempt), start, before, id);
      ExplainedKeepsInv(digest, start, trace, state, id);
      row, trace := ReadAndBuild(digest, id, now, attempt, start, trace);
      trace := Interleave(digest, gap(2 * attempt + 1), start, trace, id);
      ok, trace := TryInsert(digest, id, row, attempt, start, trace);
      OneAttempt(before, id, gap, attempt, Read(id, row.number, now), Insert(id), trace);
      result := if ok then Some(row) else None;
    }

    /** `granted` is the answer of the lock service (false also when it raises),
        `clock(a)` the time of attempt a, `gap(g)` what others do in gap g: gap 2a runs
        before attempt a reads the tail, gap 2a+1 between that read and the insert. */
    method Emit(digest: Row -> Digest, id: nat, org: string, event: Event, maxRetries: int,
                granted: bool, clock: nat -> DateTime, gap: nat -> seq<Step>)
      returns (result: Option<Row>, ghost trace: seq<Step>)
      requires Inv(digest, state) && id !in state.emitters && Wf(Obj(event.details))
      requires forall a :: ValidTime(clock(a)) && clock(a).zone == Utc
      requires forall g :: AllSane(gap(g)) && OfOthers(gap(g), id)
      modifies this
      ensures Explains(digest, old(state), trace, state, id)
      ensures [Start(id, org, event, maxRetries), Lock(id, granted)] <= trace
      ensures Inv(digest, state) && AppendOnly(old(state.rows), state.rows)
      ensures id in state.emitters
      ensures state.emitters[id]
        == Emitter(org, event, maxRetries, granted, if result.Some? then Done(result.value) else Failed)
      ensures result.Some? ==> Appended(digest, old(state.rows), state.rows, org, event, result.value)
      ensures result.Some? ==> result.value.occurredAt.zone == Utc && exists a: nat ::
        a < maxRetries && Attempted(trace, id, gap, a + 1) && SameMillisecond(clock(a), result.value.occurredAt)
      ensures result.None? ==> Attempted(trace, id, gap, if maxRetries > 0 then maxRetries else 0)
      ensures result.None? ==> LostTo(old(state.rows), state, id, org, maxRetries)
    {
      hide Next, AllSane, OfOthers, Others, Gaps, Explains, Inv, AppendOnly, LostTo, ValidTime, Wf, Appended, SameMillisecond;
      ghost var start := state;
      trace := Begin(digest, id, org, event, maxRetries, granted);
      ghost var head := trace;
      assert Attempted(trace, id, gap, 0) by { NoGapsYet(gap); }
      hide Attempted;
      var e := Emitter(org, event, maxRetries, granted, Retry(0, maxRetries));
      var attempt: nat := 0;
      while attempt < maxRetries
        invariant Explains(digest, start, trace, state, id) && Attempted(trace, id, gap, attempt)
        invariant head <= trace
        invariant attempt == 0 || attempt <= maxRetries
        invariant id in state.emitters && state.emitters[id] == e.(pc := Retry(attempt, maxRetries))
      {
        result, trace := Attempt(digest, id, clock(attempt), attempt, gap, start, trace);
        if result.Some? {
          DoneIsAppended(digest, start, trace, state, id);
          ExplainedKeepsInv(digest, start, trace, state, id);
          return;
        }
        attempt := attempt + 1;
      }
      ExplainedKeepsInv(digest, start, trace, state, id);
      assert trace == [head[0]] + trace[1..];
      FailedEmitLost(digest, start, trace[1..], state, id, org, event, maxRetries);
      result := None;
    }
  }
}
