/** `verify_chain`: the loop, what its verdict means, and why it accepts every
    window of every chain that emitters can produce. */
module AuditVerify {
  import opened Json
  import opened AuditRow
  import opened AuditHash
  import opened AuditChain

  datatype Reason = LinkMismatch | HashMismatch

  datatype Verdict =
    | Valid(checked: nat, window: Option<(nat, nat, string)>)
    | Broken(checked: nat, number: nat, reason: Reason, expected: string, actual: string)

  /** Row i continues row i-1 and carries its own digest. The first row's link is trusted. */
  predicate LinkOk(rows: seq<Row>, i: nat)
    requires i < |rows|
  {
    i > 0 ==> rows[i].prevEventHash == rows[i - 1].eventHash
  }

  predicate LocallyOk(digest: Row -> Digest, rows: seq<Row>, i: nat)
    requires i < |rows|
  {
    LinkOk(rows, i) && rows[i].eventHash == digest(Unhashed(rows[i]))
  }

  predicate Accepted(digest: Row -> Digest, rows: seq<Row>) {
    forall i: nat :: i < |rows| ==> LocallyOk(digest, rows, i)
  }

  /** k is the least position that is not locally correct. */
  predicate BreaksAt(digest: Row -> Digest, rows: seq<Row>, k: nat) {
    k < |rows| && !LocallyOk(digest, rows, k) && forall i: nat :: i < k ==> LocallyOk(digest, rows, i)
  }

  lemma AcceptedIff(digest: Row -> Digest, rows: seq<Row>)
    ensures Accepted(digest, rows) <==> forall i :: 0 <= i < |rows| ==>
      && rows[i].eventHash == digest(rows[i].(eventHash := ""))
      && (i > 0 ==> rows[i].prevEventHash == rows[i - 1].eventHash)
  {
    if forall i :: 0 <= i < |rows| ==>
      && rows[i].eventHash == digest(rows[i].(eventHash := ""))
      && (i > 0 ==> rows[i].prevEventHash == rows[i - 1].eventHash) {
      forall i: nat | i < |rows|
        ensures LocallyOk(digest, rows, i)
      {
      }
    } else {
      var i :| 0 <= i < |rows| && !(
        && rows[i].eventHash == digest(rows[i].(eventHash := ""))
        && (i > 0 ==> rows[i].prevEventHash == rows[i - 1].eventHash));
      assert !LocallyOk(digest, rows, i);
    }
  }

  /** The verdict is exact: valid with the counts and end points of the window, or
      broken at the least wrong position, with the reason and both hashes. */
  method VerifyChain(digest: Row -> Digest, rows: seq<Row>) returns (v: Verdict)
    ensures v.Valid? <==> Accepted(digest, rows)
    ensures v.Valid? <==> forall i :: 0 <= i < |rows| ==>
      && rows[i].eventHash == digest(rows[i].(eventHash := ""))
      && (i > 0 ==> rows[i].prevEventHash == rows[i - 1].eventHash)
    ensures v.Valid? ==> v.checked == |rows| && (rows == [] <==> v.window.None?)
    ensures v.Valid? && rows != [] ==>
      v.window == Some((rows[0].number, rows[|rows| - 1].number, rows[|rows| - 1].eventHash))
    ensures v.Broken? ==>
      && v.checked > 0 && BreaksAt(digest, rows, v.checked - 1)
      && var r := rows[v.checked - 1];
         v.number == r.number
         && (v.reason == LinkMismatch <==> !LinkOk(rows, v.checked - 1))
         && (v.reason == LinkMismatch ==> v.expected == rows[v.checked - 2].eventHash && v.actual == r.prevEventHash)
         && (v.reason == HashMismatch ==> v.expected == digest(Unhashed(r)) && v.actual == r.eventHash)
  {
    AcceptedIff(digest, rows);
    if rows == [] {
      return Valid(0, None);
    }
    var prevHash: Option<string> := None;
    for i := 0 to |rows|
      invariant forall j: nat :: j < i ==> LocallyOk(digest, rows, j)
      invariant prevHash == if i == 0 then None else Some(rows[i - 1].eventHash)
    {
      var row := rows[i];
      var expectedPrev := if prevHash.Some? then prevHash.value else row.prevEventHash;
      assert LocallyOk(digest, rows, i) <==>
        row.prevEventHash == expectedPrev && row.eventHash == digest(Unhashed(row));
      if row.prevEventHash != expectedPrev {
        return Broken(i + 1, row.number, LinkMismatch, expectedPrev, row.prevEventHash);
      }
      var recomputed := digest(Unhashed(row));
      if recomputed != row.eventHash {
        return Broken(i + 1, row.number, HashMismatch, recomputed, row.eventHash);
      }
      prevHash := Some(row.eventHash);
    }
    return Valid(|rows|, Some((rows[0].number, rows[|rows| - 1].number, rows[|rows| - 1].eventHash)));
  }

  // ---- reading rows back ----

  /** What the database may return for a stored row: the timestamp in whole
      milliseconds, naive or UTC, the details dict in any order, the rest verbatim. */
  ghost predicate ReadBack(stored: Row, back: Row) {
    && (exists z :: back.occurredAt == StoredTime(stored.occurredAt, z))
    && Wf(Obj(back.event.details)) && Same(Obj(stored.event.details), Obj(back.event.details))
    && back == stored.(occurredAt := back.occurredAt, event := stored.event.(details := back.event.details))
  }

  /** Emit-time and verify-time payloads record the same event. */
  lemma ReadBackSameRecord(stored: Row, back: Row)
    requires WfRow(stored) && stored.occurredAt.micro % 1000 == 0 && ReadBack(stored, back)
    ensures WfRow(back) && SameRecord(stored, back) && back.prevEventHash == stored.prevEventHash
  {
  }

  /** The digest depends only on the link and the recorded event. */
  ghost predicate Faithful(digest: Row -> Digest) {
    forall r, s {:trigger digest(r), digest(s)} ::
      WfRow(r) && WfRow(s) && r.prevEventHash == s.prevEventHash && SameRecord(r, s) ==> digest(r) == digest(s)
  }

  ghost predicate InWindow(q: nat, from: Option<int>, to: Option<int>) {
    (from.Some? ==> from.value <= q) && (to.Some? ==> q <= to.value)
  }

  ghost predicate Holds(out: seq<Row>, q: nat) {
    exists i :: 0 <= i < |out| && out[i].number == q
  }

  /** `out` answers the verifier's query: the rows of `org` in the window, in
      ascending sequence order, as read back. */
  ghost predicate Answers(rows: Rows, org: string, from: Option<int>, to: Option<int>, out: seq<Row>) {
    && (forall i, j :: 0 <= i < j < |out| ==> out[i].number < out[j].number)
    && (forall i :: 0 <= i < |out| ==>
          && InWindow(out[i].number, from, to)
          && Slot(org, out[i].number) in rows && ReadBack(rows[Slot(org, out[i].number)], out[i]))
    && (forall q: nat :: Slot(org, q) in rows && InWindow(q, from, to) ==> Holds(out, q))
  }

  /** Rows in strictly ascending order that cover exactly lo..hi-1 are numbered consecutively. */
  lemma {:induction false} Consecutive(out: seq<Row>, lo: nat, hi: nat, i: nat)
    requires forall i, j :: 0 <= i < j < |out| ==> out[i].number < out[j].number
    requires forall i :: 0 <= i < |out| ==> lo <= out[i].number < hi
    requires forall q: nat :: lo <= q < hi ==> Holds(out, q)
    requires lo + i < hi
    ensures i < |out| && out[i].number == lo + i
    decreases i
  {
    assert Holds(out, lo + i);
    var k :| 0 <= k < |out| && out[k].number == lo + i;
    if i > 0 {
      Consecutive(out, lo, hi, i - 1);
      assert k > i - 1;
    }
  }

  lemma {:induction false} Ascends(out: seq<Row>, lo: nat, i: nat)
    requires forall i, j :: 0 <= i < j < |out| ==> out[i].number < out[j].number
    requires forall i :: 0 <= i < |out| ==> lo <= out[i].number
    requires i < |out|
    ensures lo + i <= out[i].number
  {
    if i > 0 {
      Ascends(out, lo, i - 1);
    }
  }

  lemma WindowSize(out: seq<Row>, lo: nat, hi: nat)
    requires lo <= hi
    requires forall i, j :: 0 <= i < j < |out| ==> out[i].number < out[j].number
    requires forall i :: 0 <= i < |out| ==> lo <= out[i].number < hi
    requires forall q: nat :: lo <= q < hi ==> Holds(out, q)
    ensures |out| == hi - lo && forall i :: 0 <= i < |out| ==> out[i].number == lo + i
  {
    forall i: nat | lo + i < hi
      ensures i < |out| && out[i].number == lo + i
    {
      Consecutive(out, lo, hi, i);
    }
    if out != [] {
      Ascends(out, lo, |out| - 1);
    }
    if lo < hi {
      Consecutive(out, lo, hi, hi - lo - 1);
    }
  }

  function First(from: Option<int>): nat {
    if from.Some? && from.value > 0 then from.value else 0
  }

  function Last(to: Option<int>, n: nat): int {
    if to.Some? && to.value < n then to.value + 1 else n
  }

  lemma AnswerPositions(rows: Rows, org: string, n: nat, from: Option<int>, to: Option<int>, out: seq<Row>)
    requires IsLength(rows, org, n) && Answers(rows, org, from, to, out)
    ensures var (lo, hi) := (First(from), Last(to, n));
      |out| == (if lo < hi then hi - lo else 0) && forall i :: 0 <= i < |out| ==> out[i].number == lo + i
  {
    var (lo, hi) := (First(from), if First(from) < Last(to, n) then Last(to, n) else First(from));
    forall q: nat
      ensures Slot(org, q) in rows && InWindow(q, from, to) <==> lo <= q < hi
    {
    }
    WindowSize(out, lo, hi);
  }

  lemma RowReadsBackOk(digest: Row -> Digest, rows: Rows, org: string, back: Row)
    requires Faithful(digest) && RowsOk(digest, rows)
    requires Slot(org, back.number) in rows && ReadBack(rows[Slot(org, back.number)], back)
    ensures back.eventHash == digest(Unhashed(back)) == rows[Slot(org, back.number)].eventHash
    ensures back.number > 0 ==>
      Slot(org, back.number - 1) in rows && back.prevEventHash == rows[Slot(org, back.number - 1)].eventHash
  {
    var stored := rows[Slot(org, back.number)];
    assert RowOk(digest, rows, Slot(org, back.number));
    ReadBackSameRecord(stored, back);
    assert SameRecord(Unhashed(stored), Unhashed(back));
    assert digest(Unhashed(stored)) == digest(Unhashed(back));
  }

  lemma PredecessorMatches(digest: Row -> Digest, rows: Rows, org: string, before: Row, back: Row)
    requires Faithful(digest) && RowsOk(digest, rows) && back.number == before.number + 1
    requires Slot(org, before.number) in rows && ReadBack(rows[Slot(org, before.number)], before)
    requires Slot(org, back.number) in rows && ReadBack(rows[Slot(org, back.number)], back)
    ensures back.eventHash == digest(Unhashed(back)) && back.prevEventHash == before.eventHash
  {
    RowReadsBackOk(digest, rows, org, before);
    RowReadsBackOk(digest, rows, org, back);
  }

  /** A window of a good collection comes back consecutive and locally correct. */
  lemma AnswerIsAccepted(digest: Row -> Digest, rows: Rows, org: string, n: nat,
                         from: Option<int>, to: Option<int>, out: seq<Row>)
    requires Faithful(digest) && RowsOk(digest, rows) && IsLength(rows, org, n)
    requires Answers(rows, org, from, to, out)
    ensures Accepted(digest, out)
    ensures var (lo, hi) := (First(from), Last(to, n));
      |out| == (if lo < hi then hi - lo else 0) && forall i :: 0 <= i < |out| ==> out[i].number == lo + i
  {
    AnswerPositions(rows, org, n, from, to, out);
    hide First, Last, IsLength;
    forall i: nat | i < |out|
      ensures LocallyOk(digest, out, i)
    {
      if i > 0 {
        assert out[i].number == out[i - 1].number + 1;
        PredecessorMatches(digest, rows, org, out[i - 1], out[i]);
      } else {
        RowReadsBackOk(digest, rows, org, out[i]);
      }
    }
  }

  /** Main completeness result: in every state reachable by emits, verifying any
      window accepts, with the exact count and end points. */
  lemma ReachableVerifies(digest: Row -> Digest, steps: seq<Step>, org: string, n: nat,
                          from: Option<int>, to: Option<int>, out: seq<Row>)
    requires Faithful(digest) && AllSane(steps)
    requires IsLength(Run(digest, EMPTY, steps).rows, org, n)
    requires Answers(Run(digest, EMPTY, steps).rows, org, from, to, out)
    ensures Accepted(digest, out)
    ensures var (lo, hi) := (First(from), Last(to, n));
      |out| == (if lo < hi then hi - lo else 0) && forall i :: 0 <= i < |out| ==> out[i].number == lo + i
    ensures forall q: nat :: Holds(out, q) <==>
      q < n && (from.Some? ==> from.value <= q) && (to.Some? ==> q <= to.value)
  {
    RunKeepsInv(digest, EMPTY, steps);
    AnswerIsAccepted(digest, Run(digest, EMPTY, steps).rows, org, n, from, to, out);
  }

  /** `self_test` returns true whenever its emit succeeded: however the other emitters
      went on meanwhile, the one-row window holds the emitted row and is accepted. */
  lemma SelfTestSucceeds(digest: Row -> Digest, steps: seq<Step>, id: nat, row: Row, out: seq<Row>)
    requires Faithful(digest) && AllSane(steps)
    requires id in Run(digest, EMPTY, steps).emitters && Run(digest, EMPTY, steps).emitters[id].pc == Done(row)
    requires Answers(Run(digest, EMPTY, steps).rows, row.org, Some(row.number), Some(row.number), out)
    ensures Accepted(digest, out) && |out| == 1 && out[0].eventHash == row.eventHash
  {
    var s := Run(digest, EMPTY, steps);
    RunKeepsInv(digest, EMPTY, steps);
    assert EmitterOk(digest, s, id);
    var n := HasLength(digest, s.rows, row.org);
    AnswerIsAccepted(digest, s.rows, row.org, n, Some(row.number), Some(row.number), out);
    RowReadsBackOk(digest, s.rows, row.org, out[0]);
  }
}
