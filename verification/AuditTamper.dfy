/** What acceptance by `verify_chain` proves about rows that may have been tampered
    with, and where each kind of edit is reported. Every statement holds outright or
    points at two rows of the two chains whose different texts hash alike. */
module AuditTamper {
  import opened Json
  import opened AuditRow
  import opened AuditHash
  import opened AuditChain
  import opened AuditVerify

  /** Same link and same recorded event: everything that is hashed. */
  ghost predicate Agree(r: Row, s: Row) {
    r.prevEventHash == s.prevEventHash && SameRecord(r, s)
  }

  /** Two rows that differ in what is hashed, yet have the same digest. */
  ghost predicate Clash(digest: Row -> Digest, r: Row, s: Row) {
    !Agree(r, s) && digest(Unhashed(r)) == digest(Unhashed(s))
  }

  ghost predicate AllWf(rows: seq<Row>) {
    forall i :: 0 <= i < |rows| ==> WfRow(rows[i])
  }

  // ---- the digest of the source ----

  /** `compute_event_hash(prev_event_hash, payload)` as a function of the row. */
  function DigestOf(H: string -> Digest): Row -> Digest {
    (r: Row) => EventHash(H, r)
  }

  lemma ClashIsCollision(H: string -> Digest, r: Row, s: Row)
    requires WfRow(r) && WfRow(s)
    ensures Clash(DigestOf(H), r, s) <==> Collide(H, r, s)
  {
    MaterialIff(r, s);
    assert Material(Unhashed(r)) == Material(r) && Material(Unhashed(s)) == Material(s);
  }

  lemma SourceDigestIsFaithful(H: string -> Digest)
    ensures Faithful(DigestOf(H))
  {
    forall r, s | WfRow(r) && WfRow(s) && r.prevEventHash == s.prevEventHash && SameRecord(r, s)
      ensures DigestOf(H)(r) == DigestOf(H)(s)
    {
      MaterialIff(r, s);
    }
  }

  /** An honest row carries the hash of its link, a bar and its canonical payload, and the
      first link is the word GENESIS. */
  lemma HonestHashes(H: string -> Digest, org: string, c: seq<Row>, i: nat)
    requires HonestChain(DigestOf(H), org, c) && i < |c|
    ensures c[i].eventHash == H(c[i].prevEventHash + "|" + Canonical(PayloadOf(c[i])))
    ensures c[i].org == org && c[i].number == i
    ensures c[i].prevEventHash == if i == 0 then "GENESIS" else c[i - 1].eventHash
  {
    assert HonestRow(DigestOf(H), org, c, i);
    assert PayloadOf(Unhashed(c[i])) == PayloadOf(c[i]);
  }

  // ---- acceptance pins down the whole history ----

  /** The i-th rows from the end agree, stored hashes included. */
  ghost predicate AgreeAt(rows: seq<Row>, chain: seq<Row>, i: nat)
    requires i < |rows| && i < |chain|
  {
    && Agree(rows[|rows| - 1 - i], chain[|chain| - 1 - i])
    && rows[|rows| - 1 - i].eventHash == chain[|chain| - 1 - i].eventHash
  }

  /** The last `n` rows of both agree. */
  ghost predicate AgreeBack(rows: seq<Row>, chain: seq<Row>, n: nat) {
    n <= |rows| && n <= |chain| && forall i: nat :: i < n ==> AgreeAt(rows, chain, i)
  }

  ghost predicate ClashAt(digest: Row -> Digest, rows: seq<Row>, chain: seq<Row>, i: nat) {
    i < |rows| && i < |chain| && Clash(digest, rows[|rows| - 1 - i], chain[|chain| - 1 - i])
  }

  lemma BackwardStep(digest: Row -> Digest, org: string, chain: seq<Row>, rows: seq<Row>, n: nat)
    requires HonestChain(digest, org, chain) && Accepted(digest, rows) && rows != [] && chain != []
    requires rows[|rows| - 1].eventHash == chain[|chain| - 1].eventHash
    requires n < |rows| && AgreeBack(rows, chain, n)
    ensures AgreeBack(rows, chain, n + 1) || ClashAt(digest, rows, chain, n)
  {
    var (a, b) := (|rows| - 1 - n, |chain| - 1 - n);
    assert LocallyOk(digest, rows, a);
    if n > 0 {
      assert AgreeAt(rows, chain, n - 1);
      assert LocallyOk(digest, rows, a + 1);
      assert HonestRow(digest, org, chain, b + 1);
      assert |GENESIS_HASH| == 7;
    }
    assert HonestRow(digest, org, chain, b);
    assert rows[a].eventHash == chain[b].eventHash;
    if Agree(rows[a], chain[b]) {
      assert AgreeAt(rows, chain, n);
    }
  }

  lemma {:induction false} BackwardAgreement(digest: Row -> Digest, org: string, chain: seq<Row>, rows: seq<Row>, n: nat)
    requires HonestChain(digest, org, chain) && Accepted(digest, rows) && rows != [] && chain != []
    requires rows[|rows| - 1].eventHash == chain[|chain| - 1].eventHash
    requires n <= |rows|
    ensures AgreeBack(rows, chain, n) || exists i: nat :: ClashAt(digest, rows, chain, i)
  {
    if n > 0 {
      BackwardAgreement(digest, org, chain, rows, n - 1);
      if AgreeBack(rows, chain, n - 1) {
        BackwardStep(digest, org, chain, rows, n - 1);
      }
    }
  }

  /** The i-th rows from the end hash different texts to the same digest. */
  ghost predicate CollideAt(H: string -> Digest, rows: seq<Row>, chain: seq<Row>, i: nat) {
    i < |rows| && i < |chain| && Collide(H, rows[|rows| - 1 - i], chain[|chain| - 1 - i])
  }

  /** Tamper evidence: rows that `verify_chain` accepts and that end in the last hash
      of an honestly emitted chain are exactly a suffix of that chain, and all of it
      when they start at sequence 0, or else a row and its counterpart collide. No
      assumption is made on the links the rows carry. */
  lemma AcceptedIsSuffix(H: string -> Digest, org: string, chain: seq<Row>, rows: seq<Row>)
    requires HonestChain(DigestOf(H), org, chain) && chain != []
    requires Accepted(DigestOf(H), rows) && rows != [] && AllWf(rows)
    requires rows[|rows| - 1].eventHash == chain[|chain| - 1].eventHash
    ensures
      || (&& |rows| <= |chain|
          && (forall i: nat :: i < |rows| ==> AgreeAt(rows, chain, i))
          && (rows[0].number == 0 ==> |rows| == |chain|))
      || (exists i: nat :: CollideAt(H, rows, chain, i))
  {
    BackwardAgreement(DigestOf(H), org, chain, rows, |rows|);
    if AgreeBack(rows, chain, |rows|) {
      assert AgreeAt(rows, chain, |rows| - 1);
      assert HonestRow(DigestOf(H), org, chain, |chain| - |rows|);
    } else {
      var i: nat :| ClashAt(DigestOf(H), rows, chain, i);
      assert HonestRow(DigestOf(H), org, chain, |chain| - 1 - i);
      ClashIsCollision(H, rows[|rows| - 1 - i], chain[|chain| - 1 - i]);
      assert CollideAt(H, rows, chain, i);
    }
  }

  lemma AgreesFromTheStart(rows: seq<Row>, stored: Rows, org: string, n: nat)
    requires (forall q: nat :: q < n ==> Slot(org, q) in stored) && |rows| == n
    requires forall i: nat :: i < n ==> AgreeAt(rows, ChainOf(stored, org, n), i)
    ensures forall q: nat :: q < n ==> Agree(rows[q], stored[Slot(org, q)])
  {
    forall q: nat | q < n
      ensures Agree(rows[q], stored[Slot(org, q)])
    {
      assert AgreeAt(rows, ChainOf(stored, org, n), n - 1 - q);
    }
  }

  /** The same for a whole collection in the state every run keeps: an accepted row list
      that starts at sequence 0 and ends in the last stored hash has the length of the
      stored chain and agrees with it row by row, or exhibits a clash. */
  lemma AcceptedHistoryIsComplete(digest: Row -> Digest, stored: Rows, org: string, n: nat, rows: seq<Row>)
    requires RowsOk(digest, stored) && n > 0 && IsLength(stored, org, n)
    requires Accepted(digest, rows) && rows != [] && rows[0].number == 0
    requires rows[|rows| - 1].eventHash == stored[Slot(org, n - 1)].eventHash
    ensures
      || (|rows| == n && forall q: nat :: q < n ==> Agree(rows[q], stored[Slot(org, q)]))
      || (exists i: nat :: ClashAt(digest, rows, ChainOf(stored, org, n), i))
  {
    var chain := ChainOf(stored, org, n);
    RowsFormHonestChain(digest, stored, org, n);
    BackwardAgreement(digest, org, chain, rows, |rows|);
    if AgreeBack(rows, chain, |rows|) {
      assert AgreeAt(rows, chain, |rows| - 1);
      assert HonestRow(digest, org, chain, n - |rows|);
      AgreesFromTheStart(rows, stored, org, n);
    } else {
      var i: nat :| ClashAt(digest, rows, chain, i);
      assert ClashAt(digest, rows, ChainOf(stored, org, n), i);
    }
  }

  // ---- where an edit is reported ----

  lemma PrefixStaysOk(digest: Row -> Digest, rows: seq<Row>, edited: seq<Row>, k: nat, i: nat)
    requires Accepted(digest, rows)
    requires i < k <= |rows| && k <= |edited| && edited[..k] == rows[..k]
    ensures LocallyOk(digest, edited, i)
  {
    assert LocallyOk(digest, rows, i);
    assert edited[i] == edited[..k][i] == rows[..k][i] == rows[i];
    assert i > 0 ==> edited[i - 1] == edited[..k][i - 1] == rows[..k][i - 1] == rows[i - 1];
  }

  /** Changing anything that is hashed in one row, but not its stored hash, is reported
      exactly at that row, unless the old and the new row collide. */
  lemma EditBreaksThere(digest: Row -> Digest, rows: seq<Row>, k: nat, e: Row)
    requires Accepted(digest, rows) && k < |rows|
    requires e.eventHash == rows[k].eventHash && !Agree(e, rows[k])
    ensures BreaksAt(digest, rows[k := e], k) || Clash(digest, e, rows[k])
  {
    var edited := rows[k := e];
    assert LocallyOk(digest, rows, k);
    forall i: nat | i < k
      ensures LocallyOk(digest, edited, i)
    {
      PrefixStaysOk(digest, rows, edited, k, i);
    }
  }

  /** Changing a row and recomputing its hash passes that row, and is reported exactly
      at the successor, unless the old and the new row collide. */
  lemma RehashBreaksNext(digest: Row -> Digest, rows: seq<Row>, k: nat, e: Row)
    requires Accepted(digest, rows) && k + 1 < |rows|
    requires e.prevEventHash == rows[k].prevEventHash && e.eventHash == digest(Unhashed(e)) && !Agree(e, rows[k])
    ensures BreaksAt(digest, rows[k := e], k + 1) <==> !Clash(digest, e, rows[k])
    ensures Accepted(digest, rows[k := e]) <==> Clash(digest, e, rows[k])
  {
    var edited := rows[k := e];
    assert LocallyOk(digest, rows, k) && LocallyOk(digest, rows, k + 1);
    forall i: nat | i < k
      ensures LocallyOk(digest, edited, i)
    {
      PrefixStaysOk(digest, rows, edited, k, i);
    }
    assert LocallyOk(digest, edited, k);
    forall i: nat | k + 1 < i < |rows|
      ensures LocallyOk(digest, edited, i)
    {
      assert LocallyOk(digest, rows, i);
    }
  }

  /** The last row has no successor: changing and re-hashing it goes unnoticed. */
  lemma RehashedLastRowIsAccepted(digest: Row -> Digest, rows: seq<Row>, e: Row)
    requires Accepted(digest, rows) && rows != []
    requires e.prevEventHash == rows[|rows| - 1].prevEventHash && e.eventHash == digest(Unhashed(e))
    ensures Accepted(digest, rows[|rows| - 1 := e])
  {
    var k := |rows| - 1;
    var edited := rows[k := e];
    assert LocallyOk(digest, rows, k);
    forall i: nat | i < k
      ensures LocallyOk(digest, edited, i)
    {
      PrefixStaysOk(digest, rows, edited, k, i);
    }
  }

  function Without(rows: seq<Row>, k: nat): seq<Row>
    requires k < |rows|
  {
    rows[..k] + rows[k + 1..]
  }

  /** Removing a row breaks at its successor exactly when it is an interior row of the
      window; removing the first or the last row goes unnoticed. (Up to a collision of
      the removed row with its predecessor.) */
  lemma RemovalBreaksAtSuccessor(digest: Row -> Digest, rows: seq<Row>, k: nat)
    requires Accepted(digest, rows) && k < |rows|
    requires 0 < k && k + 1 < |rows| ==> rows[k - 1].number != rows[k].number
    requires 0 < k && k + 1 < |rows| ==> !Clash(digest, rows[k - 1], rows[k])
    ensures 0 < k && k + 1 < |rows| ==> BreaksAt(digest, Without(rows, k), k)
    ensures Accepted(digest, Without(rows, k)) <==> k == 0 || k + 1 == |rows|
  {
    var left := Without(rows, k);
    forall i: nat | i < k
      ensures LocallyOk(digest, left, i)
    {
      PrefixStaysOk(digest, rows, left, k, i);
    }
    assert LocallyOk(digest, rows, k);
    if 0 < k && k + 1 < |rows| {
      assert LocallyOk(digest, rows, k - 1) && LocallyOk(digest, rows, k + 1);
      assert left[k] == rows[k + 1] && left[k - 1] == rows[k - 1];
      assert BreaksAt(digest, left, k);
    } else {
      forall i: nat | k <= i < |left|
        ensures LocallyOk(digest, left, i)
      {
        assert LocallyOk(digest, rows, i + 1);
        assert left[i] == rows[i + 1];
        assert i > 0 ==> left[i - 1] == rows[i];
      }
    }
  }

  // ---- what acceptance alone does not show ----

  /** The same rows linked from `link` on and hashed anew. */
  function Rechain(digest: Row -> Digest, link: string, rows: seq<Row>): (r: seq<Row>)
    ensures |r| == |rows|
    decreases |rows|
  {
    if rows == [] then []
    else
      var linked := rows[0].(prevEventHash := link, eventHash := "");
      var h := digest(linked);
      [linked.(eventHash := h)] + Rechain(digest, h, rows[1..])
  }

  ghost predicate SameContent(r: Row, s: Row) {
    r.(prevEventHash := "", eventHash := "") == s.(prevEventHash := "", eventHash := "")
  }

  /** Acceptance is relative to the two ends of the window: any rows are accepted once they
      are linked and hashed from any first link, which at sequence 0 need not be GENESIS.
      What ties an accepted list to a history is its last hash (AcceptedIsSuffix). */
  lemma {:induction false} AcceptanceIsRelative(digest: Row -> Digest, link: string, rows: seq<Row>)
    ensures var r := Rechain(digest, link, rows);
      && Accepted(digest, r)
      && (rows != [] ==> r[0].prevEventHash == link)
      && forall i :: 0 <= i < |rows| ==> SameContent(r[i], rows[i])
    decreases |rows|
  {
    if rows != [] {
      var r := Rechain(digest, link, rows);
      AcceptanceIsRelative(digest, r[0].eventHash, rows[1..]);
      var rest := Rechain(digest, r[0].eventHash, rows[1..]);
      assert r[1..] == rest;
      forall i: nat | i < |r|
        ensures LocallyOk(digest, r, i) && SameContent(r[i], rows[i])
      {
        if i > 0 {
          assert r[i] == rest[i - 1] && rows[i] == rows[1..][i - 1];
          assert LocallyOk(digest, rest, i - 1);
          assert i > 1 ==> r[i - 1] == rest[i - 2];
        } else {
          assert Unhashed(r[0]) == rows[0].(prevEventHash := link, eventHash := "");
        }
      }
    }
  }
}
