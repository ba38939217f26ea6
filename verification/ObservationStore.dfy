/** The observations table: each insert reads the head, seals after it and commits, all in one transaction. */
module ObservationStore {
  import opened Wrappers
  import opened ByteStrings
  import opened Ordering
  import opened Provenance

  datatype Row = Row(env: Envelope, ts: int, source: Text)

  /** How a transaction ends; every failing end rolls back. */
  datatype TxEnd = Busy | SealFailed | StatementFailed | CommitFailed | Committed
  datatype StoreError = TransactionFailed | DuplicateId

  // ---------------------------------------------------------------- row order

  // ORDER BY ts ASC, id ASC
  predicate RowLess(a: Row, b: Row) {
    a.ts < b.ts || (a.ts == b.ts && Less(a.env.id, b.env.id))
  }

  predicate UniqueIds(rows: seq<Row>) {
    forall i, j | 0 <= i < j < |rows| :: rows[i].env.id != rows[j].env.id
  }

  lemma RowsStrictlyOrdered(rows: seq<Row>)
    requires UniqueIds(rows)
    ensures StrictOrderOn(RowLess, set r | r in rows)
  {
    hide Less;
    LessIsStrictOrder();
  }

  // The row that ORDER BY ts DESC, id DESC LIMIT 1 selects.
  function Latest(rows: seq<Row>): (r: Row)
    requires |rows| > 0
    ensures r in rows
  {
    var last := rows[|rows| - 1];
    if |rows| == 1 then last
    else
      var best := Latest(rows[..|rows| - 1]);
      if RowLess(best, last) then last else best
  }

  /** No other row has a larger timestamp, nor the same one and a larger id. */
  predicate Foremost(x: Row, rows: seq<Row>) {
    && x in rows
    && forall y | y in rows && y != x :: y.ts < x.ts || (y.ts == x.ts && Less(y.env.id, x.env.id))
  }

  lemma {:induction false} LatestIsForemost(rows: seq<Row>)
    requires UniqueIds(rows) && |rows| > 0
    ensures Foremost(Latest(rows), rows)
  {
    hide Less, Foremost, RowLess;
    var n := |rows| - 1;
    assert rows == rows[..n] + [rows[n]];
    if n > 0 {
      LatestIsForemost(rows[..n]);
      ForemostOfMore(rows[..n], Latest(rows[..n]), rows[n]);
      var k :| 0 <= k < n && rows[k] == Latest(rows[..n]);
      assert rows[k].env.id != rows[n].env.id;
    } else {
      ForemostOfOne(rows[n]);
    }
  }

  lemma ForemostOfOne(x: Row)
    ensures Foremost(x, [x])
  {}

  lemma ForemostOfMore(front: seq<Row>, best: Row, last: Row)
    requires Foremost(best, front)
    ensures RowLess(best, last) ==> Foremost(last, front + [last])
    ensures best.env.id != last.env.id && !RowLess(best, last) ==> Foremost(best, front + [last])
  {
    hide Less;
    LessIsStrictOrder();
  }

  lemma OneForemost(x: Row, y: Row, rows: seq<Row>)
    requires Foremost(x, rows) && Foremost(y, rows)
    ensures x == y
  {
    hide Less;
    LessIsStrictOrder();
  }

  function HeadHash(rows: seq<Row>): Text {
    if |rows| == 0 then GENESIS else Latest(rows).env.hash
  }

  function Walk(rows: seq<Row>): (w: seq<Row>)
    requires UniqueIds(rows)
    ensures IsListing(RowLess, w, set r | r in rows)
  {
    RowsStrictlyOrdered(rows);
    Listing(RowLess, set r | r in rows)
  }

  lemma WalkMembers(rows: seq<Row>)
    requires UniqueIds(rows)
    ensures forall r :: r in Walk(rows) <==> r in rows
    ensures Ascending(RowLess, Walk(rows))
  {}

  /** The walk goes up in timestamp and, within one, in id. */
  lemma WalkGoesUp(rows: seq<Row>, i: nat, j: nat)
    requires UniqueIds(rows) && i < j < |Walk(rows)|
    ensures var a, b := Walk(rows)[i], Walk(rows)[j]; a.ts < b.ts || (a.ts == b.ts && Less(a.env.id, b.env.id))
  {
    hide Listing;
    WalkMembers(rows);
    assert RowLess(Walk(rows)[i], Walk(rows)[j]);
  }

  /** In any history the hash that an insert seals after is that of the walk's last row. */
  lemma HeadHashIsHead(rows: seq<Row>)
    requires UniqueIds(rows)
    ensures HeadHash(rows) == Head(Envelopes(Walk(rows)))
    ensures |rows| == 0 ==> HeadHash(rows) == GENESIS
    ensures |rows| > 0 ==> exists x :: Foremost(x, rows) && HeadHash(rows) == x.env.hash
  {
    hide Walk, Latest, Foremost, Less, RowLess;
    WalkMembers(rows);
    var w := Walk(rows);
    assert forall i | 0 <= i < |w| :: w[i] in rows;
    if |rows| > 0 {
      LatestIsForemost(rows);
      assert rows[0] in w;
      LastOfWalkIsForemost(rows);
      OneForemost(Latest(rows), w[|w| - 1], rows);
    }
  }

  lemma LastOfWalkIsForemost(rows: seq<Row>)
    requires UniqueIds(rows) && |Walk(rows)| > 0
    ensures Foremost(Walk(rows)[|Walk(rows)| - 1], rows)
  {
    hide Walk, Less, RowLess;
    WalkMembers(rows);
    var w := Walk(rows);
    var x := w[|w| - 1];
    assert x in w;
    forall y | y in rows && y != x ensures y.ts < x.ts || (y.ts == x.ts && Less(y.env.id, x.env.id)) {
      var i :| 0 <= i < |w| && w[i] == y;
      WalkGoesUp(rows, i, |w| - 1);
    }
  }

  predicate EndsWith(w: seq<Row>, x: Row) {
    |w| > 0 && w[|w| - 1] == x
  }

  function Envelopes(rows: seq<Row>): (es: seq<Envelope>)
    ensures |es| == |rows|
    ensures forall i | 0 <= i < |rows| :: es[i] == rows[i].env
  {
    seq(|rows|, i requires 0 <= i < |rows| => rows[i].env)
  }

  // ---------------------------------------------------------------- the store

  class SqliteStore {
    const sha: Digest
    var rows: seq<Row>               // observations, in commit order
    var fts: seq<(Text, Text)>       // the full-text index: id and content

    ghost predicate Valid()
      reads this
    {
      && UniqueIds(rows)
      && Built(sha, rows)
      && |fts| == |rows| && forall i | 0 <= i < |rows| :: fts[i].0 == rows[i].env.id
    }

    constructor (sha: Digest)
      ensures Valid() && this.sha == sha && rows == [] && fts == []
    {
      this.sha := sha;
      rows := [];
      fts := [];
    }

    /** One transaction: it commits a row sealed after the current head and its index entry, or changes nothing. */
    method InsertObservation(source: Text, json: Text, indexable: Text, id: Text, ts: int, end: TxEnd)
      returns (r: Result<Envelope, StoreError>)
      requires Valid()
      modifies this
      ensures Valid()
      ensures r.Ok? <==> end.Committed? && forall k | k in old(rows) :: k.env.id != id
      ensures r.Ok? ==>
                && r.value.id == id && r.value.json == json && Verify(sha, r.value)
                && (|old(rows)| == 0 ==> r.value.prevHash == GENESIS)
                && (|old(rows)| > 0 ==> exists x :: Foremost(x, old(rows)) && r.value.prevHash == x.env.hash)
                && r.value.prevHash == Head(Envelopes(Walk(old(rows))))
                && rows == old(rows) + [Row(r.value, ts, source)]
                && fts == old(fts) + [(id, indexable)]
      ensures r.Err? ==> rows == old(rows) && fts == old(fts)
    {
      hide HeadHash, Foremost, Walk, Envelopes, Head, Verify;
      if end.Busy? {
        return Err(TransactionFailed);
      }
      var prev := HeadHash(rows);
      if end.SealFailed? {
        return Err(TransactionFailed);
      }
      var env := Seal(sha, prev, json, id);
      if exists k | k in rows :: k.env.id == id {
        return Err(DuplicateId);
      }
      if !end.Committed? {
        return Err(TransactionFailed);
      }
      HeadHashIsHead(rows);
      BuiltExtends(sha, rows, Row(env, ts, source));
      rows := rows + [Row(env, ts, source)];
      fts := fts + [(id, indexable)];
      r := Ok(env);
    }

    /** Accepts exactly when rows were committed in increasing (ts, id); else it names the first bad link. */
    method VerifyFullChain() returns (r: Result<(), ChainError>)
      requires Valid()
      ensures r.Ok? <==> Verified(sha, Envelopes(Walk(rows)))
      ensures r.Err? ==> FirstBad(sha, Envelopes(Walk(rows)), r.error)
      ensures CollisionFree(sha, Inputs(Envelopes(rows))) ==> (r.Ok? <==> CommitsIncrease(rows))
    {
      r := VerifyChain(sha, Envelopes(Walk(rows)));
      if CollisionFree(sha, Inputs(Envelopes(rows))) {
        VerifiesIffCommitsIncrease(sha, rows);
      }
    }
  }

  // ---------------------------------------------------------------- what makes the walk verify

  /** Every row was sealed after the head of the rows committed before it, whoever the writer. */
  ghost predicate Built(sha: Digest, rows: seq<Row>) {
    forall i | 0 <= i < |rows| :: BuiltAt(sha, rows, i)
  }

  ghost predicate BuiltAt(sha: Digest, rows: seq<Row>, i: nat)
    requires i < |rows|
  {
    Verify(sha, rows[i].env) && rows[i].env.prevHash == HeadHash(rows[..i])
  }

  ghost predicate CommitsIncrease(rows: seq<Row>) {
    Ascending(RowLess, rows)
  }

  ghost predicate SortsAfter(x: Row, rows: seq<Row>) {
    forall k | k in rows :: RowLess(k, x)
  }

  lemma BuiltExtends(sha: Digest, rows: seq<Row>, x: Row)
    requires Built(sha, rows) && Verify(sha, x.env) && x.env.prevHash == HeadHash(rows)
    ensures Built(sha, rows + [x])
  {
    hide Verify, HeadHash;
    var longer := rows + [x];
    forall i | 0 <= i < |longer| ensures BuiltAt(sha, longer, i) {
      assert longer[..i] == rows[..i];
      if i < |rows| {
        assert BuiltAt(sha, rows, i);
      } else {
        assert rows[..i] == rows;
      }
    }
  }

  lemma BuiltPrefix(sha: Digest, rows: seq<Row>, k: nat)
    requires Built(sha, rows) && UniqueIds(rows) && k <= |rows|
    ensures Built(sha, rows[..k]) && UniqueIds(rows[..k])
  {
    hide Verify, HeadHash;
    forall i | 0 <= i < k ensures BuiltAt(sha, rows[..k], i) {
      assert BuiltAt(sha, rows, i);
      assert rows[..k][..i] == rows[..i];
    }
  }

  lemma {:induction false} LatestOfAscending(rows: seq<Row>)
    requires |rows| > 0 && CommitsIncrease(rows)
    ensures Latest(rows) == rows[|rows| - 1]
  {
    var n := |rows|;
    if n > 1 {
      LatestOfAscending(rows[..n - 1]);
      assert RowLess(rows[n - 2], rows[n - 1]);
    }
  }

  // Rows committed in order are their own walk, and that walk is a chain.
  lemma IncreasingVerifies(sha: Digest, rows: seq<Row>)
    requires UniqueIds(rows) && Built(sha, rows) && CommitsIncrease(rows)
    ensures Walk(rows) == rows && Verified(sha, Envelopes(rows))
  {
    hide RowLess, Verify, Listing, HeadHash, Latest;
    RowsStrictlyOrdered(rows);
    ListingUnique(RowLess, Walk(rows), rows, set r | r in rows);
    forall i | 0 <= i < |rows| ensures LinkAt(sha, Envelopes(rows), i) {
      IncreasingLink(sha, rows, i);
    }
  }

  lemma IncreasingLink(sha: Digest, rows: seq<Row>, i: nat)
    requires Built(sha, rows) && CommitsIncrease(rows) && i < |rows|
    ensures LinkAt(sha, Envelopes(rows), i)
  {
    hide RowLess, Verify, Latest;
    assert BuiltAt(sha, rows, i);
    assert Envelopes(rows)[..i] == Envelopes(rows[..i]);
    if i > 0 {
      LatestOfAscending(rows[..i]);
    }
  }

  lemma RowHashes(sha: Digest, rows: seq<Row>, i: nat)
    requires Built(sha, rows) && i < |rows|
    ensures var e := rows[i].env;
            Verify(sha, e) && Preimage(e.id, e.prevHash, e.json) in Inputs(Envelopes(rows))
  {
    hide Verify, HeadHash, Preimage;
    assert BuiltAt(sha, rows, i);
    assert Envelopes(rows)[i] in Envelopes(rows);
  }

  // No row committed earlier names the hash of a row committed later.
  lemma NoForwardLink(sha: Digest, rows: seq<Row>, j: nat, k: nat)
    requires UniqueIds(rows) && Built(sha, rows) && j < k < |rows|
    requires CollisionFree(sha, Inputs(Envelopes(rows)))
    ensures rows[j].env.prevHash != rows[k].env.hash
  {
    hide RowLess, Preimage;
    assert BuiltAt(sha, rows, j);
    RowHashes(sha, rows, k);
    if j > 0 {
      var z := Latest(rows[..j]);
      var h :| 0 <= h < j && rows[h] == z;
      RowHashes(sha, rows, h);
      if z.env.hash == rows[k].env.hash {
        SameHashSameEnvelope(sha, Inputs(Envelopes(rows)), z.env, rows[k].env);
      }
    }
  }

  lemma NeighboursLinked(sha: Digest, w: seq<Row>, k: nat)
    requires Verified(sha, Envelopes(w)) && k + 1 < |w|
    ensures w[k + 1].env.prevHash == w[k].env.hash
  {
    hide Verify;
    assert LinkAt(sha, Envelopes(w), k + 1);
  }

  lemma WalkedAt(rows: seq<Row>, i: nat) returns (k: nat)
    requires UniqueIds(rows) && i < |rows|
    ensures k < |Walk(rows)| && Walk(rows)[k] == rows[i]
  {
    hide RowLess, Listing;
    WalkMembers(rows);
    assert rows[i] in Walk(rows);
    k :| 0 <= k < |Walk(rows)| && Walk(rows)[k] == rows[i];
  }

  lemma WalkedBefore(rows: seq<Row>, k: nat) returns (j: nat)
    requires UniqueIds(rows) && k + 1 < |Walk(rows)| && Walk(rows)[k] == rows[|rows| - 1]
    ensures j < |rows| - 1 && rows[j] == Walk(rows)[k + 1]
  {
    hide RowLess, Listing;
    var w := Walk(rows);
    WalkMembers(rows);
    RowsStrictlyOrdered(rows);
    assert w[k + 1] in rows && RowLess(w[k], w[k + 1]);
    j :| 0 <= j < |rows| && rows[j] == w[k + 1];
  }

  // In a walk that verifies, the row committed last comes last.
  lemma LastCommitWalksLast(sha: Digest, rows: seq<Row>)
    requires UniqueIds(rows) && Built(sha, rows) && |rows| > 0
    requires CollisionFree(sha, Inputs(Envelopes(rows)))
    requires Verified(sha, Envelopes(Walk(rows)))
    ensures EndsWith(Walk(rows), rows[|rows| - 1])
  {
    hide *;
    var k := WalkedAt(rows, |rows| - 1);
    if k + 1 < |Walk(rows)| {
      var j := WalkedBefore(rows, k);
      NeighboursLinked(sha, Walk(rows), k);
      NoForwardLink(sha, rows, j, |rows| - 1);
    } else {
      LastWalked(rows, k);
    }
  }

  lemma LastWalked(rows: seq<Row>, k: nat)
    requires UniqueIds(rows) && |rows| > 0 && k + 1 == |Walk(rows)| && Walk(rows)[k] == rows[|rows| - 1]
    ensures EndsWith(Walk(rows), rows[|rows| - 1])
  {}

  lemma WalkDropsLast(rows: seq<Row>)
    requires UniqueIds(rows) && |rows| > 0
    requires EndsWith(Walk(rows), rows[|rows| - 1])
    ensures Walk(rows) == Walk(rows[..|rows| - 1]) + [rows[|rows| - 1]]
    ensures SortsAfter(rows[|rows| - 1], rows[..|rows| - 1])
  {
    hide RowLess, Listing;
    var n, w := |rows|, Walk(rows);
    var front, x, v := rows[..n - 1], rows[n - 1], w[..|w| - 1];
    var s := set r | r in front;
    WalkMembers(rows);
    WalkMembers(front);
    RowsStrictlyOrdered(rows);
    RowsStrictlyOrdered(front);
    forall r ensures r in v <==> r in s {
      if r in v {
        var i :| 0 <= i < |v| && v[i] == r;
        assert RowLess(w[i], w[|w| - 1]);
        assert r in rows && r != x;
      }
      if r in s {
        assert r in w && r != x;
      }
    }
    ListingUnique(RowLess, v, Walk(front), s);
    forall r | r in front ensures RowLess(r, x) {
      assert r in v;
      var i :| 0 <= i < |v| && v[i] == r;
      assert RowLess(w[i], w[|w| - 1]);
    }
    assert w == v + [x];
  }

  /** After any history of commits the walk verifies exactly when every commit sorted after all rows before it. */
  lemma {:induction false} VerifiesIffCommitsIncrease(sha: Digest, rows: seq<Row>)
    requires UniqueIds(rows) && Built(sha, rows)
    requires CollisionFree(sha, Inputs(Envelopes(rows)))
    ensures Verified(sha, Envelopes(Walk(rows))) <==> CommitsIncrease(rows)
  {
    hide RowLess, Verify, Listing, HeadHash, CollisionFree, Verified, UniqueIds;
    if CommitsIncrease(rows) {
      IncreasingVerifies(sha, rows);
    }
    if Verified(sha, Envelopes(Walk(rows))) && |rows| > 0 {
      var front, x := rows[..|rows| - 1], rows[|rows| - 1];
      LastCommitWalksLast(sha, rows);
      WalkDropsLast(rows);
      BuiltPrefix(sha, rows, |rows| - 1);
      assert Envelopes(Walk(rows))[..|Walk(front)|] == Envelopes(Walk(front));
      PrefixVerified(sha, Envelopes(Walk(rows)), |Walk(front)|);
      FewerInputs(sha, rows);
      VerifiesIffCommitsIncrease(sha, front);
      AscendingAppend(front, x);
      assert rows == front + [x];
    }
  }

  lemma FewerInputs(sha: Digest, rows: seq<Row>)
    requires |rows| > 0 && CollisionFree(sha, Inputs(Envelopes(rows)))
    ensures CollisionFree(sha, Inputs(Envelopes(rows[..|rows| - 1])))
  {
    hide Preimage;
    var front := rows[..|rows| - 1];
    forall e | e in Envelopes(front) ensures e in Envelopes(rows) {
      var i :| 0 <= i < |front| && Envelopes(front)[i] == e;
      assert Envelopes(rows)[i] == e;
    }
  }

  lemma AscendingAppend(rows: seq<Row>, x: Row)
    ensures CommitsIncrease(rows + [x]) <==> CommitsIncrease(rows) && SortsAfter(x, rows)
  {
    hide RowLess;
    var longer := rows + [x];
    if CommitsIncrease(longer) {
      forall k | k in rows ensures RowLess(k, x) {
        var i :| 0 <= i < |rows| && rows[i] == k;
        assert RowLess(longer[i], longer[|rows|]);
      }
      forall i, j | 0 <= i < j < |rows| ensures RowLess(rows[i], rows[j]) {
        assert RowLess(longer[i], longer[j]);
      }
    }
  }

  /** One more commit keeps the walk verifying exactly when it verified before and the new (ts, id) sorts last. */
  lemma InsertVerifiesIff(sha: Digest, rows: seq<Row>, x: Row)
    requires UniqueIds(rows + [x]) && Built(sha, rows + [x])
    requires CollisionFree(sha, Inputs(Envelopes(rows + [x])))
    ensures UniqueIds(rows)
    ensures Verified(sha, Envelopes(Walk(rows + [x]))) <==>
              Verified(sha, Envelopes(Walk(rows))) && SortsAfter(x, rows)
  {
    hide RowLess, Verify, Listing, HeadHash, CollisionFree, Verified, CommitsIncrease;
    var longer := rows + [x];
    assert longer[..|rows|] == rows;
    BuiltPrefix(sha, longer, |rows|);
    FewerInputs(sha, longer);
    VerifiesIffCommitsIncrease(sha, longer);
    VerifiesIffCommitsIncrease(sha, rows);
    AscendingAppend(rows, x);
  }
}
