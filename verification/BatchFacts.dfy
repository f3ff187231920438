/** What a batch of assertions does to the ledger, read from the fields of the assertions alone. */
module BatchFacts {
  import opened Outcomes
  import opened HexNumbers
  import opened Revocations
  import opened RevocationService

  /** The assertion contradicts what the ledger holds. */
  predicate Disputes(row: Revocation, c: Change) { c.reason != row.reason || c.revokedAt != row.revokedAt }

  /** The assertion changes the ledger. */
  predicate Effective(rows: Rows, c: Change) {
    if c.serial.hex !in rows then true
    else if Disputes(rows[c.serial.hex], c) then !rows[c.serial.hex].needsReview
    else rows[c.serial.hex].certificateId == "" && c.certificateId != ""
  }

  predicate Acceptable(rows: Rows, c: Change) {
    && !c.reason.OtherReason? && !c.source.OtherSource?
    && c.serial.hex != "" && c.revokedAt != 0
    && (c.serial.hex !in rows ==> IsUuid(c.freshId) && IsUuid(c.issuerId))
  }

  /** The row that an effective assertion leaves under the batch's generation. */
  function Asserted(rows: Rows, c: Change, generation: int): Revocation {
    if c.serial.hex !in rows then
      Revocation(c.freshId, c.issuerId, c.serial, c.certificateId, c.revokedAt, c.reason, c.source, generation,
                 c.needsReview, 1)
    else
      var row := rows[c.serial.hex];
      if Disputes(row, c) then row.(needsReview := true, changeGeneration := generation, version := row.version + 2)
      else row.(certificateId := c.certificateId, changeGeneration := generation, version := row.version + 2)
  }

  function EffectiveCount(rows: Rows, changes: seq<Change>): nat {
    if changes == [] then 0
    else
      EffectiveCount(rows, changes[..|changes| - 1]) + if Effective(rows, changes[|changes| - 1]) then 1 else 0
  }

  /** One assertion: when it is accepted, when it changes anything, and what is then to be stored. */
  lemma ResolveExactly(rows: Rows, c: Change, issuer: string, generation: int)
    requires LedgerOk(issuer, rows, generation) && c.issuerId == issuer
    ensures var r := ResolveChange(rows, c);
            && (r.Ok? <==> Acceptable(rows, c))
            && (r.Ok? ==> (r.value.Some? <==> Effective(rows, c)))
            && (r.Ok? && r.value.Some? ==>
                  && Key(r.value.value) == c.serial.hex
                  && RevocationService.Stamped(r.value.value, generation + 1) == Asserted(rows, c, generation + 1))
  {
    hide IsUuid;
  }

  /** `item` is what some effective assertion resolved to. */
  ghost predicate From(rows: Rows, changes: seq<Change>, item: Pending) {
    exists c :: c in changes && ResolveChange(rows, c) == Ok(Some(item))
  }

  lemma {:induction false} PendingExactly(rows: Rows, changes: seq<Change>, issuer: string, generation: int)
    requires LedgerOk(issuer, rows, generation) && forall c | c in changes :: c.issuerId == issuer
    requires ResolveAll(rows, changes).Ok?
    ensures var pending := ResolveAll(rows, changes).value;
            && |pending| == EffectiveCount(rows, changes)
            && (forall item | item in pending :: From(rows, changes, item))
            && (forall c | c in changes && Effective(rows, c) ::
                  ResolveChange(rows, c).Ok? && ResolveChange(rows, c).value.Some? &&
                      ResolveChange(rows, c).value.value in pending)
  {
    hide ResolveChange, LedgerOk, Effective;
    if changes != [] {
      var front, last := changes[..|changes| - 1], changes[|changes| - 1];
      assert changes == front + [last] && last in changes && forall c | c in front :: c in changes;
      PendingExactly(rows, front, issuer, generation);
      ResolveExactly(rows, last, issuer, generation);
      var pending := ResolveAll(rows, changes).value;
      forall item | item in pending ensures From(rows, changes, item) {
        if item in ResolveAll(rows, front).value { assert From(rows, front, item); }
      }
    }
  }

  lemma CountedSome(rows: Rows, changes: seq<Change>)
    ensures EffectiveCount(rows, changes) > 0 <==> exists c :: c in changes && Effective(rows, c)
  {
    hide Effective;
    if changes != [] {
      var front, last := changes[..|changes| - 1], changes[|changes| - 1];
      CountedSome(rows, front);
      assert changes == front + [last] && last in changes && forall c | c in front :: c in changes;
    }
  }

  /** What the ledger reads after the batch, serial by serial. */
  ghost predicate Recorded(rows: Rows, changes: seq<Change>, after: Rows, generation: int) {
    && after.Keys == rows.Keys + (set c | c in changes :: c.serial.hex)
    && (forall c | c in changes && Effective(rows, c) ::
          c.serial.hex in after && after[c.serial.hex] == Asserted(rows, c, generation))
    && (forall k | k in rows && (forall c | c in changes && c.serial.hex == k :: !Effective(rows, c)) ::
          k in after && after[k] == rows[k])
  }

  /** Some effective assertion names the serial. */
  ghost predicate Named(rows: Rows, changes: seq<Change>, k: string) {
    exists c :: c in changes && Effective(rows, c) && c.serial.hex == k
  }

  lemma StoredKeys(rows: Rows, changes: seq<Change>, pending: seq<Pending>, issuer: string, generation: int)
    requires LedgerOk(issuer, rows, generation) && forall c | c in changes :: c.issuerId == issuer
    requires ResolveAll(rows, changes) == Ok(pending)
    ensures forall k | k in Keys(pending) :: Named(rows, changes, k)
  {
    hide ResolveAll, ResolveChange, Effective, LedgerOk, RevocationService.Stamped, Asserted, Key;
    PendingExactly(rows, changes, issuer, generation);
    forall k | k in Keys(pending) ensures Named(rows, changes, k) {
      var i :| 0 <= i < |pending| && Key(pending[i]) == k;
      assert From(rows, changes, pending[i]);
      var c :| c in changes && ResolveChange(rows, c) == Ok(Some(pending[i]));
      ResolveExactly(rows, c, issuer, generation);
    }
  }

  lemma StoredRow(rows: Rows, changes: seq<Change>, after: Rows, issuer: string, generation: int, c: Change)
    requires LedgerOk(issuer, rows, generation) && forall d | d in changes :: d.issuerId == issuer
    requires ResolveAll(rows, changes).Ok? && c in changes && Effective(rows, c)
    requires StoredExactly(rows, after, ResolveAll(rows, changes).value, generation + 1)
    ensures c.serial.hex in after && after[c.serial.hex] == Asserted(rows, c, generation + 1)
  {
    hide ResolveAll, ResolveChange, Effective, LedgerOk, RevocationService.Stamped, Asserted, Key;
    var pending := ResolveAll(rows, changes).value;
    PendingExactly(rows, changes, issuer, generation);
    ResolveExactly(rows, c, issuer, generation);
    var i :| 0 <= i < |pending| && pending[i] == ResolveChange(rows, c).value.value;
  }

  lemma StoredRest(rows: Rows, after: Rows, pending: seq<Pending>, generation: int)
    requires StoredExactly(rows, after, pending, generation)
    ensures after.Keys == rows.Keys + Keys(pending)
    ensures forall k | k in rows && k !in Keys(pending) :: k in after && after[k] == rows[k]
  {
  }

  lemma StoredRecords(rows: Rows, changes: seq<Change>, after: Rows, issuer: string, generation: int)
    requires LedgerOk(issuer, rows, generation) && forall c | c in changes :: c.issuerId == issuer
    requires ResolveAll(rows, changes).Ok?
    requires StoredExactly(rows, after, ResolveAll(rows, changes).value, generation + 1)
    ensures Recorded(rows, changes, after, generation + 1)
  {
    hide ResolveAll, ResolveChange, Effective, LedgerOk, RevocationService.Stamped, Asserted, Key, Keys, StoredExactly;
    var pending := ResolveAll(rows, changes).value;
    StoredKeys(rows, changes, pending, issuer, generation);
    StoredRest(rows, after, pending, generation + 1);
    forall c | c in changes
      ensures c.serial.hex in after
      ensures Effective(rows, c) ==> after[c.serial.hex] == Asserted(rows, c, generation + 1)
    {
      if Effective(rows, c) { StoredRow(rows, changes, after, issuer, generation, c); } else { NothingNew(rows, c); }
    }
    assert forall k | k in after :: k in rows || Named(rows, changes, k);
  }

  lemma NothingNew(rows: Rows, c: Change)
    requires !Effective(rows, c)
    ensures c.serial.hex in rows
  {
  }

  /**
   * After an accepted batch every asserted serial is in the ledger: a new one with the assertion's id, certificate,
   * time, reason, source and review flag; a known one changed only as Asserted says; all other rows as they were.
   */
  lemma BatchRecords(state: CRLState, rows: Rows, changes: seq<Change>, issuer: string)
    requires LedgerOk(issuer, rows, state.revocationGeneration) && state.revocationGeneration >= 0
    requires forall c | c in changes :: c.issuerId == issuer
    requires ApplyIssuerBatch(state, rows, changes).Ok?
    ensures var batch := ApplyIssuerBatch(state, rows, changes).value;
            && Recorded(rows, changes, batch.rows, state.revocationGeneration + 1)
            && batch.changed == EffectiveCount(rows, changes)
            && (batch.changed > 0 <==> exists c :: c in changes && Effective(rows, c))
  {
    hide ResolveAll, StoreAll, LedgerOk, ResolvedFrom, Effective, Recorded, StoredExactly, DistinctKeys, From;
    var pending := ResolveAll(rows, changes).value;
    PendingExactly(rows, changes, issuer, state.revocationGeneration);
    CountedSome(rows, changes);
    ResolveAllShape(rows, changes, issuer, state.revocationGeneration);
    LedgerLast(issuer, rows, state.revocationGeneration);
    StoreAllExact(rows, pending, issuer, state.revocationGeneration + 1);
    if pending == [] { NothingStored(rows, state.revocationGeneration + 1); }
    StoredRecords(rows, changes, ApplyIssuerBatch(state, rows, changes).value.rows, issuer, state.revocationGeneration);
  }

  lemma NothingStored(rows: Rows, generation: int)
    ensures StoredExactly(rows, rows, [], generation)
  {
  }

  lemma RecordedRow(rows: Rows, changes: seq<Change>, after: Rows, generation: int, k: string)
    requires Recorded(rows, changes, after, generation) && k in rows
    ensures k in after
    ensures Named(rows, changes, k) ==>
              exists c :: c in changes && c.serial.hex == k && Effective(rows, c) &&
                  after[k] == Asserted(rows, c, generation)
    ensures !Named(rows, changes, k) ==> after[k] == rows[k]
    ensures forall c | c in changes && c.serial.hex == k && Effective(rows, c) ::
              after[k] == Asserted(rows, c, generation)
  {
    hide Effective, Asserted;
    if Named(rows, changes, k) {
      var c :| c in changes && Effective(rows, c) && c.serial.hex == k;
      assert after[k] == Asserted(rows, c, generation);
    }
  }

  /** Row by row: what a known serial keeps, when it is put up for review, and when it takes a certificate. */
  lemma KnownSerial(state: CRLState, rows: Rows, changes: seq<Change>, issuer: string, k: string)
    requires LedgerOk(issuer, rows, state.revocationGeneration) && state.revocationGeneration >= 0
    requires forall c | c in changes :: c.issuerId == issuer
    requires ApplyIssuerBatch(state, rows, changes).Ok? && k in rows
    ensures var after := ApplyIssuerBatch(state, rows, changes).value.rows;
            && k in after
            && after[k] == rows[k].(certificateId := after[k].certificateId, needsReview := after[k].needsReview,
                                    changeGeneration := after[k].changeGeneration, version := after[k].version)
            && (after[k].needsReview <==>
                  rows[k].needsReview || exists c :: c in changes && c.serial.hex == k && Disputes(rows[k], c))
            && (rows[k].certificateId != "" ==> after[k].certificateId == rows[k].certificateId)
            && (forall c | c in changes && c.serial.hex == k && !Disputes(rows[k], c) && c.certificateId != "" ::
                  rows[k].certificateId == "" ==> after[k].certificateId == c.certificateId)
  {
    hide ApplyIssuerBatch, LedgerOk;
    BatchRecords(state, rows, changes, issuer);
    RecordedRow(rows, changes, ApplyIssuerBatch(state, rows, changes).value.rows, state.revocationGeneration + 1, k);
  }

  /** No serial is changed by two assertions of the batch. */
  ghost predicate EffectiveOnce(rows: Rows, changes: seq<Change>) {
    forall i, j | 0 <= i < j < |changes| && changes[i].serial.hex == changes[j].serial.hex ::
      !Effective(rows, changes[i]) || !Effective(rows, changes[j])
  }

  /** A batch is accepted exactly when each assertion is, and no serial is changed twice. */
  lemma AcceptedExactly(state: CRLState, rows: Rows, changes: seq<Change>, issuer: string)
    requires LedgerOk(issuer, rows, state.revocationGeneration) && state.revocationGeneration >= 0
    requires forall c | c in changes :: c.issuerId == issuer
    ensures ApplyIssuerBatch(state, rows, changes).Ok? <==>
              (forall c | c in changes :: Acceptable(rows, c)) && EffectiveOnce(rows, changes)
  {
    BatchSucceedsExactly(state, rows, changes, issuer);
    hide ApplyIssuerBatch, ResolveChange, LedgerOk, Acceptable, Effective;
    forall i | 0 <= i < |changes|
      ensures ResolveChange(rows, changes[i]).Ok? <==> Acceptable(rows, changes[i])
      ensures Acceptable(rows, changes[i]) ==>
                (ResolveChange(rows, changes[i]) == Ok(None) <==> !Effective(rows, changes[i]))
    {
      ResolveExactly(rows, changes[i], issuer, state.revocationGeneration);
    }
  }
}
