/** The revocation and CRL transactions of the application services, for one issuing CA key, as functions. */
module RevocationService {
  import opened Outcomes
  import opened HexNumbers
  import opened Ordering
  import opened Revocations
  import opened CrlSigner

  /** One issuer's ledger rows by serial text. */
  type Rows = map<string, Revocation>

  /** One asserted revocation; `freshId` is the id the generator would hand out if the row is new. */
  datatype Change = Change(
    issuerId: string,
    serial: Serial,
    certificateId: string,
    revokedAt: Instant,
    reason: RevocationReason,
    source: RevocationSource,
    needsReview: bool,
    freshId: string)

  datatype Pending = Pending(revocation: Revocation, expectedVersion: int, isNew: bool)

  function FactsOf(change: Change, id: string): Facts {
    Facts(id, change.issuerId, change.serial, change.certificateId, change.revokedAt, change.reason, change.source,
          0, change.needsReview, 0)
  }

  function ResolveChange(rows: Rows, change: Change): Result<Option<Pending>> {
    if change.serial.hex in rows then
      var existing := rows[change.serial.hex];
      var merged :- existing.Merge(FactsOf(change, ""));
      Ok(if merged.1 then Some(Pending(merged.0, existing.version, false)) else None)
    else if !IsUuid(change.freshId) then Err(InvalidValue)
    else
      var created :- NewRevocation(FactsOf(change, change.freshId));
      Ok(Some(Pending(created, 0, true)))
  }

  function ResolveAll(rows: Rows, changes: seq<Change>): Result<seq<Pending>> {
    if changes == [] then Ok([])
    else
      var front :- ResolveAll(rows, changes[..|changes| - 1]);
      var last :- ResolveChange(rows, changes[|changes| - 1]);
      Ok(if last.Some? then front + [last.value] else front)
  }

  /** Stamp one resolved row and insert or save it under its version check. */
  function StoreRow(rows: Rows, item: Pending, generation: int): Result<Rows> {
    var stamped :- item.revocation.StampChangeGeneration(generation);
    var key := stamped.serial.hex;
    if item.isNew then
      if key in rows then Err(Duplicate) else Ok(rows[key := stamped])
    else if key !in rows then Err(NotFound)
    else if rows[key].version != item.expectedVersion then Err(VersionConflict)
    else Ok(rows[key := stamped])
  }

  function StoreAll(rows: Rows, pending: seq<Pending>, generation: int): Result<Rows> {
    if pending == [] then Ok(rows)
    else
      var front :- StoreAll(rows, pending[..|pending| - 1], generation);
      StoreRow(front, pending[|pending| - 1], generation)
  }

  datatype Batch = Batch(state: CRLState, rows: Rows, changed: nat, generation: int)

  /** applyIssuerBatch: nothing is written, and no generation spent, when no assertion changes a row. */
  function ApplyIssuerBatch(state: CRLState, rows: Rows, changes: seq<Change>): Result<Batch> {
    var pending :- ResolveAll(rows, changes);
    if pending == [] then Ok(Batch(state, rows, 0, 0))
    else
      var bumped := state.BumpRevocationGeneration();
      var stored :- StoreAll(rows, pending, bumped.revocationGeneration);
      Ok(Batch(bumped, stored, |pending|, bumped.revocationGeneration))
  }

  /** `list` is what ListByIssuer may return for `rows`: every row once, in numeric order. */
  ghost predicate IsListing(list: seq<Revocation>, rows: Rows) {
    && SortedBy(SerialLe, list)
    && DistinctSerials(list)
    && (forall row | row in list :: row.serial.hex in rows && rows[row.serial.hex] == row)
    && (forall k | k in rows :: rows[k] in list)
  }

  datatype Reservation = Reservation(snapshot: Snapshot, nextPublishAt: Instant)

  /** The service's inputs that reach the snapshot from elsewhere: clock, settings, issuer certificate validity. */
  datatype ReserveInputs = ReserveInputs(now: Instant, validitySeconds: int, intervalSeconds: int,
      issuerNotBefore: Instant, issuerNotAfter: Instant)

  function ReserveSnapshot(state: CRLState, list: seq<Revocation>, inputs: ReserveInputs): (Reservation, CRLState) {
    var (number, reserved) := state.ReserveNext();
    var thisUpdate := TruncateToSecond(inputs.now);
    var snapshot := Snapshot(
      state.caKeyGenerationId, number, thisUpdate, thisUpdate + inputs.validitySeconds * MICROS_PER_SECOND,
      reserved.revocationGeneration, inputs.issuerNotBefore, inputs.issuerNotAfter, list);
    (Reservation(snapshot, inputs.now + inputs.intervalSeconds * MICROS_PER_SECOND), reserved)
  }

  /** A stored CRL document; `derKey` is the hex SHA-256 of its DER. */
  datatype Document = Document(id: string, caKeyGenerationId: string, derKey: string, coveredGeneration: int,
      crl: SignedCRL)

  function DocumentOf(id: string, derKey: string, snapshot: Snapshot, crl: SignedCRL): Document {
    Document(id, snapshot.caKeyGenerationId, derKey, snapshot.coveredGeneration, crl)
  }

  /** The unique index on the DER digest, as a scan. */
  predicate DerTaken(documents: map<string, Document>, derKey: string) {
    derKey != "" && exists id :: id in documents && documents[id].derKey == derKey
  }

  /** State of the one job row that carries a CA key's publication demand. */
  datatype JobState = NoJob | JobPending | JobRunning | JobSucceeded | JobFailed

  /** UpsertDemand seen from the job's state. */
  function Demand(job: JobState): JobState {
    if job == JobRunning then JobRunning else JobPending
  }

  datatype Publication = Publication(state: CRLState, documents: map<string, Document>, job: JobState, published: bool)

  /** finalizePublish: store the document whatever happens, publish it only if that moves forward. */
  function FinalizePublish(state: CRLState, documents: map<string, Document>, job: JobState, document: Document,
      publishAt: Instant): Result<Publication> {
    if job == NoJob then Err(InvalidValue)
    else if !IsUuid(document.id) then Err(InvalidValue)
    else if document.id in documents || DerTaken(documents, document.derKey) then Err(Duplicate)
    else
      var (after, published) :- Verdict(state, document, publishAt);
      Ok(Publication(after, documents[document.id := document], JobAfter(after, job), published))
  }

  /** The refusals of a publication in their order. */
  lemma RefusalsExactly(state: CRLState, documents: map<string, Document>, job: JobState, d: Document,
      publishAt: Instant)
    ensures
      var r := FinalizePublish(state, documents, job, d, publishAt);
      var refusal := state.CanPublish(d.crl.number, d.coveredGeneration);
      && (job == NoJob || !IsUuid(d.id) ==> r == Err(InvalidValue))
      && (job != NoJob && IsUuid(d.id) ==>
            && (d.id in documents || (d.derKey != "" && exists id ::
                id in documents && documents[id].derKey == d.derKey) <==>
                r == Err(Duplicate))
            && (r == Err(NotPermitted) ==> state.publicationState == Closed)
            && (r == Err(InvalidValue) ==> publishAt == 0 && refusal == None)
            && (r.Err? ==> r.error in {Duplicate, NotPermitted, InvalidValue}))
  {
    hide IsUuid, Value;
  }

  /** A permitted publication moves the state, a superseded one leaves it, a closed key refuses. */
  function Verdict(state: CRLState, document: Document, publishAt: Instant): Result<(CRLState, bool)> {
    var refusal := state.CanPublish(document.crl.number, document.coveredGeneration);
    if refusal == None then
      var marked :- state.MarkPublished(document.id, document.crl.number, document.coveredGeneration, publishAt);
      Ok((marked, true))
    else if refusal.value == Conflict then Ok((state, false))
    else Err(refusal.value)
  }

  /** A running job is finished only when the published list covers every known change. */
  function JobAfter(state: CRLState, job: JobState): JobState {
    if job != JobRunning then job
    else if state.revocationGeneration > state.publishedGeneration then JobPending
    else JobSucceeded
  }

  // ---- what the batch does ----

  /** The ledger facts every stored state keeps. */
  ghost predicate LedgerOk(issuer: string, rows: Rows, generation: int) {
    forall k | k in rows ::
      && rows[k].serial.hex == k && rows[k].issuerId == issuer && rows[k].WellFormed()
      && 1 <= rows[k].changeGeneration <= generation
  }

  /** A resolved item as the ledger produced it. */
  ghost predicate ResolvedFrom(rows: Rows, issuer: string, item: Pending) {
    var row := item.revocation;
    && row.issuerId == issuer && row.WellFormed()
    && (item.isNew <==> row.serial.hex !in rows)
    && (item.isNew ==> row.changeGeneration == 0)
    && (!item.isNew ==>
          var prior := rows[row.serial.hex];
          item.expectedVersion == prior.version && row.changeGeneration == prior.changeGeneration
          && row == prior.(certificateId := row.certificateId, needsReview := row.needsReview,
              version := prior.version + 1))
  }

  lemma ResolveShape(rows: Rows, change: Change, issuer: string, generation: int)
    requires LedgerOk(issuer, rows, generation) && change.issuerId == issuer
    ensures ResolveChange(rows, change).Ok? && ResolveChange(rows, change).value.Some? ==>
              ResolvedFrom(rows, issuer, ResolveChange(rows, change).value.value)
  {
    hide IsUuid;
  }

  lemma {:induction false} ResolveAllShape(rows: Rows, changes: seq<Change>, issuer: string, generation: int)
    requires LedgerOk(issuer, rows, generation)
    requires forall c | c in changes :: c.issuerId == issuer
    requires ResolveAll(rows, changes).Ok?
    ensures
      var pending := ResolveAll(rows, changes).value;
      forall i | 0 <= i < |pending| :: ResolvedFrom(rows, issuer, pending[i])
  {
    hide ResolveChange, ResolvedFrom, LedgerOk;
    if changes != [] {
      var last := changes[|changes| - 1];
      assert last in changes;
      ResolveAllShape(rows, changes[..|changes| - 1], issuer, generation);
      ResolveShape(rows, last, issuer, generation);
    }
  }

  function Key(item: Pending): string { item.revocation.serial.hex }

  ghost function Keys(pending: seq<Pending>): set<string> { set i | 0 <= i < |pending| :: Key(pending[i]) }

  ghost predicate DistinctKeys(pending: seq<Pending>) {
    forall i, j | 0 <= i < j < |pending| :: Key(pending[i]) != Key(pending[j])
  }

  lemma KeysSnoc(front: seq<Pending>, last: Pending)
    ensures Keys(front + [last]) == Keys(front) + {Key(last)}
    ensures DistinctKeys(front + [last]) <==> DistinctKeys(front) && Key(last) !in Keys(front)
  {
    var all := front + [last];
    assert forall i | 0 <= i < |front| :: all[i] == front[i];
    assert all[|front|] == last;
    forall k | k in Keys(front) ensures k in Keys(all) {
      var i :| 0 <= i < |front| && Key(front[i]) == k;
      assert Key(all[i]) == k;
    }
    assert Key(all[|front|]) in Keys(all);
    if DistinctKeys(all) {
      forall i, j | 0 <= i < j < |front| ensures Key(front[i]) != Key(front[j]) { assert Key(all[i]) != Key(all[j]); }
      forall i | 0 <= i < |front| ensures Key(front[i]) != Key(last) { assert Key(all[i]) != Key(all[|front|]); }
    }
  }

  function Stamped(item: Pending, generation: int): Revocation {
    item.revocation.(changeGeneration := generation, version := item.revocation.version + 1)
  }

  /** `after` is `before` with exactly the resolved rows replaced by their stamped form. */
  ghost predicate StoredExactly(before: Rows, after: Rows, pending: seq<Pending>, generation: int) {
    && after.Keys == before.Keys + Keys(pending)
    && (forall i | 0 <= i < |pending| ::
        Key(pending[i]) in after && after[Key(pending[i])] == Stamped(pending[i], generation))
    && (forall k | k in before && k !in Keys(pending) :: k in after && after[k] == before[k])
  }

  lemma StampExact(rows: Rows, issuer: string, item: Pending, generation: int)
    requires LedgerOk(issuer, rows, generation - 1) && generation >= 1 && ResolvedFrom(rows, issuer, item)
    ensures item.revocation.StampChangeGeneration(generation) == Ok(Stamped(item, generation))
  {
  }

  /** A row that no earlier item of the batch wrote is stored. */
  lemma FreshRowStored(rows: Rows, mid: Rows, front: seq<Pending>, last: Pending, issuer: string, generation: int)
    requires StoredExactly(rows, mid, front, generation) && ResolvedFrom(rows, issuer, last)
    requires last.revocation.StampChangeGeneration(generation) == Ok(Stamped(last, generation))
    requires Key(last) !in Keys(front)
    ensures StoreRow(mid, last, generation) == Ok(mid[Key(last) := Stamped(last, generation)])
  {
    hide Revocation.StampChangeGeneration, Revocation.WellFormed;
  }

  /** A row that an earlier item of the batch wrote is refused: it exists already, or its version has moved on. */
  lemma SecondRowRefused(rows: Rows, mid: Rows, front: seq<Pending>, last: Pending, issuer: string, generation: int)
    requires StoredExactly(rows, mid, front, generation) && ResolvedFrom(rows, issuer, last)
    requires last.revocation.StampChangeGeneration(generation) == Ok(Stamped(last, generation))
    requires forall i | 0 <= i < |front| :: ResolvedFrom(rows, issuer, front[i])
    requires Key(last) in Keys(front)
    ensures StoreRow(mid, last, generation).Err?
  {
    hide Revocation.StampChangeGeneration, Revocation.WellFormed;
    var i :| 0 <= i < |front| && Key(front[i]) == Key(last);
    assert ResolvedFrom(rows, issuer, front[i]);
    assert mid[Key(last)].version == front[i].revocation.version + 1;
  }

  lemma StoreRowExact(rows: Rows, mid: Rows, front: seq<Pending>, last: Pending, issuer: string, generation: int)
    requires LedgerOk(issuer, rows, generation - 1) && generation >= 1
    requires StoredExactly(rows, mid, front, generation)
    requires forall i | 0 <= i < |front| :: ResolvedFrom(rows, issuer, front[i])
    requires ResolvedFrom(rows, issuer, last)
    ensures StoreRow(mid, last, generation).Ok? <==> Key(last) !in Keys(front)
    ensures Key(last) !in Keys(front) ==>
              StoreRow(mid, last, generation) == Ok(mid[Key(last) := Stamped(last, generation)])
  {
    hide *;
    StampExact(rows, issuer, last, generation);
    if Key(last) in Keys(front) {
      SecondRowRefused(rows, mid, front, last, issuer, generation);
    } else {
      FreshRowStored(rows, mid, front, last, issuer, generation);
    }
  }

  lemma NewRowsHeld(mid: Rows, front: seq<Pending>, last: Pending, generation: int)
    requires forall i | 0 <= i < |front| :: Key(front[i]) in mid && mid[Key(front[i])] == Stamped(front[i], generation)
    requires Key(last) !in Keys(front)
    ensures var all, after := front + [last], mid[Key(last) := Stamped(last, generation)];
            forall i | 0 <= i < |all| :: Key(all[i]) in after && after[Key(all[i])] == Stamped(all[i], generation)
  {
    hide Stamped;
    var all, after := front + [last], mid[Key(last) := Stamped(last, generation)];
    forall i | 0 <= i < |all| ensures Key(all[i]) in after && after[Key(all[i])] == Stamped(all[i], generation) {
      if i < |front| { assert all[i] == front[i] && Key(front[i]) in Keys(front); }
    }
  }

  lemma StoredSnoc(rows: Rows, mid: Rows, front: seq<Pending>, last: Pending, generation: int)
    requires StoredExactly(rows, mid, front, generation)
    requires Key(last) !in Keys(front)
    ensures StoredExactly(rows, mid[Key(last) := Stamped(last, generation)], front + [last], generation)
  {
    hide Stamped, Keys;
    KeysSnoc(front, last);
    NewRowsHeld(mid, front, last, generation);
  }

  /** Resolved rows are stored all or not at all: the batch commits exactly when no serial was resolved twice. */
  lemma {:induction false} StoreAllExact(rows: Rows, pending: seq<Pending>, issuer: string, generation: int)
    requires LedgerOk(issuer, rows, generation - 1) && generation >= 1
    requires forall i | 0 <= i < |pending| :: ResolvedFrom(rows, issuer, pending[i])
    ensures StoreAll(rows, pending, generation).Ok? <==> DistinctKeys(pending)
    ensures DistinctKeys(pending) ==>
              StoredExactly(rows, StoreAll(rows, pending, generation).value, pending, generation)
  {
    if pending != [] {
      var front, last := pending[..|pending| - 1], pending[|pending| - 1];
      assert pending == front + [last];
      StoreAllExact(rows, front, issuer, generation);
      KeysSnoc(front, last);
      if DistinctKeys(front) {
        var mid := StoreAll(rows, front, generation).value;
        StoreRowExact(rows, mid, front, last, issuer, generation);
        if Key(last) !in Keys(front) { StoredSnoc(rows, mid, front, last, generation); }
      }
    }
  }

  /** The batch keeps the ledger facts and only touches rows it stamps with the new generation. */
  lemma BatchEffect(state: CRLState, rows: Rows, changes: seq<Change>, issuer: string)
    requires LedgerOk(issuer, rows, state.revocationGeneration) && state.revocationGeneration >= 0
    requires forall c | c in changes :: c.issuerId == issuer
    requires ApplyIssuerBatch(state, rows, changes).Ok?
    ensures
      var batch := ApplyIssuerBatch(state, rows, changes).value;
      && LedgerOk(issuer, batch.rows, batch.state.revocationGeneration)
      && (forall k | k in rows :: k in batch.rows)
      && (batch.changed == 0 ==> batch.rows == rows && batch.state == state)
      && (batch.changed > 0 ==>
            && batch.state == state.BumpRevocationGeneration()
            && batch.generation == state.revocationGeneration + 1
            && (forall k | k in batch.rows ::
                  (k in rows && batch.rows[k] == rows[k]) || batch.rows[k].changeGeneration == batch.generation))
  {
    hide ResolveAll, StoreAll, LedgerOk, ResolvedFrom;
    var pending := ResolveAll(rows, changes).value;
    if pending != [] {
      ResolveAllShape(rows, changes, issuer, state.revocationGeneration);
      LedgerLast(issuer, rows, state.revocationGeneration);
      StoreAllExact(rows, pending, issuer, state.revocationGeneration + 1);
      StoredKeepsLedger(rows, StoreAll(rows, pending, state.revocationGeneration + 1).value, pending, issuer,
          state.revocationGeneration + 1);
    }
  }

  lemma LedgerLast(issuer: string, rows: Rows, generation: int)
    requires LedgerOk(issuer, rows, generation)
    ensures LedgerOk(issuer, rows, generation + 1 - 1)
    ensures forall k | k in rows :: rows[k].serial.hex == k
  {
  }

  lemma StoredKeepsLedger(rows: Rows, stored: Rows, pending: seq<Pending>, issuer: string, generation: int)
    requires LedgerOk(issuer, rows, generation - 1) && generation >= 1
    requires forall i | 0 <= i < |pending| :: ResolvedFrom(rows, issuer, pending[i])
    requires StoredExactly(rows, stored, pending, generation)
    ensures LedgerOk(issuer, stored, generation)
    ensures forall k | k in rows :: k in stored
    ensures forall k | k in stored :: (k in rows && stored[k] == rows[k]) || stored[k].changeGeneration == generation
  {
    forall k | k in stored
      ensures stored[k].serial.hex == k && stored[k].issuerId == issuer && stored[k].WellFormed()
      ensures (k in rows && stored[k] == rows[k]) || stored[k].changeGeneration == generation
    {
      if k in Keys(pending) {
        var i :| 0 <= i < |pending| && Key(pending[i]) == k;
        assert ResolvedFrom(rows, issuer, pending[i]);
      }
    }
  }

  ghost predicate ChangedOnce(rows: Rows, changes: seq<Change>) {
    forall i, j | 0 <= i < j < |changes| && changes[i].serial == changes[j].serial ::
      ResolveChange(rows, changes[i]) == Ok(None) || ResolveChange(rows, changes[j]) == Ok(None)
  }

  /** A batch fails exactly when an assertion is refused or one serial is changed twice by it. */
  lemma BatchSucceedsExactly(state: CRLState, rows: Rows, changes: seq<Change>, issuer: string)
    requires LedgerOk(issuer, rows, state.revocationGeneration) && state.revocationGeneration >= 0
    requires forall c | c in changes :: c.issuerId == issuer
    ensures ApplyIssuerBatch(state, rows, changes).Ok? <==>
              (forall i | 0 <= i < |changes| :: ResolveChange(rows, changes[i]).Ok?) && ChangedOnce(rows, changes)
  {
    hide ResolveAll, ResolveChange, StoreAll, LedgerOk, ResolvedFrom, ChangedOnce;
    ResolveAllOk(rows, changes);
    LedgerLast(issuer, rows, state.revocationGeneration);
    if ResolveAll(rows, changes).Ok? {
      var pending := ResolveAll(rows, changes).value;
      ResolveAllShape(rows, changes, issuer, state.revocationGeneration);
      StoreAllExact(rows, pending, issuer, state.revocationGeneration + 1);
      DistinctResolved(rows, changes);
    }
  }

  const SOME_UUID := "00000000-0000-4000-8000-000000000001"

  lemma SomeUuid()
    ensures IsUuid(SOME_UUID)
  {
  }

  lemma NewSerialAccepted(change: Change)
    requires IsUuid(change.issuerId) && IsUuid(change.freshId)
    requires !change.serial.IsZero() && change.revokedAt != 0 && change.reason.Valid() && change.source.Valid()
    ensures ResolveChange(map[], change).Ok? && ResolveChange(map[], change).value.Some?
  {
    hide IsUuid;
  }

  /** A new serial that is accepted once is refused when the same batch asserts it twice. */
  lemma TwiceInBatchExample(state: CRLState)
    requires state.revocationGeneration >= 0
    ensures
      var c := Change(SOME_UUID, SerialNumber("1"), "", 1, KeyCompromise, Manual, false, SOME_UUID);
      && ApplyIssuerBatch(state, map[], [c]).Ok?
      && ApplyIssuerBatch(state, map[], [c, c]).Err?
  {
    var c := Change(SOME_UUID, SerialNumber("1"), "", 1, KeyCompromise, Manual, false, SOME_UUID);
    hide IsUuid, ResolveChange, ApplyIssuerBatch;
    SomeUuid();
    NewSerialAccepted(c);
    BatchSucceedsExactly(state, map[], [c], SOME_UUID);
    BatchSucceedsExactly(state, map[], [c, c], SOME_UUID);
    assert [c, c][0].serial == [c, c][1].serial;
  }

  lemma {:induction false} ResolveAllOk(rows: Rows, changes: seq<Change>)
    ensures ResolveAll(rows, changes).Ok? <==> forall i | 0 <= i < |changes| :: ResolveChange(rows, changes[i]).Ok?
  {
    if changes != [] {
      var front := changes[..|changes| - 1];
      ResolveAllOk(rows, front);
      assert forall i | 0 <= i < |front| :: front[i] == changes[i];
    }
  }

  /** The serials a batch changes, by index of the assertion that changes them. */
  ghost predicate Changes(rows: Rows, changes: seq<Change>, key: string) {
    exists i :: 0 <= i < |changes| && changes[i].serial.hex == key && ResolveChange(rows, changes[i]) != Ok(None)
  }

  lemma ChangesSnoc(rows: Rows, front: seq<Change>, last: Change)
    ensures forall key :: Changes(rows, front + [last], key) <==>
                          Changes(rows, front, key) || (last.serial.hex == key && ResolveChange(rows, last) != Ok(None))
    ensures ChangedOnce(rows, front + [last]) <==>
              ChangedOnce(rows, front) && (ResolveChange(rows, last) == Ok(None) ||
                  !Changes(rows, front, last.serial.hex))
  {
    var all := front + [last];
    assert all[|front|] == last && forall i | 0 <= i < |front| :: all[i] == front[i];
    forall key ensures Changes(rows, all, key) <==>
                       Changes(rows, front, key) || (last.serial.hex == key && ResolveChange(rows, last) != Ok(None)) {
      if Changes(rows, front, key) {
        var i :| 0 <= i < |front| && front[i].serial.hex == key && ResolveChange(rows, front[i]) != Ok(None);
        assert all[i] == front[i];
      }
    }
    if ChangedOnce(rows, all) {
      forall i, j | 0 <= i < j < |front| && front[i].serial == front[j].serial
        ensures ResolveChange(rows, front[i]) == Ok(None) || ResolveChange(rows, front[j]) == Ok(None) {
        assert all[i].serial == all[j].serial;
      }
      forall i | 0 <= i < |front| && front[i].serial.hex == last.serial.hex
        ensures ResolveChange(rows, front[i]) == Ok(None) || ResolveChange(rows, last) == Ok(None) {
        assert all[i].serial == all[|front|].serial;
      }
    }
  }

  lemma ResolvedKey(rows: Rows, change: Change)
    requires forall k | k in rows :: rows[k].serial.hex == k
    requires ResolveChange(rows, change).Ok? && ResolveChange(rows, change).value.Some?
    ensures Key(ResolveChange(rows, change).value.value) == change.serial.hex
  {
  }

  lemma DistinctNone(rows: Rows, changes: seq<Change>)
    requires changes == []
    ensures DistinctKeys([]) && ChangedOnce(rows, changes)
    ensures forall key :: key !in Keys([]) && !Changes(rows, changes, key)
  {
  }

  lemma {:induction false} DistinctResolved(rows: Rows, changes: seq<Change>)
    requires forall k | k in rows :: rows[k].serial.hex == k
    requires ResolveAll(rows, changes).Ok?
    ensures DistinctKeys(ResolveAll(rows, changes).value) <==> ChangedOnce(rows, changes)
    ensures forall key :: key in Keys(ResolveAll(rows, changes).value) <==> Changes(rows, changes, key)
  {
    hide ResolveChange, ChangedOnce, DistinctKeys, Keys, Changes;
    if changes == [] {
      DistinctNone(rows, changes);
    } else {
      var front, last := changes[..|changes| - 1], changes[|changes| - 1];
      DistinctResolved(rows, front);
      ChangesSnoc(rows, front, last);
      assert changes == front + [last];
      var resolved := ResolveChange(rows, last).value;
      if resolved.Some? {
        ResolvedKey(rows, last);
        KeysSnoc(ResolveAll(rows, front).value, resolved.value);
      }
    }
  }
}
