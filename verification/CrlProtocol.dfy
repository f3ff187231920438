/**
 * Publication of one CA key's revocation list as a protocol of interleaved transactions.
 *
 * A transaction first reads the CRL state row, later the ledger, and later still commits; other transactions may
 * commit in between. Signing happens between the transaction that reserves a number and the one that publishes, so
 * completions arrive in any order or never.
 */
module CrlProtocol {
  import opened Outcomes
  import opened HexNumbers
  import opened Revocations
  import opened CrlSigner
  import opened RevocationService

  /** An open transaction: what it has read so far. */
  datatype Txn = Txn(state: CRLState, rows: Option<Rows>)

  /** Numbers in the order they were reserved or observed on imported lists. */
  datatype Event = Reserved(n: nat) | Imported(n: nat)

  datatype Node = Node(
    issuer: string,
    rows: Rows,
    state: CRLState,
    documents: map<string, Document>,
    job: JobState,
    txns: seq<Txn>,
    reservations: seq<Reservation>,
    history: seq<Event>)

  datatype Action =
    | Begin
    | ReadRows(txn: nat)
    | CommitBatch(txn: nat, changes: seq<Change>)
    | CommitCorrection(txn: nat, serial: string, reason: RevocationReason, revokedAt: Instant, justification: string,
        now: Instant)
    | CommitImportedNumber(txn: nat, number: CRLNumber)
    | CommitReserve(txn: nat, list: seq<Revocation>, inputs: ReserveInputs)
    | CommitPublish(txn: nat, reservation: nat, documentId: string, derKey: string)
    | CommitSigningCertificate(txn: nat, certificateId: string)
    | CommitClose(txn: nat, facts: CRLClosureFacts)
    | RequestPublication
    | ClaimJob

  function Initial(issuer: string): Node {
    Node(issuer, map[], FreshCRLState(issuer), map[], NoJob, [], [], [])
  }

  /** SaveState's version check. */
  predicate Current(n: Node, txn: nat) {
    txn < |n.txns| && n.txns[txn].state.version == n.state.version
  }

  /** One action; a refused or losing transaction leaves the store alone. */
  ghost function Apply(n: Node, a: Action): Node {
    match a
    case Begin => n.(txns := n.txns + [Txn(n.state, None)])
    case ReadRows(i) => if i < |n.txns| then n.(txns := n.txns[i := n.txns[i].(rows := Some(n.rows))]) else n
    case CommitBatch(i, changes) => Batched(n, i, changes)
    case CommitCorrection(i, serial, reason, revokedAt, justification, now) =>
      Corrected(n, i, serial, reason, revokedAt, justification, now)
    case CommitImportedNumber(i, number) => Observed(n, i, number)
    case CommitReserve(i, list, inputs) => ReservedNext(n, i, list, inputs)
    case CommitPublish(i, r, documentId, derKey) => Published(n, i, r, documentId, derKey)
    case CommitSigningCertificate(i, certificateId) =>
      if i >= |n.txns| then n else SavedState(n, i, n.txns[i].state.SetSigningCertificate(certificateId))
    case CommitClose(i, facts) =>
      if i >= |n.txns| then n else SavedState(n, i, n.txns[i].state.Close(facts))
    case RequestPublication => n.(job := Demand(n.job))
    case ClaimJob => if n.job == JobPending || n.job == JobRunning then n.(job := JobRunning) else n
  }

  function SavedState(n: Node, i: nat, next: Result<CRLState>): Node {
    if Current(n, i) && next.Ok? then n.(state := next.value) else n
  }

  function Batched(n: Node, i: nat, changes: seq<Change>): Node {
    if i >= |n.txns| || n.txns[i].rows == None || (exists c :: c in changes && c.issuerId != n.issuer) then n
    else
      var resolved := ResolveAll(n.txns[i].rows.value, changes);
      if resolved.Err? || resolved.value == [] then n
      else
        var bumped := n.txns[i].state.BumpRevocationGeneration();
        var stored := StoreAll(n.rows, resolved.value, bumped.revocationGeneration);
        if stored.Err? || !Current(n, i) then n
        else n.(rows := stored.value, state := bumped, job := Demand(n.job))
  }

  function Corrected(n: Node, i: nat, serial: string, reason: RevocationReason, revokedAt: Instant,
      justification: string, now: Instant): Node {
    if i >= |n.txns| || n.txns[i].rows == None || serial !in n.txns[i].rows.value then n
    else
      var row := n.txns[i].rows.value[serial];
      var corrected := row.Correct(reason, revokedAt, justification, now);
      if corrected.Err? then n
      else
        var bumped := n.txns[i].state.BumpRevocationGeneration();
        var stored := StoreRow(n.rows, Pending(corrected.value, row.version, false), bumped.revocationGeneration);
        if stored.Err? || !Current(n, i) then n
        else n.(rows := stored.value, state := bumped, job := Demand(n.job))
  }

  function Observed(n: Node, i: nat, number: CRLNumber): Node {
    if i >= |n.txns| || number.IsZero() then n
    else
      var (next, changed) := n.txns[i].state.ObserveImportedNumber(number);
      if !changed then n.(history := n.history + [Imported(number.Big())])
      else if !Current(n, i) then n
      else n.(state := next, history := n.history + [Imported(number.Big())])
  }

  ghost function ReservedNext(n: Node, i: nat, list: seq<Revocation>, inputs: ReserveInputs): Node {
    if !Current(n, i) || n.txns[i].rows == None || !IsListing(list, n.txns[i].rows.value) then n
    else
      var (reservation, reserved) := ReserveSnapshot(n.txns[i].state, list, inputs);
      n.(state := reserved,
         reservations := n.reservations + [reservation],
         history := n.history + [Reserved(reservation.snapshot.number.Big())])
  }

  /** The superseded branch saves no state; it relies on the row lock GetStateForUpdate holds until commit. */
  function Published(n: Node, i: nat, r: nat, documentId: string, derKey: string): Node {
    if !Current(n, i) || r >= |n.reservations| then n
    else
      var snapshot := n.reservations[r].snapshot;
      match SignCRL(snapshot)
      case Refused(_) => n
      case Signed(crl) =>
        Finalized(n, i, DocumentOf(documentId, derKey, snapshot, crl), n.reservations[r].nextPublishAt)
  }

  function Finalized(n: Node, i: nat, document: Document, publishAt: Instant): Node
    requires i < |n.txns|
  {
    match FinalizePublish(n.txns[i].state, n.documents, n.job, document, publishAt)
    case Ok(p) => n.(state := p.state, documents := p.documents, job := p.job)
    case Err(_) => n
  }

  ghost function Run(n: Node, actions: seq<Action>): Node {
    if actions == [] then n else Apply(Run(n, actions[..|actions| - 1]), actions[|actions| - 1])
  }

  // ---- the inductive invariant ----

  ghost predicate LedgerInv(n: Node) {
    && n.state.caKeyGenerationId == n.issuer
    && n.state.revocationGeneration >= 0
    && LedgerOk(n.issuer, n.rows, n.state.revocationGeneration)
  }

  /** An open transaction that still holds the current version still holds the current data. */
  ghost predicate TxnInv(n: Node, t: Txn) {
    && t.state.version <= n.state.version
    && t.state.maxReservedNumber.Big() <= n.state.maxReservedNumber.Big()
    && (t.state.version == n.state.version ==> t.state == n.state && (t.rows.Some? ==> t.rows.value == n.rows))
  }

  ghost predicate SnapshotCovers(rows: Rows, s: Snapshot) {
    forall k | k in rows :: rows[k].changeGeneration <= s.coveredGeneration ==> rows[k] in s.revoked
  }

  ghost predicate ReservationInv(n: Node, r: Reservation) {
    var s := r.snapshot;
    && s.caKeyGenerationId == n.issuer
    && !s.number.IsZero() && s.number.Big() <= n.state.maxReservedNumber.Big()
    && Reserved(s.number.Big()) in n.history
    && 0 <= s.coveredGeneration <= n.state.revocationGeneration
    && ListsSnapshot(s)
    && SnapshotCovers(n.rows, s)
    && (forall row | row in s.revoked :: row.serial.hex in n.rows)
  }

  ghost predicate ReservationsOrdered(reservations: seq<Reservation>) {
    forall i, j | 0 <= i < j < |reservations| ::
      && reservations[i].snapshot.number.Big() < reservations[j].snapshot.number.Big()
      && reservations[i].snapshot.coveredGeneration <= reservations[j].snapshot.coveredGeneration
  }

  /** The list starts before it ends, both on whole seconds, and starts while the issuer certificate is valid. */
  ghost predicate TimesSound(crl: SignedCRL, s: Snapshot) {
    && crl.thisUpdate < crl.nextUpdate
    && crl.thisUpdate % 1_000_000 == 0 && crl.nextUpdate % 1_000_000 == 0
    && s.issuerNotBefore <= crl.thisUpdate < s.issuerNotAfter
  }

  /** `d` lists exactly the reservation's snapshot, under its key, number, generation and times. */
  ghost predicate SignedFrom(d: Document, r: Reservation) {
    && d.caKeyGenerationId == r.snapshot.caKeyGenerationId
    && d.crl.number == r.snapshot.number
    && d.crl.thisUpdate == r.snapshot.thisUpdate && d.crl.nextUpdate == r.snapshot.nextUpdate
    && TimesSound(d.crl, r.snapshot)
    && d.coveredGeneration == r.snapshot.coveredGeneration
    && StrictlyIncreasing(d.crl.entries)
    && ListsExactly(d.crl.entries, r.snapshot.revoked)
  }

  ghost predicate DocumentInv(n: Node, id: string)
    requires id in n.documents
  {
    && n.documents[id].id == id
    && exists i :: 0 <= i < |n.reservations| && SignedFrom(n.documents[id], n.reservations[i])
  }

  ghost predicate PublishedInv(n: Node) {
    if n.state.publishedDocumentId == "" then
      n.state.publishedNumber.IsZero() && n.state.publishedGeneration == 0
    else
      && n.state.publishedDocumentId in n.documents
      && n.documents[n.state.publishedDocumentId].crl.number == n.state.publishedNumber
      && n.documents[n.state.publishedDocumentId].coveredGeneration == n.state.publishedGeneration
  }

  /** The next publication is due when the reservation of the published document said. */
  ghost predicate PublishedFrom(n: Node) {
    n.state.publishedDocumentId != "" ==>
      n.state.publishedDocumentId in n.documents &&
      exists i :: 0 <= i < |n.reservations| && SignedFrom(n.documents[n.state.publishedDocumentId], n.reservations[i])
                  && n.state.nextPublishAt == n.reservations[i].nextPublishAt
  }

  ghost predicate HistoryInv(n: Node) {
    && (forall i | 0 <= i < |n.history| :: n.history[i].n <= n.state.maxReservedNumber.Big())
    && ReservedAboveAll(n.history)
  }

  /** A reserved number exceeds every number reserved or imported before it. */
  ghost predicate ReservedAboveAll(history: seq<Event>) {
    forall i, j | 0 <= i < j < |history| && history[j].Reserved? :: history[i].n < history[j].n
  }

  ghost predicate JobInv(n: Node) {
    && n.job != JobFailed
    && (n.state.revocationGeneration > n.state.publishedGeneration ==> n.job == JobPending || n.job == JobRunning)
  }

  ghost predicate TxnsInv(n: Node) {
    forall i | 0 <= i < |n.txns| :: TxnInv(n, n.txns[i])
  }

  ghost predicate ReservationsInv(n: Node) {
    forall i | 0 <= i < |n.reservations| :: ReservationInv(n, n.reservations[i])
  }

  ghost predicate DocumentsInv(n: Node) {
    forall id | id in n.documents :: DocumentInv(n, id)
  }

  ghost predicate Inv(n: Node) {
    && LedgerInv(n)
    && TxnsInv(n)
    && ReservationsInv(n)
    && ReservationsOrdered(n.reservations)
    && DocumentsInv(n)
    && PublishedInv(n)
    && PublishedFrom(n)
    && HistoryInv(n)
    && JobInv(n)
  }

  /** How rows may change while the generation moves to `generation`. */
  ghost predicate RowsAdvance(before: Rows, after: Rows, generation: int) {
    && before.Keys <= after.Keys
    && forall k | k in after :: (k in before && after[k] == before[k]) || after[k].changeGeneration == generation
  }

  /** A captured snapshot keeps covering what it claims: changed rows carry a generation above every claim. */
  lemma CoverageSurvives(n: Node, rows: Rows, i: nat)
    requires Inv(n) && i < |n.reservations|
    requires RowsAdvance(n.rows, rows, n.state.revocationGeneration + 1)
    ensures SnapshotCovers(rows, n.reservations[i].snapshot)
    ensures forall row | row in n.reservations[i].snapshot.revoked :: row.serial.hex in rows
  {
    assert ReservationInv(n, n.reservations[i]);
  }

  /** Any commit that replaces rows under a bumped generation keeps the invariant. */
  lemma LedgerCommitKeeps(n: Node, rows: Rows, n': Node)
    requires Inv(n)
    requires n' == n.(rows := rows, state := n.state.BumpRevocationGeneration(), job := Demand(n.job))
    requires LedgerOk(n.issuer, rows, n.state.revocationGeneration + 1)
    requires RowsAdvance(n.rows, rows, n.state.revocationGeneration + 1)
    ensures Inv(n')
  {
    TxnsKeep(n, n');
    forall i | 0 <= i < |n'.reservations| ensures ReservationInv(n', n'.reservations[i]) {
      assert ReservationInv(n, n.reservations[i]);
      CoverageSurvives(n, rows, i);
    }
    DocumentsKeep(n, n');
    PublishedKeep(n, n');
  }

  lemma DocumentReservation(n: Node, n': Node, id: string)
    requires id in n.documents && DocumentInv(n, id)
    requires id in n'.documents && n'.documents[id] == n.documents[id]
    requires n.reservations <= n'.reservations
    ensures DocumentInv(n', id)
  {
    var i :| 0 <= i < |n.reservations| && SignedFrom(n.documents[id], n.reservations[i]);
    assert n'.reservations[i] == n.reservations[i];
  }

  /** Transactions stay consistent when the ledger and state are untouched or the version moved past them all. */
  lemma TxnsKeep(n: Node, n': Node)
    requires TxnsInv(n) && n'.txns == n.txns
    requires n'.state.maxReservedNumber.Big() >= n.state.maxReservedNumber.Big()
    requires n'.state.version > n.state.version || (n'.state == n.state && n'.rows == n.rows)
    ensures TxnsInv(n')
  {
    forall i | 0 <= i < |n'.txns| ensures TxnInv(n', n'.txns[i]) { assert TxnInv(n, n.txns[i]); }
  }

  lemma ReservationsKeep(n: Node, n': Node)
    requires ReservationsInv(n) && n'.reservations == n.reservations && n'.issuer == n.issuer && n'.rows == n.rows
    requires n'.state.maxReservedNumber.Big() >= n.state.maxReservedNumber.Big()
    requires n'.state.revocationGeneration >= n.state.revocationGeneration
    requires n.history <= n'.history
    ensures ReservationsInv(n')
  {
    forall i | 0 <= i < |n'.reservations| ensures ReservationInv(n', n'.reservations[i]) {
      assert ReservationInv(n, n.reservations[i]);
    }
  }

  lemma PublishedKeep(n: Node, n': Node)
    requires PublishedFrom(n) && n.reservations <= n'.reservations
    requires n'.state.publishedDocumentId == n.state.publishedDocumentId
    requires n'.state.nextPublishAt == n.state.nextPublishAt
    requires forall id | id in n.documents :: id in n'.documents && n'.documents[id] == n.documents[id]
    ensures PublishedFrom(n')
  {
    hide SignedFrom;
    if n.state.publishedDocumentId != "" {
      var i :| 0 <= i < |n.reservations| && SignedFrom(n.documents[n.state.publishedDocumentId], n.reservations[i])
               && n.state.nextPublishAt == n.reservations[i].nextPublishAt;
      assert n'.reservations[i] == n.reservations[i];
    }
  }

  lemma DocumentsKeep(n: Node, n': Node)
    requires DocumentsInv(n)
    requires n'.documents == n.documents && n.reservations <= n'.reservations
    ensures DocumentsInv(n')
  {
    forall id | id in n'.documents ensures DocumentInv(n', id) {
      assert DocumentInv(n, id);
      DocumentReservation(n, n', id);
    }
  }

  lemma BatchKeeps(n: Node, i: nat, changes: seq<Change>)
    requires Inv(n)
    ensures Inv(Batched(n, i, changes))
  {
    var n' := Batched(n, i, changes);
    if n' != n {
      assert TxnInv(n, n.txns[i]);
      assert n.txns[i].state == n.state && n.txns[i].rows.value == n.rows;
      BatchEffect(n.state, n.rows, changes, n.issuer);
      LedgerCommitKeeps(n, n'.rows, n');
    }
  }

  /** A committed batch is exactly the atomic batch on the current state: stale reads never get this far. */
  lemma BatchIsAtomic(n: Node, i: nat, changes: seq<Change>)
    requires Inv(n) && Batched(n, i, changes) != n
    ensures
      var batch := ApplyIssuerBatch(n.state, n.rows, changes);
      && batch.Ok? && batch.value.changed > 0
      && Batched(n, i, changes) == n.(rows := batch.value.rows, state := batch.value.state, job := Demand(n.job))
  {
    assert TxnInv(n, n.txns[i]);
    assert n.txns[i].state == n.state && n.txns[i].rows.value == n.rows;
  }

  lemma CorrectedRow(issuer: string, rows: Rows, generation: int, row: Revocation, corrected: Revocation)
    requires LedgerOk(issuer, rows, generation) && generation >= 0
    requires row.serial.hex in rows && rows[row.serial.hex] == row && corrected.WellFormed()
    requires corrected.serial == row.serial && corrected.issuerId == row.issuerId &&
               corrected.changeGeneration == row.changeGeneration
    ensures var stored := StoreRow(rows, Pending(corrected, row.version, false), generation + 1);
            && stored.Ok? && LedgerOk(issuer, stored.value, generation + 1)
            && RowsAdvance(rows, stored.value, generation + 1) && rows.Keys <= stored.value.Keys
  {
    var stamped := corrected.StampChangeGeneration(generation + 1);
    assert stamped.Ok?;
  }

  lemma CorrectKeeps(row: Revocation, reason: RevocationReason, revokedAt: Instant, justification: string, now: Instant)
    requires row.WellFormed() && row.Correct(reason, revokedAt, justification, now).Ok?
    ensures var corrected := row.Correct(reason, revokedAt, justification, now).value;
            && corrected.WellFormed() && corrected.serial == row.serial && corrected.issuerId == row.issuerId
            && corrected.changeGeneration == row.changeGeneration
  {
  }

  /** A correction that commits replaced one current row under the next generation. */
  lemma CorrectionShape(
    n: Node, i: nat, serial: string, reason: RevocationReason, revokedAt: Instant, justification: string, now: Instant)
    requires Inv(n)
    ensures var n' := Corrected(n, i, serial, reason, revokedAt, justification, now);
            n' != n ==>
              && n' == n.(rows := n'.rows, state := n.state.BumpRevocationGeneration(), job := Demand(n.job))
              && LedgerOk(n.issuer, n'.rows, n.state.revocationGeneration + 1)
              && RowsAdvance(n.rows, n'.rows, n.state.revocationGeneration + 1) && n.rows.Keys <= n'.rows.Keys
  {
    InvLedger(n);
    hide Inv, StoreRow, RowsAdvance, Revocation.Correct, Revocation.WellFormed;
    if Corrected(n, i, serial, reason, revokedAt, justification, now) != n {
      CurrentIsFresh(n, i);
      var row := n.rows[serial];
      CorrectKeeps(row, reason, revokedAt, justification, now);
      CorrectedRow(n.issuer, n.rows, n.state.revocationGeneration, row,
          row.Correct(reason, revokedAt, justification, now).value);
    }
  }

  lemma InvLedger(n: Node)
    requires Inv(n)
    ensures LedgerInv(n)
  {
  }

  lemma CorrectionKeeps(
    n: Node, i: nat, serial: string, reason: RevocationReason, revokedAt: Instant, justification: string, now: Instant)
    requires Inv(n)
    ensures Inv(Corrected(n, i, serial, reason, revokedAt, justification, now))
  {
    hide *;
    CorrectionShape(n, i, serial, reason, revokedAt, justification, now);
    var n' := Corrected(n, i, serial, reason, revokedAt, justification, now);
    if n' != n { LedgerCommitKeeps(n, n'.rows, n'); }
  }

  /** An observed number is recorded, and the floor is raised exactly when it is above the floor. */
  lemma ImportShape(n: Node, i: nat, number: CRLNumber)
    requires Inv(n)
    ensures var n' := Observed(n, i, number);
            n' != n ==>
              && n' == n.(state := n'.state, history := n.history + [Imported(number.Big())])
              && (number.Big() <= n.state.maxReservedNumber.Big() ==> n'.state == n.state)
              && (number.Big() > n.state.maxReservedNumber.Big() ==>
                    n'.state == n.state.(maxReservedNumber := number, version := n.state.version + 1))
  {
    if i < |n.txns| { FloorRead(n, i); }
    hide Inv, Value;
  }

  lemma FloorRead(n: Node, i: nat)
    requires Inv(n) && i < |n.txns|
    ensures n.txns[i].state.maxReservedNumber.Big() <= n.state.maxReservedNumber.Big()
    ensures Current(n, i) ==> n.txns[i].state == n.state
  {
    assert TxnInv(n, n.txns[i]);
  }

  lemma HistoryMore(n: Node, e: Event, floor: CRLNumber)
    requires HistoryInv(n) && n.state.maxReservedNumber.Big() <= floor.Big()
    requires e.n <= floor.Big() && (e.Reserved? ==> n.state.maxReservedNumber.Big() < e.n)
    ensures ReservedAboveAll(n.history + [e]) && forall i | 0 <= i < |n.history + [e]| ::
              (n.history + [e])[i].n <= floor.Big()
  {
    hide Value;
  }

  lemma InvHistory(n: Node)
    requires Inv(n)
    ensures HistoryInv(n)
  {
  }

  lemma HistoryOf(n: Node)
    requires ReservedAboveAll(n.history)
    requires forall i | 0 <= i < |n.history| :: n.history[i].n <= n.state.maxReservedNumber.Big()
    ensures HistoryInv(n)
  {
  }

  lemma ImportKeeps(n: Node, i: nat, number: CRLNumber)
    requires Inv(n)
    ensures Inv(Observed(n, i, number))
  {
    hide *;
    ImportShape(n, i, number);
    var n' := Observed(n, i, number);
    if n' != n {
      InvHistory(n);
      HistoryMore(n, Imported(number.Big()), n'.state.maxReservedNumber);
      HistoryOf(n');
      StateOnlyKeeps(n, n');
    }
  }

  /** A commit that leaves ledger, documents and reservations alone and moves the number floor and version up. */
  lemma StateOnlyKeeps(n: Node, n': Node)
    requires Inv(n)
    requires n' == n.(state := n'.state, history := n'.history)
    requires n'.state == n.state.(
                           maxReservedNumber := n'.state.maxReservedNumber,
                           publicationState := n'.state.publicationState,
                           signingCACertificateId := n'.state.signingCACertificateId,
                           version := n'.state.version)
    requires n'.state.maxReservedNumber.Big() >= n.state.maxReservedNumber.Big()
    requires n'.state == n.state || n'.state.version > n.state.version
    requires n.history <= n'.history && HistoryInv(n')
    ensures Inv(n')
  {
    TxnsKeep(n, n');
    ReservationsKeep(n, n');
    DocumentsKeep(n, n');
    PublishedKeep(n, n');
  }

  ghost predicate After(reservations: seq<Reservation>, r: Reservation) {
    forall i | 0 <= i < |reservations| ::
      && reservations[i].snapshot.number.Big() < r.snapshot.number.Big()
      && reservations[i].snapshot.coveredGeneration <= r.snapshot.coveredGeneration
  }

  lemma OrderedSnoc(reservations: seq<Reservation>, r: Reservation)
    requires ReservationsOrdered(reservations) && After(reservations, r)
    ensures ReservationsOrdered(reservations + [r])
  {
  }

  lemma AddReservationKeeps(n: Node, r: Reservation)
    requires Inv(n) && ReservationInv(n, r) && After(n.reservations, r)
    ensures Inv(n.(reservations := n.reservations + [r]))
  {
    var n' := n.(reservations := n.reservations + [r]);
    forall i | 0 <= i < |n'.reservations| ensures ReservationInv(n', n'.reservations[i]) {
      assert i < |n.reservations| ==> ReservationInv(n, n.reservations[i]);
    }
    TxnsKeep(n, n');
    OrderedSnoc(n.reservations, r);
    DocumentsKeep(n, n');
    PublishedKeep(n, n');
  }

  /** A reservation that commits captured the current ledger under the next number. */
  lemma ReserveShape(n: Node, i: nat, list: seq<Revocation>, inputs: ReserveInputs)
    requires Inv(n)
    ensures var n' := ReservedNext(n, i, list, inputs);
            var captured := ReserveSnapshot(n.state, list, inputs).0;
            n' != n ==>
              && IsListing(list, n.rows) && captured.snapshot.revoked == list
              && n' == n.(state := n.state.(
                            maxReservedNumber := captured.snapshot.number,
                            version := n.state.version + 1),
                          reservations := n.reservations + [captured],
                          history := n.history + [Reserved(captured.snapshot.number.Big())])
              && !captured.snapshot.number.IsZero()
              && captured.snapshot.number.Big() == n.state.maxReservedNumber.Big() + 1
              && captured.snapshot.coveredGeneration == n.state.revocationGeneration
              && captured.snapshot.caKeyGenerationId == n.state.caKeyGenerationId
  {
    if i < |n.txns| { CurrentIsFresh(n, i); }
    hide Inv, IsListing, Increment, Value;
  }

  lemma AllBefore(n: Node, r: Reservation)
    requires ReservationsInv(n)
    requires r.snapshot.number.Big() > n.state.maxReservedNumber.Big()
    requires r.snapshot.coveredGeneration == n.state.revocationGeneration
    ensures After(n.reservations, r)
  {
    assert forall j | 0 <= j < |n.reservations| :: ReservationInv(n, n.reservations[j]);
    hide Value, ListsSnapshot, SnapshotCovers;
  }

  lemma CapturedOk(n: Node, list: seq<Revocation>, captured: Reservation)
    requires LedgerInv(n) && IsListing(list, n.rows) && captured.snapshot.revoked == list
    requires captured.snapshot.caKeyGenerationId == n.issuer &&
               captured.snapshot.coveredGeneration == n.state.revocationGeneration
    requires captured.snapshot.number == n.state.maxReservedNumber && !captured.snapshot.number.IsZero()
    requires Reserved(captured.snapshot.number.Big()) in n.history
    ensures ReservationInv(n, captured)
  {
    hide IsListing, LedgerOk, ListsSnapshot, SnapshotCovers, Value;
    HonestSnapshot(n, list, captured.snapshot);
  }

  lemma LedgerParts(n: Node)
    ensures LedgerInv(n) <==> n.state.caKeyGenerationId == n.issuer && n.state.revocationGeneration >= 0
                              && LedgerOk(n.issuer, n.rows, n.state.revocationGeneration)
  {
  }

  lemma InvReservations(n: Node)
    requires Inv(n)
    ensures ReservationsInv(n)
  {
  }

  lemma ReserveKeeps(n: Node, i: nat, list: seq<Revocation>, inputs: ReserveInputs)
    requires Inv(n)
    ensures Inv(ReservedNext(n, i, list, inputs))
  {
    hide *;
    ReserveShape(n, i, list, inputs);
    var n' := ReservedNext(n, i, list, inputs);
    if n' != n {
      var captured := ReserveSnapshot(n.state, list, inputs).0;
      var number := captured.snapshot.number;
      var mid := n.(state := n'.state, history := n'.history);
      InvHistory(n);
      InvReservations(n);
      InvLedger(n);
      HistoryMore(n, Reserved(number.Big()), number);
      HistoryOf(mid);
      StateOnlyKeeps(n, mid);
      LedgerParts(n);
      LedgerParts(mid);
      assert mid.history[|n.history|] == Reserved(number.Big());
      CapturedOk(mid, list, captured);
      AllBefore(n, captured);
      AddReservationKeeps(mid, captured);
    }
  }

  /** A captured listing passes signing's row, generation and duplicate checks and covers the whole ledger. */
  lemma HonestSnapshot(n: Node, list: seq<Revocation>, s: Snapshot)
    requires LedgerInv(n) && IsListing(list, n.rows)
    requires s.caKeyGenerationId == n.issuer && s.revoked == list && s.coveredGeneration == n.state.revocationGeneration
    ensures ListsSnapshot(s) && SnapshotCovers(n.rows, s)
    ensures forall row | row in s.revoked :: row.serial.hex in n.rows
  {
  }

  lemma DocumentsAdd(n: Node, n': Node, r: nat, d: Document)
    requires DocumentsInv(n)
    requires r < |n.reservations| && d.id !in n.documents && SignedFrom(d, n.reservations[r])
    requires n'.documents == n.documents[d.id := d] && n'.reservations == n.reservations
    ensures DocumentsInv(n')
  {
    forall id | id in n'.documents ensures DocumentInv(n', id) {
      if id == d.id {
        assert SignedFrom(n'.documents[id], n'.reservations[r]);
      } else {
        assert DocumentInv(n, id);
        DocumentReservation(n, n', id);
      }
    }
  }

  lemma AddDocumentKeeps(n: Node, r: nat, d: Document)
    requires Inv(n) && r < |n.reservations| && d.id !in n.documents
    requires SignedFrom(d, n.reservations[r])
    ensures Inv(n.(documents := n.documents[d.id := d]))
  {
    hide SignedFrom, DocumentInv, ReservationInv, LedgerOk;
    var n' := n.(documents := n.documents[d.id := d]);
    DocumentsAdd(n, n', r, d);
    PublishedKeep(n, n');
    TxnsKeep(n, n');
    ReservationsKeep(n, n');
  }

  lemma StateFacts(n: Node)
    requires Inv(n)
    ensures PublishedInv(n) && PublishedFrom(n) && JobInv(n)
  {
  }

  lemma PublishStateKeeps(n: Node, state: CRLState, job: JobState)
    requires Inv(n)
    requires state == n.state.(publishedDocumentId := state.publishedDocumentId,
                               publishedNumber := state.publishedNumber,
                               publishedGeneration := state.publishedGeneration, nextPublishAt := state.nextPublishAt,
                               publicationState := state.publicationState, version := state.version)
    requires state == n.state || state.version > n.state.version
    requires PublishedInv(n.(state := state, job := job)) && JobInv(n.(state := state, job := job))
    requires PublishedFrom(n.(state := state, job := job))
    ensures Inv(n.(state := state, job := job))
  {
    var n' := n.(state := state, job := job);
    TxnsKeep(n, n');
    ReservationsKeep(n, n');
    DocumentsKeep(n, n');
  }

  lemma SignedDocument(r: Reservation, documentId: string, derKey: string)
    requires SignCRL(r.snapshot).Signed?
    ensures SignedFrom(DocumentOf(documentId, derKey, r.snapshot, SignCRL(r.snapshot).value), r)
  {
    RevokedEntriesExact(r.snapshot);
  }

  /** An open transaction with the current version has read nothing stale. */
  lemma CurrentIsFresh(n: Node, i: nat)
    requires Inv(n) && i < |n.txns|
    ensures n.txns[i].state.version <= n.state.version
    ensures Current(n, i) ==> n.txns[i].state == n.state && (n.txns[i].rows.Some? ==> n.txns[i].rows.value == n.rows)
  {
    assert TxnInv(n, n.txns[i]);
  }

  /** The two ways a publication can end, spelled out. */
  lemma FinalizeShape(state: CRLState, documents: map<string, Document>, job: JobState, d: Document, publishAt: Instant)
    requires FinalizePublish(state, documents, job, d, publishAt).Ok?
    ensures
      var p := FinalizePublish(state, documents, job, d, publishAt).value;
      && d.id !in documents && d.id != "" && p.documents == documents[d.id := d]
      && p.job == JobAfter(p.state, job) && job != NoJob
      && StateForward(state, p.state)
      && (p.published <==> state.CanPublish(d.crl.number, d.coveredGeneration) == None)
      && (!p.published ==> p.state == state)
      && (p.published ==>
            p.state == state.(publishedDocumentId := d.id, publishedNumber := d.crl.number,
                              publishedGeneration := d.coveredGeneration, nextPublishAt := publishAt,
                                  publicationState := Active, version := state.version + 1))
  {
  }

  /** After a landed publication the state row still describes the stored document, and its job still covers it. */
  lemma PublishedAfter(n: Node, r: nat, d: Document, publishAt: Instant)
    requires PublishedInv(n) && JobInv(n) && PublishedFrom(n)
    requires r < |n.reservations| && SignedFrom(d, n.reservations[r]) && publishAt == n.reservations[r].nextPublishAt
    requires FinalizePublish(n.state, n.documents, n.job, d, publishAt).Ok?
    ensures var p := FinalizePublish(n.state, n.documents, n.job, d, publishAt).value;
            var n' := n.(documents := p.documents, state := p.state, job := p.job);
            PublishedInv(n') && JobInv(n') && PublishedFrom(n')
  {
    hide FinalizePublish, StateForward, CRLState.CanPublish, SignedFrom;
    FinalizeShape(n.state, n.documents, n.job, d, publishAt);
    var p := FinalizePublish(n.state, n.documents, n.job, d, publishAt).value;
    if p.published {
      assert p.documents[p.state.publishedDocumentId] == d;
    } else {
      PublishedKeep(n, n.(documents := p.documents, state := p.state, job := p.job));
    }
  }

  lemma FinalizeKeeps(n: Node, i: nat, r: nat, d: Document, publishAt: Instant)
    requires Inv(n) && Current(n, i) && r < |n.reservations| && SignedFrom(d, n.reservations[r])
    requires publishAt == n.reservations[r].nextPublishAt
    ensures Inv(Finalized(n, i, d, publishAt))
  {
    CurrentIsFresh(n, i);
    StateFacts(n);
    hide Inv, SignedFrom, StateForward, DerTaken, CRLState.CanPublish, PublishedInv, PublishedFrom, JobInv,
        JobAfter, Current;
    if FinalizePublish(n.state, n.documents, n.job, d, publishAt).Ok? {
      FinalizeShape(n.state, n.documents, n.job, d, publishAt);
      PublishedAfter(n, r, d, publishAt);
      var n' := Finalized(n, i, d, publishAt);
      hide FinalizePublish;
      AddDocumentKeeps(n, r, d);
      var mid := n.(documents := n.documents[d.id := d]);
      assert n' == mid.(state := n'.state, job := n'.job);
      PublishStateKeeps(mid, n'.state, n'.job);
    }
  }

  lemma PublishKeeps(n: Node, i: nat, r: nat, documentId: string, derKey: string)
    requires Inv(n)
    ensures Inv(Published(n, i, r, documentId, derKey))
  {
    if Current(n, i) && r < |n.reservations| && SignCRL(n.reservations[r].snapshot).Signed? {
      var s := n.reservations[r].snapshot;
      SignedDocument(n.reservations[r], documentId, derKey);
      FinalizeKeeps(n, i, r, DocumentOf(documentId, derKey, s, SignCRL(s).value), n.reservations[r].nextPublishAt);
    }
  }

  lemma SavedStateKeeps(n: Node, i: nat, next: Result<CRLState>)
    requires Inv(n) && i < |n.txns|
    requires next.Ok? ==>
               var state := n.txns[i].state;
               && next.value == state.(publicationState := next.value.publicationState,
                                       signingCACertificateId := next.value.signingCACertificateId,
                                       version := next.value.version)
               && (next.value == state || next.value.version > state.version)
    ensures Inv(SavedState(n, i, next))
  {
    assert TxnInv(n, n.txns[i]);
    if SavedState(n, i, next) != n { StateOnlyKeeps(n, SavedState(n, i, next)); }
  }

  lemma JobKeeps(n: Node, job: JobState)
    requires Inv(n) && (job == JobPending || job == JobRunning)
    ensures Inv(n.(job := job))
  {
    TxnsKeep(n, n.(job := job));
    SameStoreKeeps(n, n.(job := job));
  }

  /** One more transaction, or one that has now read the rows. */
  lemma TxnsRead(n: Node, txns: seq<Txn>, i: nat)
    requires Inv(n) && i < |txns|
    requires txns == n.txns + [Txn(n.state, None)] ||
               (|txns| == |n.txns| && txns == n.txns[i := n.txns[i].(rows := Some(n.rows))])
    ensures Inv(n.(txns := txns))
  {
    var n' := n.(txns := txns);
    forall k | 0 <= k < |txns| ensures TxnInv(n', txns[k]) {
      if k < |n.txns| { assert TxnInv(n, n.txns[k]); }
    }
    SameStoreKeeps(n, n');
  }

  lemma IdleKeeps(n: Node, a: Action)
    requires Inv(n)
    requires a.Begin? || a.ReadRows? || a.RequestPublication? || a.ClaimJob?
    ensures Inv(Apply(n, a))
  {
    hide Inv;
    match a
    case Begin => TxnsRead(n, n.txns + [Txn(n.state, None)], 0);
    case ReadRows(i) => if i < |n.txns| { TxnsRead(n, n.txns[i := n.txns[i].(rows := Some(n.rows))], i); }
    case RequestPublication => JobKeeps(n, Demand(n.job));
    case ClaimJob => if n.job == JobPending || n.job == JobRunning { JobKeeps(n, JobRunning); }
  }

  lemma ApplyKeeps(n: Node, a: Action)
    requires Inv(n)
    ensures Inv(Apply(n, a))
  {
    hide Inv;
    match a {
      case Begin => IdleKeeps(n, a);
      case ReadRows(i) => IdleKeeps(n, a);
      case CommitBatch(i, changes) => BatchKeeps(n, i, changes);
      case CommitCorrection(i, serial, reason, revokedAt, justification, now) =>
        CorrectionKeeps(n, i, serial, reason, revokedAt, justification, now);
      case CommitImportedNumber(i, number) => ImportKeeps(n, i, number);
      case CommitReserve(i, list, inputs) => ReserveKeeps(n, i, list, inputs);
      case CommitPublish(i, r, documentId, derKey) => PublishKeeps(n, i, r, documentId, derKey);
      case CommitSigningCertificate(i, certificateId) =>
        if i < |n.txns| { SavedStateKeeps(n, i, n.txns[i].state.SetSigningCertificate(certificateId)); }
      case CommitClose(i, facts) =>
        if i < |n.txns| { SavedStateKeeps(n, i, n.txns[i].state.Close(facts)); }
      case RequestPublication => IdleKeeps(n, a);
      case ClaimJob => IdleKeeps(n, a);
    }
  }

  lemma SameStoreKeeps(n: Node, n': Node)
    requires Inv(n)
    requires n' == n.(txns := n'.txns, job := n'.job)
    requires JobInv(n') && TxnsInv(n')
    ensures Inv(n')
  {
    hide TxnInv;
    ReservationsKeep(n, n');
    DocumentsKeep(n, n');
    PublishedKeep(n, n');
  }

  lemma {:induction false} RunKeeps(n: Node, actions: seq<Action>)
    requires Inv(n)
    ensures Inv(Run(n, actions))
  {
    if actions != [] {
      RunKeeps(n, actions[..|actions| - 1]);
      ApplyKeeps(Run(n, actions[..|actions| - 1]), actions[|actions| - 1]);
    }
  }

  // ---- what every run guarantees ----

  lemma Reachable(issuer: string, actions: seq<Action>)
    ensures Inv(Run(Initial(issuer), actions))
  {
    RunKeeps(Initial(issuer), actions);
  }

  /** Every ledger row the document claims to cover is listed with its serial, rounded time and reason. */
  ghost predicate Covers(rows: Rows, d: Document) {
    forall k | k in rows && rows[k].changeGeneration <= d.coveredGeneration ::
      rows[k].reason.Valid() && EntryOf(rows[k]) in d.crl.entries
  }

  /** Nothing is ever un-revoked: every listed serial still has its ledger row. */
  ghost predicate Grounded(rows: Rows, d: Document) {
    forall e | e in d.crl.entries :: exists k :: k in rows && rows[k].serial.Big() == e.serialNumber
  }

  lemma DocumentCovers(n: Node, id: string)
    requires Inv(n) && id in n.documents
    ensures Covers(n.rows, n.documents[id]) && Grounded(n.rows, n.documents[id])
    ensures StrictlyIncreasing(n.documents[id].crl.entries)
    ensures n.documents[id].coveredGeneration <= n.state.revocationGeneration
    ensures n.documents[id].crl.number.Big() <= n.state.maxReservedNumber.Big()
  {
    assert DocumentInv(n, id);
    var i :| 0 <= i < |n.reservations| && SignedFrom(n.documents[id], n.reservations[i]);
    var s := n.reservations[i].snapshot;
    assert ReservationInv(n, n.reservations[i]);
    forall e | e in n.documents[id].crl.entries
      ensures exists k :: k in n.rows && n.rows[k].serial.Big() == e.serialNumber
    {
      var row :| row in s.revoked && row.reason.Valid() && e == EntryOf(row);
      assert n.rows[row.serial.hex].serial.hex == row.serial.hex;
    }
  }

  /**
   * Coverage. After any run, each ledger row changed at or below the published generation is on the published list
   * with its serial, reason code and rounded-up time; the list is strictly ordered, names only revoked serials, and
   * without a publication there is nothing to cover.
   */
  lemma PublishedListCovers(issuer: string, actions: seq<Action>)
    ensures
      var n := Run(Initial(issuer), actions);
      if n.state.publishedDocumentId == "" then
        forall k | k in n.rows :: n.rows[k].changeGeneration > n.state.publishedGeneration
      else
        && n.state.publishedDocumentId in n.documents
        && var d := n.documents[n.state.publishedDocumentId];
        && StrictlyIncreasing(d.crl.entries)
        && Grounded(n.rows, d)
        && forall k | k in n.rows && n.rows[k].changeGeneration <= n.state.publishedGeneration ::
          n.rows[k].reason.Valid() && EntryOf(n.rows[k]) in d.crl.entries
  {
    var n := Run(Initial(issuer), actions);
    Reachable(issuer, actions);
    if n.state.publishedDocumentId != "" { DocumentCovers(n, n.state.publishedDocumentId); }
  }

  /** What one action, and so any number of them, can only move forward. */
  ghost predicate Forward(n: Node, n': Node) {
    && StoreForward(n, n')
    && StateForward(n.state, n'.state)
  }

  ghost predicate StoreForward(n: Node, n': Node) {
    && n'.issuer == n.issuer
    && n.rows.Keys <= n'.rows.Keys
    && n.history <= n'.history && n.reservations <= n'.reservations
    && (forall id | id in n.documents :: id in n'.documents && n'.documents[id] == n.documents[id])
  }

  ghost predicate StateForward(s: CRLState, s': CRLState) {
    && s.version <= s'.version
    && s.maxReservedNumber.Big() <= s'.maxReservedNumber.Big()
    && s.revocationGeneration <= s'.revocationGeneration
    && s.publishedGeneration <= s'.publishedGeneration
    && (SamePublication(s, s') || !s.EverPublished() || s.publishedNumber.Big() < s'.publishedNumber.Big())
    && (s.EverPublished() ==> s'.EverPublished())
    && (s.publicationState == Closed ==> s'.publicationState == Closed && SamePublication(s, s'))
  }

  ghost predicate SamePublication(s: CRLState, s': CRLState) {
    && s'.publishedDocumentId == s.publishedDocumentId
    && s'.publishedNumber == s.publishedNumber
    && s'.publishedGeneration == s.publishedGeneration
  }

  lemma BatchForward(n: Node, i: nat, changes: seq<Change>)
    requires Inv(n)
    ensures Forward(n, Batched(n, i, changes))
  {
    var n' := Batched(n, i, changes);
    if n' != n {
      BatchIsAtomic(n, i, changes);
      BatchEffect(n.state, n.rows, changes, n.issuer);
      hide Inv, Batched, ApplyIssuerBatch, LedgerOk;
      LedgerForward(n, n');
    } else {
      ForwardReflexive(n);
    }
  }

  lemma CorrectionForward(
    n: Node, i: nat, serial: string, reason: RevocationReason, revokedAt: Instant, justification: string, now: Instant)
    requires Inv(n)
    ensures Forward(n, Corrected(n, i, serial, reason, revokedAt, justification, now))
  {
    hide *;
    CorrectionShape(n, i, serial, reason, revokedAt, justification, now);
    var n' := Corrected(n, i, serial, reason, revokedAt, justification, now);
    if n' != n { LedgerForward(n, n'); } else { ForwardReflexive(n); }
  }

  lemma LedgerForward(n: Node, n': Node)
    requires n' == n.(rows := n'.rows, state := n.state.BumpRevocationGeneration(), job := n'.job)
    requires n.rows.Keys <= n'.rows.Keys
    ensures Forward(n, n')
  {
    hide Value;
  }

  /** The floor may rise while everything else of the state stays. */
  lemma FloorForward(s: CRLState, number: CRLNumber)
    requires number.Big() >= s.maxReservedNumber.Big()
    ensures StateForward(s, s.(maxReservedNumber := number, version := s.version + 1))
    ensures StateForward(s, s)
  {
    hide Value;
  }

  lemma ReserveForward(n: Node, i: nat, list: seq<Revocation>, inputs: ReserveInputs)
    requires Inv(n)
    ensures Forward(n, ReservedNext(n, i, list, inputs))
  {
    ReserveShape(n, i, list, inputs);
    hide Inv, ReservedNext, ReserveSnapshot, StateForward, IsListing, Value;
    var captured := ReserveSnapshot(n.state, list, inputs).0;
    if ReservedNext(n, i, list, inputs) != n {
      FloorForward(n.state, captured.snapshot.number);
    } else {
      ForwardReflexive(n);
    }
  }

  lemma NumberForward(n: Node, i: nat, number: CRLNumber)
    requires Inv(n)
    ensures Forward(n, Observed(n, i, number))
  {
    ImportShape(n, i, number);
    hide Inv, Observed, StateForward, Value;
    if number.Big() > n.state.maxReservedNumber.Big() { FloorForward(n.state, number); }
    ForwardReflexive(n);
  }

  /** A setting that is saved on the current row leaves the publication alone. */
  lemma SettingForward(s: CRLState, certificateId: string, facts: CRLClosureFacts)
    ensures s.SetSigningCertificate(certificateId).Ok? ==> StateForward(s, s.SetSigningCertificate(certificateId).value)
    ensures s.Close(facts).Ok? ==> StateForward(s, s.Close(facts).value)
  {
    hide IsUuid, Value;
  }

  lemma SavedForward(n: Node, i: nat, next: Result<CRLState>)
    requires i < |n.txns| && (Current(n, i) && next.Ok? ==> StateForward(n.state, next.value))
    ensures Forward(n, SavedState(n, i, next))
  {
    hide StateForward, Current;
    ForwardReflexive(n);
  }

  lemma SettingsForward(n: Node, i: nat, certificateId: string, facts: CRLClosureFacts)
    requires Inv(n) && i < |n.txns|
    ensures Forward(n, SavedState(n, i, n.txns[i].state.SetSigningCertificate(certificateId)))
    ensures Forward(n, SavedState(n, i, n.txns[i].state.Close(facts)))
  {
    hide *;
    CurrentIsFresh(n, i);
    SettingForward(n.state, certificateId, facts);
    SavedForward(n, i, n.txns[i].state.SetSigningCertificate(certificateId));
    SavedForward(n, i, n.txns[i].state.Close(facts));
  }

  lemma IdleForward(n: Node, a: Action)
    requires a.Begin? || a.ReadRows? || a.RequestPublication? || a.ClaimJob?
    ensures Forward(n, Apply(n, a))
  {
    hide StateForward;
    ForwardReflexive(n);
  }

  lemma ForwardStep(n: Node, a: Action)
    requires Inv(n)
    ensures Forward(n, Apply(n, a))
  {
    hide Inv, Forward, Batched, Corrected, Observed, ReservedNext, Published, SavedState;
    ForwardReflexive(n);
    match a {
      case Begin => IdleForward(n, a);
      case ReadRows(_) => IdleForward(n, a);
      case CommitBatch(i, changes) => BatchForward(n, i, changes);
      case CommitCorrection(i, serial, reason, revokedAt, justification, now) =>
        CorrectionForward(n, i, serial, reason, revokedAt, justification, now);
      case CommitImportedNumber(i, number) => NumberForward(n, i, number);
      case CommitReserve(i, list, inputs) => ReserveForward(n, i, list, inputs);
      case CommitPublish(i, r, documentId, derKey) => PublishForward(n, i, r, documentId, derKey);
      case CommitSigningCertificate(i, certificateId) =>
        if i < |n.txns| { SettingsForward(n, i, certificateId, CRLClosureFacts(true, true)); }
      case CommitClose(i, facts) => if i < |n.txns| { SettingsForward(n, i, "", facts); }
      case RequestPublication => IdleForward(n, a);
      case ClaimJob => IdleForward(n, a);
    }
  }

  lemma FinalizedForward(n: Node, i: nat, d: Document, publishAt: Instant)
    requires i < |n.txns| && n.txns[i].state == n.state
    ensures Forward(n, Finalized(n, i, d, publishAt))
  {
    if FinalizePublish(n.state, n.documents, n.job, d, publishAt).Ok? {
      FinalizeShape(n.state, n.documents, n.job, d, publishAt);
      hide FinalizePublish, StateForward;
    }
  }

  lemma PublishForward(n: Node, i: nat, r: nat, documentId: string, derKey: string)
    requires Inv(n)
    ensures Forward(n, Published(n, i, r, documentId, derKey))
  {
    if i < |n.txns| { CurrentIsFresh(n, i); }
    hide Inv, SignCRL, Finalized, Forward;
    ForwardReflexive(n);
    if Current(n, i) && r < |n.reservations| && SignCRL(n.reservations[r].snapshot).Signed? {
      var s := n.reservations[r].snapshot;
      FinalizedForward(n, i, DocumentOf(documentId, derKey, s, SignCRL(s).value), n.reservations[r].nextPublishAt);
    }
  }

  lemma ForwardReflexive(n: Node)
    ensures Forward(n, n)
  {
  }

  lemma ForwardTransitive(a: Node, b: Node, c: Node)
    requires Forward(a, b) && Forward(b, c)
    ensures Forward(a, c)
  {
  }

  lemma {:induction false} ForwardRun(n: Node, actions: seq<Action>)
    requires Inv(n)
    ensures Forward(n, Run(n, actions))
  {
    if actions != [] {
      var before := Run(n, actions[..|actions| - 1]);
      ForwardRun(n, actions[..|actions| - 1]);
      RunKeeps(n, actions[..|actions| - 1]);
      ForwardStep(before, actions[|actions| - 1]);
      ForwardTransitive(n, before, Run(n, actions));
    }
  }

  lemma {:induction false} RunAppend(n: Node, first: seq<Action>, second: seq<Action>)
    ensures Run(n, first + second) == Run(Run(n, first), second)
  {
    if second == [] {
      assert first + second == first;
    } else {
      RunAppend(n, first, second[..|second| - 1]);
      assert (first + second)[..|first + second| - 1] == first + second[..|second| - 1];
    }
  }

  /**
   * Monotonicity. From any point of any run to any later one: a reserved number is above everything reserved or
   * imported before it, a replaced publication carries a strictly larger number and no smaller generation, stored
   * documents never change, and a closed key keeps its publication for ever.
   */
  lemma PublicationNeverRegresses(issuer: string, actions: seq<Action>, later: seq<Action>)
    ensures
      var n := Run(Initial(issuer), actions);
      var n' := Run(Initial(issuer), actions + later);
      Forward(n, n') && ReservedAboveAll(n'.history)
  {
    Reachable(issuer, actions);
    Reachable(issuer, actions + later);
    RunAppend(Initial(issuer), actions, later);
    ForwardRun(Run(Initial(issuer), actions), later);
  }

  /** Two reservations of one run never share a number. */
  lemma ReservedNumbersDistinct(issuer: string, actions: seq<Action>, i: nat, j: nat)
    requires i < j < |Run(Initial(issuer), actions).reservations|
    ensures
      var rs := Run(Initial(issuer), actions).reservations;
      rs[i].snapshot.number.hex != rs[j].snapshot.number.hex &&
          rs[i].snapshot.number.Big() < rs[j].snapshot.number.Big()
  {
    Reachable(issuer, actions);
  }

  /** A published document comes from some reservation. */
  lemma PublishedReservation(n: Node) returns (i: nat)
    requires Inv(n) && n.state.publishedDocumentId != ""
    ensures i < |n.reservations|
    ensures n.reservations[i].snapshot.number == n.state.publishedNumber
    ensures n.reservations[i].snapshot.coveredGeneration == n.state.publishedGeneration
  {
    assert DocumentInv(n, n.state.publishedDocumentId);
    i :| 0 <= i < |n.reservations| && SignedFrom(n.documents[n.state.publishedDocumentId], n.reservations[i]);
  }

  /**
   * In every reachable state only the number order and closure decide a publication; the generation check never does.
   */
  lemma VerdictIsNumberOrder(issuer: string, actions: seq<Action>, r: nat)
    requires r < |Run(Initial(issuer), actions).reservations|
    ensures
      var n := Run(Initial(issuer), actions);
      var s := n.reservations[r].snapshot;
      n.state.CanPublish(s.number, s.coveredGeneration) == (
        if n.state.publicationState == Closed then Some(NotPermitted)
        else if n.state.publishedDocumentId != "" && s.number.Big() <= n.state.publishedNumber.Big() then Some(Conflict)
        else None)
  {
    var n := Run(Initial(issuer), actions);
    Reachable(issuer, actions);
    assert ReservationInv(n, n.reservations[r]);
    if n.state.publishedDocumentId != "" {
      var i := PublishedReservation(n);
      assert i != r ==> i < r || r < i;
    }
  }

  /**
   * An honestly captured snapshot is only ever refused for its times or for what Go's library cannot write, never for a
   * row, a generation or a duplicate.
   */
  lemma HonestSigningExact(issuer: string, actions: seq<Action>, r: nat)
    requires r < |Run(Initial(issuer), actions).reservations|
    ensures
      var s := Run(Initial(issuer), actions).reservations[r].snapshot;
      SignCRL(s).Signed? <==> SnapshotTimesValid(s) && Writable(s)
  {
    var n := Run(Initial(issuer), actions);
    Reachable(issuer, actions);
    assert ReservationInv(n, n.reservations[r]);
    RevokedEntriesExact(n.reservations[r].snapshot);
  }

  /** When the captured times are acceptable, in terms of the clock, the setting and the issuer certificate. */
  lemma CapturedTimesExact(state: CRLState, list: seq<Revocation>, inputs: ReserveInputs)
    requires state.revocationGeneration >= 0
    ensures
      var s := ReserveSnapshot(state, list, inputs).0.snapshot;
      var second := inputs.now / MICROS_PER_SECOND;
      SnapshotTimesValid(s) <==>
        && inputs.validitySeconds > 0 && second != 0 && second + inputs.validitySeconds != 0
        && !(inputs.issuerNotBefore == 0 && inputs.issuerNotAfter == 0)
        && inputs.issuerNotBefore <= second * MICROS_PER_SECOND < inputs.issuerNotAfter
  {
    var s := ReserveSnapshot(state, list, inputs).0.snapshot;
    assert s.thisUpdate == (inputs.now / MICROS_PER_SECOND) * MICROS_PER_SECOND;
    assert s.nextUpdate == (inputs.now / MICROS_PER_SECOND + inputs.validitySeconds) * MICROS_PER_SECOND;
  }

  /** The read check of the SQL store never fires on a reachable state. */
  lemma StoredStateReadable(issuer: string, actions: seq<Action>)
    ensures
      var state := Run(Initial(issuer), actions).state;
      Compare(state.maxReservedNumber.Big(), state.publishedNumber.Big()) >= 0
      && state.publishedGeneration <= state.revocationGeneration
  {
    var n := Run(Initial(issuer), actions);
    Reachable(issuer, actions);
    if n.state.publishedDocumentId != "" { DocumentCovers(n, n.state.publishedDocumentId); }
  }

  /** No demand is lost: while a change is unpublished, the key's one job is waiting or running. */
  lemma UncoveredChangeHasWork(issuer: string, actions: seq<Action>)
    ensures
      var n := Run(Initial(issuer), actions);
      (exists k :: k in n.rows && n.rows[k].changeGeneration > n.state.publishedGeneration) ==>
        n.job == JobPending || n.job == JobRunning
  {
    Reachable(issuer, actions);
  }

  /** A reservation that commits captured the ledger as it is at the commit, not as it was at some earlier read. */
  lemma ReserveCapturesNow(issuer: string, actions: seq<Action>, i: nat, list: seq<Revocation>, inputs: ReserveInputs)
    requires Apply(Run(Initial(issuer), actions), CommitReserve(i, list, inputs)) != Run(Initial(issuer), actions)
    ensures
      var n := Run(Initial(issuer), actions);
      var n' := Apply(n, CommitReserve(i, list, inputs));
      var s := n'.reservations[|n'.reservations| - 1].snapshot;
      && |n'.reservations| == |n.reservations| + 1
      && IsListing(s.revoked, n.rows) && s.coveredGeneration == n.state.revocationGeneration
      && s.number.Big() == n.state.maxReservedNumber.Big() + 1
  {
    hide Run, Inv, IsListing, ReservedNext, ReserveSnapshot, Batched, Corrected, Observed, Published, SavedState, Value;
    Reachable(issuer, actions);
    ReserveShape(Run(Initial(issuer), actions), i, list, inputs);
  }

  /**
   * Once the counter has reached 2^159 - 1, by reservations or by one imported number, no new reservation can be
   * signed.
   */
  lemma LargeNumberStalls(issuer: string, actions: seq<Action>, i: nat, list: seq<Revocation>, inputs: ReserveInputs)
    ensures
      var n := Run(Initial(issuer), actions);
      var n' := Apply(n, CommitReserve(i, list, inputs));
      n' != n && n.state.maxReservedNumber.Big() >= 8 * Pow16(MAX_HEX_LENGTH - 1) - 1 ==>
        && |n'.reservations| == |n.reservations| + 1
        && SignCRL(n'.reservations[|n.reservations|].snapshot).Refused?
  {
    hide Run, IsListing, RevokedEntriesSpec, Pow16, Apply;
    if Apply(Run(Initial(issuer), actions), CommitReserve(i, list, inputs)) != Run(Initial(issuer), actions) {
      ReserveCapturesNow(issuer, actions, i, list, inputs);
    }
  }
}
