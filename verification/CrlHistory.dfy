/**
 * Where the contents of the protocol's state come from: which reservation a document was signed from and at what
 * clock, which assertion or correction a ledger row repeats, and exactly when each commit takes effect.
 */
module CrlHistory {
  import opened Outcomes
  import opened HexNumbers
  import opened Revocations
  import opened CrlSigner
  import opened RevocationService
  import opened BatchFacts
  import opened CrlProtocol

  // ---- times ----

  /** Action `k` made reservation `r`. */
  ghost predicate ReservesAt(issuer: string, actions: seq<Action>, k: nat, r: nat) {
    && k < |actions| && actions[k].CommitReserve?
    && |Run(Initial(issuer), actions[..k]).reservations| == r
    && |Run(Initial(issuer), actions[..k + 1]).reservations| == r + 1
  }

  lemma RunMore(issuer: string, actions: seq<Action>, a: Action)
    ensures Run(Initial(issuer), actions + [a]) == Apply(Run(Initial(issuer), actions), a)
  {
    assert (actions + [a])[..|actions|] == actions;
  }

  lemma OnlyReservesReserve(n: Node, a: Action)
    requires Inv(n)
    ensures !a.CommitReserve? ==> Apply(n, a).reservations == n.reservations
    ensures a.CommitReserve? ==> Apply(n, a).reservations == n.reservations
                                 || Apply(n, a).reservations ==
                                     n.reservations + [ReserveSnapshot(n.state, a.list, a.inputs).0]
  {
    if a.CommitReserve? { ReserveShape(n, a.txn, a.list, a.inputs); }
    hide Inv, ReserveSnapshot, IsListing, ReservedNext;
    if !a.CommitReserve? { StepsReserveNothing(n, a); }
  }

  lemma StepsReserveNothing(n: Node, a: Action)
    requires !a.CommitReserve?
    ensures Apply(n, a).reservations == n.reservations
  {
    hide IsListing, FinalizePublish, SignCRL, ResolveAll, StoreAll, StoreRow, Revocation.Correct, ReservedNext;
    hide CRLState.Close, CRLState.SetSigningCertificate, CRLState.ObserveImportedNumber;
  }

  lemma {:induction false} ReservedAt(issuer: string, actions: seq<Action>, r: nat) returns (k: nat)
    requires r < |Run(Initial(issuer), actions).reservations|
    ensures ReservesAt(issuer, actions, k, r)
  {
    InitialReserves(issuer, actions);
    hide *;
    var m := |actions| - 1;
    var before := actions[..m];
    assert actions == before + [actions[m]];
    Reachable(issuer, before);
    RunMore(issuer, before, actions[m]);
    OnlyReservesReserve(Run(Initial(issuer), before), actions[m]);
    if r < |Run(Initial(issuer), before).reservations| {
      k := ReservedAt(issuer, before, r);
      ReservesBefore(issuer, before, actions[m], k, r);
    } else {
      k := m;
      assert actions[..k + 1] == actions;
      ReservesLast(issuer, actions, r);
    }
  }

  lemma InitialReserves(issuer: string, actions: seq<Action>)
    ensures actions == [] ==> Run(Initial(issuer), actions).reservations == []
  {
  }

  lemma ReservesBefore(issuer: string, before: seq<Action>, a: Action, k: nat, r: nat)
    requires ReservesAt(issuer, before, k, r)
    ensures ReservesAt(issuer, before + [a], k, r)
  {
    hide Run;
    assert (before + [a])[..k] == before[..k] && (before + [a])[..k + 1] == before[..k + 1];
  }

  lemma ReservesLast(issuer: string, actions: seq<Action>, r: nat)
    requires actions != [] && actions[|actions| - 1].CommitReserve?
    requires |Run(Initial(issuer), actions[..|actions| - 1]).reservations| == r
    requires |Run(Initial(issuer), actions).reservations| == r + 1
    ensures ReservesAt(issuer, actions, |actions| - 1, r)
  {
    hide Run;
    assert actions[..|actions|] == actions;
  }

  /** What a reservation has from the clock, the settings and the issuer certificate of the action that made it. */
  ghost predicate CapturedFrom(r: Reservation, inputs: ReserveInputs) {
    var s := r.snapshot;
    && s.thisUpdate % 1_000_000 == 0 && s.thisUpdate <= inputs.now < s.thisUpdate + 1_000_000
    && s.nextUpdate == s.thisUpdate + inputs.validitySeconds * 1_000_000
    && s.issuerNotBefore == inputs.issuerNotBefore && s.issuerNotAfter == inputs.issuerNotAfter
    && r.nextPublishAt == inputs.now + inputs.intervalSeconds * 1_000_000
  }

  lemma SnapshotCaptured(state: CRLState, list: seq<Revocation>, inputs: ReserveInputs)
    ensures CapturedFrom(ReserveSnapshot(state, list, inputs).0, inputs)
  {
  }

  lemma ReservationInputs(issuer: string, actions: seq<Action>, k: nat, r: nat)
    requires ReservesAt(issuer, actions, k, r)
    ensures r < |Run(Initial(issuer), actions).reservations|
    ensures CapturedFrom(Run(Initial(issuer), actions).reservations[r], actions[k].inputs)
  {
    hide Inv, Apply, CapturedFrom, Run;
    var n, n' := Run(Initial(issuer), actions[..k]), Run(Initial(issuer), actions[..k + 1]);
    Reachable(issuer, actions[..k]);
    Reachable(issuer, actions[..k + 1]);
    assert actions[..k + 1] == actions[..k] + [actions[k]];
    RunMore(issuer, actions[..k], actions[k]);
    OnlyReservesReserve(n, actions[k]);
    assert actions == actions[..k + 1] + actions[k + 1..];
    RunAppend(Initial(issuer), actions[..k + 1], actions[k + 1..]);
    ForwardRun(n', actions[k + 1..]);
    SnapshotCaptured(n.state, actions[k].list, actions[k].inputs);
  }

  /** The times of a stored document, traced to the clock, the settings and the certificate of its reservation. */
  ghost predicate TimesFrom(crl: SignedCRL, inputs: ReserveInputs) {
    && crl.thisUpdate < crl.nextUpdate
    && crl.thisUpdate % 1_000_000 == 0 && crl.nextUpdate % 1_000_000 == 0
    && crl.thisUpdate <= inputs.now < crl.thisUpdate + 1_000_000
    && crl.nextUpdate == crl.thisUpdate + inputs.validitySeconds * 1_000_000
    && inputs.issuerNotBefore <= crl.thisUpdate < inputs.issuerNotAfter
  }

  /**
   * In every reachable state each stored document starts at the second of the clock at the reservation with its
   * number, ends the set number of seconds later, and starts inside the issuer certificate's validity.
   */
  lemma DocumentTimes(issuer: string, actions: seq<Action>, id: string)
    requires id in Run(Initial(issuer), actions).documents
    ensures
      var n := Run(Initial(issuer), actions);
      exists k: nat, r: nat ::
        && ReservesAt(issuer, actions, k, r) && r < |n.reservations|
        && n.reservations[r].snapshot.number == n.documents[id].crl.number
        && TimesFrom(n.documents[id].crl, actions[k].inputs)
  {
    hide Run, Inv, ReservesAt;
    var n := Run(Initial(issuer), actions);
    Reachable(issuer, actions);
    var r := SignedReservation(n, id);
    var k := ReservedAt(issuer, actions, r);
    ReservationInputs(issuer, actions, k, r);
  }

  lemma SignedReservation(n: Node, id: string) returns (r: nat)
    requires Inv(n) && id in n.documents
    ensures r < |n.reservations| && SignedFrom(n.documents[id], n.reservations[r])
  {
    assert DocumentInv(n, id);
    r :| 0 <= r < |n.reservations| && SignedFrom(n.documents[id], n.reservations[r]);
  }

  /** The next publication is due one interval after the clock at the reservation of the published document. */
  lemma NextPublishDue(issuer: string, actions: seq<Action>)
    ensures
      var n := Run(Initial(issuer), actions);
      n.state.publishedDocumentId != "" ==>
        exists k: nat, r: nat ::
          && ReservesAt(issuer, actions, k, r) && r < |n.reservations|
          && n.reservations[r].snapshot.number == n.state.publishedNumber
          && n.state.nextPublishAt == actions[k].inputs.now + actions[k].inputs.intervalSeconds * 1_000_000
  {
    var n := Run(Initial(issuer), actions);
    Reachable(issuer, actions);
    if n.state.publishedDocumentId != "" {
      var r := PublicationReserved(n);
      var k := ReservedAt(issuer, actions, r);
      ReservationInputs(issuer, actions, k, r);
    }
  }

  lemma PublicationReserved(n: Node) returns (r: nat)
    requires Inv(n) && n.state.publishedDocumentId != ""
    ensures r < |n.reservations| && n.reservations[r].snapshot.number == n.state.publishedNumber
    ensures n.reservations[r].nextPublishAt == n.state.nextPublishAt
  {
    r :| 0 <= r < |n.reservations| && SignedFrom(n.documents[n.state.publishedDocumentId], n.reservations[r])
         && n.state.nextPublishAt == n.reservations[r].nextPublishAt;
  }

  // ---- reasons and times of ledger rows ----

  /** The action asserts, or corrects to, the reason and time of a row. */
  ghost predicate Says(a: Action, k: string, row: Revocation) {
    match a
    case CommitBatch(_, changes) =>
      exists c :: c in changes && c.serial.hex == k && c.reason == row.reason && c.revokedAt == row.revokedAt
    case CommitCorrection(_, serial, reason, revokedAt, _, _) =>
        serial == k && reason == row.reason && revokedAt == row.revokedAt
    case _ => false
  }

  lemma BatchRows(n: Node, i: nat, changes: seq<Change>)
    requires Inv(n) && Batched(n, i, changes) != n
    ensures Recorded(n.rows, changes, Batched(n, i, changes).rows, n.state.revocationGeneration + 1)
    ensures Batched(n, i, changes).rows == ApplyIssuerBatch(n.state, n.rows, changes).value.rows
    ensures ApplyIssuerBatch(n.state, n.rows, changes).Ok? && forall c | c in changes :: c.issuerId == n.issuer
  {
    hide *;
    InvLedger(n);
    LedgerParts(n);
    BatchIsAtomic(n, i, changes);
    BatchOwn(n, i, changes);
    BatchRecords(n.state, n.rows, changes, n.issuer);
  }

  lemma BatchSays(n: Node, i: nat, changes: seq<Change>, k: string)
    requires Inv(n) && Batched(n, i, changes) != n && k in Batched(n, i, changes).rows
    ensures var after := Batched(n, i, changes).rows[k];
            Says(CommitBatch(i, changes), k, after)
            || (k in n.rows && after.reason == n.rows[k].reason && after.revokedAt == n.rows[k].revokedAt)
  {
    InvLedger(n);
    LedgerParts(n);
    hide *;
    BatchRows(n, i, changes);
    if k in n.rows {
      KnownSerial(n.state, n.rows, changes, n.issuer, k);
    } else {
      NewSays(n.rows, changes, Batched(n, i, changes).rows, n.state.revocationGeneration + 1, i, k);
    }
  }

  lemma NewSays(rows: Rows, changes: seq<Change>, after: Rows, generation: int, i: nat, k: string)
    requires Recorded(rows, changes, after, generation) && k in after && k !in rows
    ensures Says(CommitBatch(i, changes), k, after[k])
  {
    var c :| c in changes && c.serial.hex == k;
  }

  lemma BatchOwn(n: Node, i: nat, changes: seq<Change>)
    requires Batched(n, i, changes) != n
    ensures forall c | c in changes :: c.issuerId == n.issuer
  {
  }

  predicate CorrectionAllowed(reason: RevocationReason, revokedAt: Instant, justification: string, now: Instant) {
    !reason.OtherReason? && revokedAt != 0 && justification != "" && now != 0 && revokedAt <= now + 300_000_000
  }

  function CorrectedTo(row: Revocation, reason: RevocationReason, revokedAt: Instant, generation: int): Revocation {
    row.(reason := reason, revokedAt := revokedAt, needsReview := false, changeGeneration := generation,
         version := row.version + 2)
  }

  lemma CorrectedRowExactly(
    issuer: string, rows: Rows, generation: int, serial: string,
    reason: RevocationReason, revokedAt: Instant, justification: string, now: Instant)
    requires LedgerOk(issuer, rows, generation) && generation >= 0 && serial in rows
    ensures
      var row := rows[serial];
      var corrected := row.Correct(reason, revokedAt, justification, now);
      && (corrected.Ok? <==> CorrectionAllowed(reason, revokedAt, justification, now))
      && (corrected.Ok? ==>
            StoreRow(rows, Pending(corrected.value, row.version, false), generation + 1) ==
            Ok(rows[serial := CorrectedTo(row, reason, revokedAt, generation + 1)]))
  {
  }

  /** The node with other rows under the next generation, and a demand for a list that covers them. */
  function LedgerMoved(n: Node, rows: Rows): Node {
    n.(rows := rows,
       state := n.state.(revocationGeneration := n.state.revocationGeneration + 1, version := n.state.version + 1),
       job := if n.job == JobRunning then JobRunning else JobPending)
  }

  lemma LedgerMoves(n: Node, rows: Rows)
    ensures LedgerMoved(n, rows) != n && LedgerMoved(n, rows).rows == rows
  {
  }

  lemma CorrectedOn(
    n: Node, i: nat, serial: string, reason: RevocationReason, revokedAt: Instant, justification: string, now: Instant)
    requires LedgerInv(n) && serial in n.rows
    requires Current(n, i) && n.txns[i].state == n.state && n.txns[i].rows == Some(n.rows)
    ensures
      Corrected(n, i, serial, reason, revokedAt, justification, now) ==
      if CorrectionAllowed(reason, revokedAt, justification, now) then
        LedgerMoved(n, n.rows[serial :=
            CorrectedTo(n.rows[serial], reason, revokedAt, n.state.revocationGeneration + 1)])
      else n
  {
    hide StoreRow, Revocation.Correct, LedgerOk, CorrectionAllowed, CorrectedTo;
    CorrectedRowExactly(n.issuer, n.rows, n.state.revocationGeneration, serial, reason, revokedAt, justification, now);
  }

  lemma CorrectionNeeds(
    n: Node, i: nat, serial: string, reason: RevocationReason, revokedAt: Instant, justification: string, now: Instant)
    requires Corrected(n, i, serial, reason, revokedAt, justification, now) != n
    ensures Current(n, i) && n.txns[i].rows.Some? && serial in n.txns[i].rows.value
  {
    hide StoreRow, Revocation.Correct;
  }

  /** What a correction needs, and what it writes: the new reason and time under the next generation, review settled. */
  lemma CorrectionExactly(
    n: Node, i: nat, serial: string, reason: RevocationReason, revokedAt: Instant, justification: string, now: Instant)
    requires Inv(n)
    ensures
      var n' := Corrected(n, i, serial, reason, revokedAt, justification, now);
      && (n' != n <==>
            && Current(n, i) && i < |n.txns| && n.txns[i].rows.Some? && serial in n.rows
            && CorrectionAllowed(reason, revokedAt, justification, now))
      && (n' != n ==>
            && serial in n.rows
            && n' == LedgerMoved(n, n.rows[serial := CorrectedTo(n.rows[serial], reason, revokedAt,
                                                                 n.state.revocationGeneration + 1)]))
  {
    InvLedger(n);
    hide Inv, LedgerInv, CorrectionAllowed, Corrected, CorrectedTo, LedgerMoved, Current;
    var n' := Corrected(n, i, serial, reason, revokedAt, justification, now);
    if n' != n {
      CorrectionNeeds(n, i, serial, reason, revokedAt, justification, now);
      CurrentIsFresh(n, i);
    }
    if i < |n.txns| && Current(n, i) && n.txns[i].rows.Some? && serial in n.rows {
      CurrentIsFresh(n, i);
      CorrectedOn(n, i, serial, reason, revokedAt, justification, now);
      LedgerMoves(n, n.rows[serial :=
          CorrectedTo(n.rows[serial], reason, revokedAt, n.state.revocationGeneration + 1)]);
    }
  }

  lemma StepSays(n: Node, a: Action, k: string)
    requires Inv(n) && k in Apply(n, a).rows
    ensures Says(a, k, Apply(n, a).rows[k])
            || (k in n.rows && Apply(n, a).rows[k].reason == n.rows[k].reason &&
                Apply(n, a).rows[k].revokedAt == n.rows[k].revokedAt)
  {
    hide Inv, Says, Batched, Corrected;
    match a
    case CommitBatch(i, changes) =>
      if Batched(n, i, changes) != n { BatchSays(n, i, changes, k); }
    case CommitCorrection(i, serial, reason, revokedAt, justification, now) =>
      CorrectionSays(n, i, serial, reason, revokedAt, justification, now, k);
    case _ => RowsStay(n, a);
  }

  lemma CorrectionSays(
    n: Node, i: nat, serial: string, reason: RevocationReason, revokedAt: Instant, justification: string,
        now: Instant, k: string)
    requires Inv(n) && k in Corrected(n, i, serial, reason, revokedAt, justification, now).rows
    ensures var after := Corrected(n, i, serial, reason, revokedAt, justification, now).rows[k];
            Says(CommitCorrection(i, serial, reason, revokedAt, justification, now), k, after)
            || (k in n.rows && after.reason == n.rows[k].reason && after.revokedAt == n.rows[k].revokedAt)
  {
    hide Inv, Corrected, Current, CorrectionAllowed;
    CorrectionExactly(n, i, serial, reason, revokedAt, justification, now);
  }

  lemma RowsStay(n: Node, a: Action)
    requires !a.CommitBatch? && !a.CommitCorrection?
    ensures Apply(n, a).rows == n.rows
  {
    hide ReserveSnapshot, IsListing, FinalizePublish, SignCRL, CRLState.ObserveImportedNumber;
  }

  /** Every row of the ledger repeats the reason and time of an assertion or a correction of its serial in the run. */
  lemma {:induction false} RowProvenance(issuer: string, actions: seq<Action>, k: string)
    requires k in Run(Initial(issuer), actions).rows
    ensures exists j :: 0 <= j < |actions| && Says(actions[j], k, Run(Initial(issuer), actions).rows[k])
  {
    hide Inv, Apply, Says;
    var m := |actions| - 1;
    var before := actions[..m];
    var n := Run(Initial(issuer), before);
    Reachable(issuer, before);
    StepSays(n, actions[m], k);
    if !Says(actions[m], k, Run(Initial(issuer), actions).rows[k]) {
      RowProvenance(issuer, before, k);
      var j :| 0 <= j < |before| && Says(before[j], k, n.rows[k]);
      SameFactsSaid(before[j], k, n.rows[k], Run(Initial(issuer), actions).rows[k]);
      assert actions[j] == before[j];
    }
  }

  lemma SameFactsSaid(a: Action, k: string, row: Revocation, after: Revocation)
    requires Says(a, k, row) && after.reason == row.reason && after.revokedAt == row.revokedAt
    ensures Says(a, k, after)
  {
  }

  /**
   * What the published list says of a covered row: its serial, its reason as an importer reads it, its rounded-up
   * time.
   */
  lemma PublishedEntries(issuer: string, actions: seq<Action>, k: string)
    ensures
      var n := Run(Initial(issuer), actions);
      k in n.rows && n.rows[k].changeGeneration <= n.state.publishedGeneration ==>
        && n.state.publishedDocumentId in n.documents
        && exists e :: e in n.documents[n.state.publishedDocumentId].crl.entries
                       && e.serialNumber == n.rows[k].serial.Big()
                       && ImportedReason(e.reasonCode) == Some(n.rows[k].reason)
                       && e.revocationTime % 1_000_000 == 0
                       && n.rows[k].revokedAt <= e.revocationTime < n.rows[k].revokedAt + 1_000_000
  {
    hide Run;
    var n := Run(Initial(issuer), actions);
    PublishedListCovers(issuer, actions);
    if k in n.rows && n.rows[k].changeGeneration <= n.state.publishedGeneration {
      var row := n.rows[k];
      ReasonTablesAgree(row.reason, EntryOf(row).reasonCode);
      CeilBound(row.revokedAt);
    }
  }

  lemma CeilBound(t: Instant)
    ensures TimeCeil(t) % 1_000_000 == 0 && t <= TimeCeil(t) < t + 1_000_000
  {
  }

  // ---- when the other commits take effect ----

  lemma SettingLands(n: Node, i: nat, next: Result<CRLState>)
    requires i < |n.txns| && (next.Ok? ==> next.value.version == n.state.version + 1 || next.value == n.state)
    ensures SavedState(n, i, next) != n <==> Current(n, i) && next.Ok? && next.value != n.state
    ensures SavedState(n, i, next) != n ==> SavedState(n, i, next) == n.(state := next.value)
  {
  }

  /** Closing takes effect exactly once, on the current row, when both closure facts hold. */
  lemma CloseExactly(n: Node, i: nat, facts: CRLClosureFacts)
    requires Inv(n) && Current(n, i)
    ensures
      var n' := Apply(n, CommitClose(i, facts));
      && (n' != n <==>
            n.state.publicationState != Closed && facts.allCoveredCertificatesExpired && facts.finalCRLCoversLastExpiry)
      && (n' != n ==> n' == n.(state := n.state.(publicationState := Closed, version := n.state.version + 1)))
  {
    CurrentTxn(n, i);
    CurrentIsFresh(n, i);
    SettingLands(n, i, n.state.Close(facts));
    hide Inv, Batched, Corrected, Observed, ReservedNext, Published, SavedState, Current, Demand;
  }

  lemma SigningCertificateExactly(n: Node, i: nat, certificateId: string)
    requires Inv(n) && Current(n, i)
    ensures
      var n' := Apply(n, CommitSigningCertificate(i, certificateId));
      && (n' != n <==> n.state.publicationState != Closed && IsUuid(certificateId))
      && (n' != n ==> n' == n.(state :=
          n.state.(signingCACertificateId := certificateId, version := n.state.version + 1)))
  {
    CurrentTxn(n, i);
    CurrentIsFresh(n, i);
    SettingLands(n, i, n.state.SetSigningCertificate(certificateId));
    hide Inv, Batched, Corrected, Observed, ReservedNext, Published, SavedState, Current, Demand, IsUuid;
  }

  lemma StaleSetting(n: Node, i: nat, certificateId: string, facts: CRLClosureFacts)
    requires !Current(n, i)
    ensures Apply(n, CommitClose(i, facts)) == n && Apply(n, CommitSigningCertificate(i, certificateId)) == n
  {
    hide Batched, Corrected, Observed, ReservedNext, Published, CRLState.Close, CRLState.SetSigningCertificate;
  }

  /** An observed number raises the floor exactly when it is above it. */
  lemma ImportExactly(n: Node, i: nat, number: CRLNumber)
    requires Inv(n) && Current(n, i)
    ensures
      var n' := Observed(n, i, number);
      && n'.state == (if number.hex != "" && number.Big() > n.state.maxReservedNumber.Big()
                      then n.state.(maxReservedNumber := number, version := n.state.version + 1) else n.state)
      && n'.history == (if number.hex != "" then n.history + [Imported(number.Big())] else n.history)
  {
    CurrentTxn(n, i);
    CurrentIsFresh(n, i);
    ObserveExactly(n.state, number);
    hide Inv, Value, CRLState.ObserveImportedNumber;
  }

  /** A number at or below the floor that was read needs no save, so it is recorded even on a row that moved since. */
  lemma LowImport(n: Node, i: nat, number: CRLNumber)
    requires Inv(n) && i < |n.txns| && number.hex != ""
    requires number.Big() <= n.txns[i].state.maxReservedNumber.Big()
    ensures Observed(n, i, number) == n.(history := n.history + [Imported(number.Big())])
  {
    hide Inv, Value, CRLState.ObserveImportedNumber;
    ObserveExactly(n.txns[i].state, number);
  }

  lemma ObserveExactly(s: CRLState, number: CRLNumber)
    ensures s.ObserveImportedNumber(number) ==
            if number.hex != "" && number.Big() > s.maxReservedNumber.Big()
            then (s.(maxReservedNumber := number, version := s.version + 1), true) else (s, false)
  {
    hide Value;
  }

  /** A reservation commits exactly on the current row with a listing of the ledger it read. */
  lemma ReserveExactly(n: Node, i: nat, list: seq<Revocation>, inputs: ReserveInputs)
    requires Inv(n)
    ensures ReservedNext(n, i, list, inputs) != n <==>
              i < |n.txns| && Current(n, i) && n.txns[i].rows.Some? && IsListing(list, n.rows)
  {
    if i < |n.txns| { CurrentIsFresh(n, i); }
    hide Inv, IsListing, ReserveSnapshot;
  }

  ghost predicate BatchAllowed(issuer: string, rows: Rows, changes: seq<Change>) {
    && (forall c | c in changes :: c.issuerId == issuer && Acceptable(rows, c))
    && EffectiveOnce(rows, changes)
    && exists c :: c in changes && Effective(rows, c)
  }

  lemma BatchAllowedExactly(state: CRLState, rows: Rows, changes: seq<Change>, issuer: string)
    requires LedgerOk(issuer, rows, state.revocationGeneration) && state.revocationGeneration >= 0
    requires forall c | c in changes :: c.issuerId == issuer
    ensures BatchAllowed(issuer, rows, changes) <==>
              ApplyIssuerBatch(state, rows, changes).Ok? && ApplyIssuerBatch(state, rows, changes).value.changed > 0
  {
    hide ApplyIssuerBatch, LedgerOk, Acceptable, Effective, EffectiveOnce;
    AcceptedExactly(state, rows, changes, issuer);
    if ApplyIssuerBatch(state, rows, changes).Ok? { BatchRecords(state, rows, changes, issuer); }
  }

  lemma BatchedChanges(n: Node, i: nat, changes: seq<Change>)
    requires i < |n.txns| && n.txns[i].state == n.state && n.txns[i].rows == Some(n.rows) && Current(n, i)
    requires forall c | c in changes :: c.issuerId == n.issuer
    ensures Batched(n, i, changes) != n <==>
              ApplyIssuerBatch(n.state, n.rows, changes).Ok? &&
                  ApplyIssuerBatch(n.state, n.rows, changes).value.changed > 0
  {
    hide ResolveAll, StoreAll;
  }

  lemma BatchNeeds(n: Node, i: nat, changes: seq<Change>)
    requires Batched(n, i, changes) != n
    ensures Current(n, i) && n.txns[i].rows.Some? && forall c | c in changes :: c.issuerId == n.issuer
  {
    hide ResolveAll, StoreAll;
  }

  /** A batch commits exactly on the current row, when it names this key only, is accepted and changes something. */
  lemma BatchExactly(n: Node, i: nat, changes: seq<Change>)
    requires Inv(n)
    ensures
      Apply(n, CommitBatch(i, changes)) != n <==>
        Current(n, i) && n.txns[i].rows.Some? && BatchAllowed(n.issuer, n.rows, changes)
  {
    InvLedger(n);
    LedgerParts(n);
    hide Inv, ApplyIssuerBatch, Acceptable, Effective, EffectiveOnce, LedgerOk, Batched;
    if Batched(n, i, changes) != n { BatchNeeds(n, i, changes); }
    if Current(n, i) && n.txns[i].rows.Some? && forall c | c in changes :: c.issuerId == n.issuer {
      CurrentIsFresh(n, i);
      BatchAllowedExactly(n.state, n.rows, changes, n.issuer);
      BatchedChanges(n, i, changes);
    }
  }

  predicate Newer(s: CRLState, number: CRLNumber) {
    s.publishedDocumentId == "" || number.Big() > s.publishedNumber.Big()
  }

  ghost predicate MayStore(n: Node, documentId: string, derKey: string) {
    && n.job != NoJob && n.state.publicationState != Closed
    && IsUuid(documentId) && documentId !in n.documents
    && (derKey == "" || forall id | id in n.documents :: n.documents[id].derKey != derKey)
  }

  function MovedTo(s: CRLState, documentId: string, number: CRLNumber, generation: int, publishAt: Instant): CRLState {
    if Newer(s, number) then
      s.(publishedDocumentId := documentId, publishedNumber := number, publishedGeneration := generation,
         nextPublishAt := publishAt, publicationState := Active, version := s.version + 1)
    else s
  }

  /**
   * When a publication lands on the current row: the job exists, the document is new, the key is not closed, the
   * reservation can be signed. The state moves exactly when nothing with as large a number was published before.
   */
  lemma PublishExactly(n: Node, i: nat, r: nat, documentId: string, derKey: string)
    requires Inv(n) && Current(n, i) && r < |n.reservations|
    ensures
      var s := n.reservations[r].snapshot;
      var n' := Published(n, i, r, documentId, derKey);
      && (n' != n <==>
            && SnapshotTimesValid(s) && Writable(s) && MayStore(n, documentId, derKey)
            && (Newer(n.state, s.number) ==> n.reservations[r].nextPublishAt != 0))
      && (n' != n ==>
            && documentId in n'.documents && n'.documents == n.documents[documentId := n'.documents[documentId]]
            && SignedFrom(n'.documents[documentId], n.reservations[r])
            && n'.state == MovedTo(n.state, documentId, s.number, s.coveredGeneration, n.reservations[r].nextPublishAt))
  {
    var s := n.reservations[r].snapshot;
    CurrentIsFresh(n, i);
    SignableExactly(n, r);
    hide *;
    CurrentTxn(n, i);
    PublishedAs(n, i, r, documentId, derKey);
    if SignCRL(s).Signed? {
      var d := DocumentOf(documentId, derKey, s, SignCRL(s).value);
      SignedDocument(n.reservations[r], documentId, derKey);
      DocumentFields(documentId, derKey, s, SignCRL(s).value);
      FinalizedExactly(n, i, r, d);
    }
  }

  lemma CurrentTxn(n: Node, i: nat)
    requires Current(n, i)
    ensures i < |n.txns|
  {
  }

  lemma DocumentFields(id: string, derKey: string, s: Snapshot, crl: SignedCRL)
    ensures DocumentOf(id, derKey, s, crl).id == id && DocumentOf(id, derKey, s, crl).derKey == derKey
  {
  }

  lemma PublishedAs(n: Node, i: nat, r: nat, documentId: string, derKey: string)
    requires Current(n, i) && i < |n.txns| && r < |n.reservations|
    ensures
      var s := n.reservations[r].snapshot;
      Published(n, i, r, documentId, derKey) ==
      if SignCRL(s).Refused? then n
      else Finalized(n, i, DocumentOf(documentId, derKey, s, SignCRL(s).value), n.reservations[r].nextPublishAt)
  {
    hide SignCRL, Finalized;
  }

  lemma FinalizedExactly(n: Node, i: nat, r: nat, d: Document)
    requires Inv(n) && Current(n, i) && r < |n.reservations| && SignedFrom(d, n.reservations[r])
    ensures
      var s := n.reservations[r].snapshot;
      var publishAt := n.reservations[r].nextPublishAt;
      var n' := Finalized(n, i, d, publishAt);
      && (n' != n <==> MayStore(n, d.id, d.derKey) && (Newer(n.state, s.number) ==> publishAt != 0))
      && (n' != n ==>
            && n'.documents == n.documents[d.id := d]
            && n'.state == MovedTo(n.state, d.id, s.number, s.coveredGeneration, publishAt))
  {
    CurrentIsFresh(n, i);
    VerdictOn(n, r);
    SignedNumber(d, n.reservations[r]);
    StoreNeedsNew(n, d.id, d.derKey);
    hide Inv, SignedFrom, Current, MayStore, MovedTo, Newer, Value, CRLState.CanPublish, FinalizePublish;
    FinalizeExactly(n, r, d, n.reservations[r].nextPublishAt);
  }

  lemma StoreNeedsNew(n: Node, id: string, derKey: string)
    ensures MayStore(n, id, derKey) ==> id !in n.documents
  {
  }

  lemma SignedNumber(d: Document, r: Reservation)
    requires SignedFrom(d, r)
    ensures d.crl.number == r.snapshot.number && d.coveredGeneration == r.snapshot.coveredGeneration
  {
  }

  lemma FinalizeExactly(n: Node, r: nat, d: Document, publishAt: Instant)
    requires r < |n.reservations| && d.crl.number == n.reservations[r].snapshot.number
    requires d.coveredGeneration == n.reservations[r].snapshot.coveredGeneration
    requires n.state.CanPublish(d.crl.number, d.coveredGeneration) == (
               if n.state.publicationState == Closed then Some(NotPermitted)
               else if n.state.publishedDocumentId != "" &&
                   d.crl.number.Big() <= n.state.publishedNumber.Big() then Some(Conflict)
               else None)
    ensures
      var p := FinalizePublish(n.state, n.documents, n.job, d, publishAt);
      && (p.Ok? <==> MayStore(n, d.id, d.derKey) && (Newer(n.state, d.crl.number) ==> publishAt != 0))
      && (p.Ok? ==>
            && p.value.documents == n.documents[d.id := d]
            && p.value.state == MovedTo(n.state, d.id, d.crl.number, d.coveredGeneration, publishAt))
  {
    hide IsUuid, Value, CRLState.CanPublish;
    MarkExactly(n.state, d.id, d.crl.number, d.coveredGeneration, publishAt);
  }

  lemma SignableExactly(n: Node, r: nat)
    requires Inv(n) && r < |n.reservations|
    ensures SignCRL(n.reservations[r].snapshot).Signed? <==>
              SnapshotTimesValid(n.reservations[r].snapshot) && Writable(n.reservations[r].snapshot)
  {
    assert ReservationInv(n, n.reservations[r]);
    RevokedEntriesExact(n.reservations[r].snapshot);
  }

  lemma VerdictOn(n: Node, r: nat)
    requires Inv(n) && r < |n.reservations|
    ensures
      var s := n.reservations[r].snapshot;
      n.state.CanPublish(s.number, s.coveredGeneration) == (
        if n.state.publicationState == Closed then Some(NotPermitted)
        else if n.state.publishedDocumentId != "" && s.number.Big() <= n.state.publishedNumber.Big() then Some(Conflict)
        else None)
  {
    assert ReservationInv(n, n.reservations[r]);
    if n.state.publishedDocumentId != "" {
      var i := PublishedReservation(n);
      assert i != r ==> i < r || r < i;
    }
  }

  // ---- transactions that nothing disturbs ----

  /** A transaction that has just read everything holds the current rows and changes nothing yet. */
  lemma Opened(n: Node)
    ensures
      var k, n' := |n.txns|, Apply(Apply(n, Begin), ReadRows(|n.txns|));
      && n' == n.(txns := n.txns + [Txn(n.state, Some(n.rows))]) && Current(n', k)
  {
    var k := |n.txns|;
    assert Apply(n, Begin).txns == n.txns + [Txn(n.state, None)];
    assert (n.txns + [Txn(n.state, None)])[k := Txn(n.state, Some(n.rows))] == n.txns + [Txn(n.state, Some(n.rows))];
  }

  /** An accepted batch, read and committed without interference, is in the ledger with a demand for its publication. */
  lemma BatchCommits(n: Node, changes: seq<Change>)
    requires Inv(n) && BatchAllowed(n.issuer, n.rows, changes)
    ensures
      var k := |n.txns|;
      var n' := Apply(Apply(Apply(n, Begin), ReadRows(k)), CommitBatch(k, changes));
      && Recorded(n.rows, changes, n'.rows, n.state.revocationGeneration + 1)
      && n'.state == n.state.(revocationGeneration := n.state.revocationGeneration + 1, version := n.state.version + 1)
      && (n'.job == JobPending || n'.job == JobRunning) && (n.job == JobRunning <==> n'.job == JobRunning)
  {
    var k := |n.txns|;
    var begun := n.(txns := n.txns + [Txn(n.state, Some(n.rows))]);
    hide Inv, BatchAllowed, Recorded, Batched;
    Opened(n);
    ApplyKeeps(n, Begin);
    ApplyKeeps(Apply(n, Begin), ReadRows(k));
    BatchExactly(begun, k, changes);
    BatchRows(begun, k, changes);
    BatchIsAtomic(begun, k, changes);
    BatchMoved(begun, k, changes);
  }

  lemma BatchMoved(n: Node, i: nat, changes: seq<Change>)
    requires Inv(n) && Batched(n, i, changes) != n
    ensures Batched(n, i, changes) == LedgerMoved(n, Batched(n, i, changes).rows)
  {
    BatchIsAtomic(n, i, changes);
    hide Inv, Batched, ResolveAll, StoreAll;
  }
}
