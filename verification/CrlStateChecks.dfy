/**
 * The checks the SQL store makes before it saves a CRL state row (internal/storage/sqlstore/revocation/crl.go), and
 * that the protocol's saves meet them.
 */
module CrlStateChecks {
  import opened Outcomes
  import opened HexNumbers
  import opened Revocations
  import opened CrlSigner
  import opened RevocationService
  import opened CrlProtocol

  /** An unset number is stored as "0". */
  function ForStorage(number: CRLNumber): string { if number.hex == "" then "0" else number.hex }

  predicate ValidState(s: CRLState) {
    && IsUuid(s.caKeyGenerationId) && s.version >= 0
    && ParseCRLNumber(ForStorage(s.maxReservedNumber)).Some?
    && s.revocationGeneration >= 0 && s.publishedGeneration >= 0
    && s.publishedGeneration <= s.revocationGeneration &&
        Compare(s.maxReservedNumber.Big(), s.publishedNumber.Big()) >= 0
    && (if s.publishedDocumentId != "" then
          IsUuid(s.publishedDocumentId) && !s.publishedNumber.IsZero() && ParseCRLNumber(s.publishedNumber.hex).Some?
        else s.publishedNumber.Big() == 0 && s.publishedGeneration == 0)
    && (s.signingCACertificateId != "" ==> IsUuid(s.signingCACertificateId))
  }

  predicate PublishedDocumentMatches(s: CRLState, documents: map<string, Document>) {
    s.publishedDocumentId != "" ==>
      && s.publishedDocumentId in documents
      && var d := documents[s.publishedDocumentId];
      && d.caKeyGenerationId == s.caKeyGenerationId && !d.crl.number.IsZero()
      && Compare(d.crl.number.Big(), s.publishedNumber.Big()) == 0
      && d.coveredGeneration == s.publishedGeneration
  }

  function PublicationRank(p: PublicationState): int {
    match p
    case Inactive => 0
    case Active => 1
    case Closed => 2
  }

  predicate Monotonic(previous: CRLState, next: CRLState) {
    && Compare(next.maxReservedNumber.Big(), previous.maxReservedNumber.Big()) >= 0
    && previous.revocationGeneration <= next.revocationGeneration <= previous.revocationGeneration + 1
    && PublicationRank(next.publicationState) >= PublicationRank(previous.publicationState)
    && (previous.publishedDocumentId != "" ==>
          && next.publishedDocumentId != ""
          && Compare(next.publishedNumber.Big(), previous.publishedNumber.Big()) >= 0
          && next.publishedGeneration >= previous.publishedGeneration
          && (next.publishedDocumentId != previous.publishedDocumentId ==>
                Compare(next.publishedNumber.Big(), previous.publishedNumber.Big()) > 0))
    && (previous.publicationState == PublicationState.Closed ==>
          && next.publishedDocumentId == previous.publishedDocumentId
          && next.nextPublishAt == previous.nextPublishAt
          && next.signingCACertificateId == previous.signingCACertificateId)
  }

  /** SaveState's update path. */
  predicate Accepts(previous: CRLState, next: CRLState, documents: map<string, Document>) {
    ValidState(next) && PublishedDocumentMatches(next, documents) && next.version > previous.version &&
        Monotonic(previous, next)
  }

  // ---- what a save changes ----

  ghost predicate IdsOk(n: Node) {
    && (n.state.signingCACertificateId != "" ==> IsUuid(n.state.signingCACertificateId))
    && (n.state.publishedDocumentId != "" ==> IsUuid(n.state.publishedDocumentId))
    && (forall id | id in n.documents :: n.documents[id].caKeyGenerationId == n.issuer)
  }

  /** One save: the version rises, the generation by one at most, a closed row keeps its publication facts. */
  predicate OneSave(s: CRLState, t: CRLState) {
    && t.version > s.version
    && s.revocationGeneration <= t.revocationGeneration <= s.revocationGeneration + 1
    && PublicationRank(t.publicationState) >= PublicationRank(s.publicationState)
    && (s.publicationState == PublicationState.Closed ==>
        t.nextPublishAt == s.nextPublishAt && t.signingCACertificateId == s.signingCACertificateId)
    && (t.publishedDocumentId != s.publishedDocumentId ==>
        t.publishedNumber.Big() > s.publishedNumber.Big() || !s.EverPublished())
    && (t.signingCACertificateId == s.signingCACertificateId || IsUuid(t.signingCACertificateId))
    && (t.publishedDocumentId == s.publishedDocumentId || IsUuid(t.publishedDocumentId))
  }

  predicate KeepsOrSaves(s: CRLState, t: CRLState) { t == s || OneSave(s, t) }

  lemma DomainSteps(s: CRLState, certificateId: string, facts: CRLClosureFacts)
    ensures OneSave(s, s.BumpRevocationGeneration())
    ensures s.SetSigningCertificate(certificateId).Ok? ==> KeepsOrSaves(s, s.SetSigningCertificate(certificateId).value)
    ensures s.Close(facts).Ok? ==> KeepsOrSaves(s, s.Close(facts).value)
  {
    hide IsUuid;
  }

  lemma FinalizeStep(s: CRLState, documents: map<string, Document>, job: JobState, d: Document, publishAt: Instant)
    requires FinalizePublish(s, documents, job, d, publishAt).Ok?
    ensures KeepsOrSaves(s, FinalizePublish(s, documents, job, d, publishAt).value.state)
    ensures FinalizePublish(s, documents, job, d, publishAt).value.documents == documents[d.id := d]
  {
    hide IsUuid, DerTaken;
  }

  lemma BatchSave(n: Node, i: nat, changes: seq<Change>)
    requires Inv(n)
    ensures KeepsOrSaves(n.state, Batched(n, i, changes).state) && Batched(n, i, changes).documents == n.documents
  {
    hide ResolveAll, StoreAll, Inv;
    if i < |n.txns| {
      CurrentIsFresh(n, i);
      DomainSteps(n.state, "", CRLClosureFacts(true, true));
    }
  }

  lemma CorrectionSave(n: Node, a: Action)
    requires Inv(n) && a.CommitCorrection?
    ensures KeepsOrSaves(n.state, Apply(n, a).state) && Apply(n, a).documents == n.documents
  {
    hide Inv, StoreRow, Revocation.Correct;
    if a.txn < |n.txns| {
      CurrentIsFresh(n, a.txn);
      DomainSteps(n.state, "", CRLClosureFacts(true, true));
    }
  }

  lemma FloorSave(s: CRLState, number: CRLNumber)
    ensures OneSave(s, s.(maxReservedNumber := number, version := s.version + 1))
  {
  }

  lemma ReserveSave(n: Node, a: Action)
    requires Inv(n) && (a.CommitReserve? || a.CommitImportedNumber?)
    ensures KeepsOrSaves(n.state, Apply(n, a).state) && Apply(n, a).documents == n.documents
  {
    hide Inv, Observed, ReservedNext, ReserveSnapshot, IsListing, OneSave;
    match a
    case CommitReserve(i, list, inputs) =>
      ReserveShape(n, i, list, inputs);
      FloorSave(n.state, ReserveSnapshot(n.state, list, inputs).0.snapshot.number);
    case CommitImportedNumber(i, number) =>
      ImportShape(n, i, number);
      FloorSave(n.state, number);
  }

  lemma SettingSave(n: Node, a: Action)
    requires Inv(n) && (a.CommitSigningCertificate? || a.CommitClose?)
    ensures KeepsOrSaves(n.state, Apply(n, a).state) && Apply(n, a).documents == n.documents
  {
    hide Inv, CRLState.SetSigningCertificate, CRLState.Close, OneSave;
    if a.txn < |n.txns| {
      CurrentIsFresh(n, a.txn);
      match a {
        case CommitSigningCertificate(_, certificateId) =>
            DomainSteps(n.state, certificateId, CRLClosureFacts(true, true));
        case CommitClose(_, facts) => DomainSteps(n.state, "", facts);
      }
    }
  }

  lemma PublishSave(n: Node, i: nat, r: nat, documentId: string, derKey: string)
    requires Inv(n) && IdsOk(n)
    ensures KeepsOrSaves(n.state, Published(n, i, r, documentId, derKey).state)
    ensures forall id | id in Published(n, i, r, documentId, derKey).documents ::
              Published(n, i, r, documentId, derKey).documents[id].caKeyGenerationId == n.issuer
  {
    if Current(n, i) && r < |n.reservations| {
      CurrentIsFresh(n, i);
      assert ReservationInv(n, n.reservations[r]);
      var s := n.reservations[r].snapshot;
      assert s.caKeyGenerationId == n.issuer;
      PublishedDocuments(n, i, r, documentId, derKey);
    }
  }

  lemma PublishedDocuments(n: Node, i: nat, r: nat, documentId: string, derKey: string)
    requires IdsOk(n) && i < |n.txns| && n.txns[i].state == n.state
    requires r < |n.reservations| && n.reservations[r].snapshot.caKeyGenerationId == n.issuer
    ensures KeepsOrSaves(n.state, Published(n, i, r, documentId, derKey).state)
    ensures forall id | id in Published(n, i, r, documentId, derKey).documents ::
              Published(n, i, r, documentId, derKey).documents[id].caKeyGenerationId == n.issuer
  {
    hide FinalizePublish, SignCRL, OneSave;
    var s := n.reservations[r].snapshot;
    if Current(n, i) && SignCRL(s).Signed? {
      var d := DocumentOf(documentId, derKey, s, SignCRL(s).value);
      if FinalizePublish(n.state, n.documents, n.job, d, n.reservations[r].nextPublishAt).Ok? {
        FinalizeStep(n.state, n.documents, n.job, d, n.reservations[r].nextPublishAt);
      }
    }
  }

  lemma StepSave(n: Node, a: Action)
    requires Inv(n) && IdsOk(n)
    ensures KeepsOrSaves(n.state, Apply(n, a).state) && IdsOk(Apply(n, a))
  {
    hide Inv, Batched, Corrected, Observed, ReservedNext, Published, SavedState;
    ForwardStep(n, a);
    match a
    case CommitBatch(i, changes) => BatchSave(n, i, changes);
    case CommitCorrection(_, _, _, _, _, _) => CorrectionSave(n, a);
    case CommitImportedNumber(_, _) => ReserveSave(n, a);
    case CommitReserve(_, _, _) => ReserveSave(n, a);
    case CommitPublish(i, r, documentId, derKey) => PublishSave(n, i, r, documentId, derKey);
    case CommitSigningCertificate(_, _) => SettingSave(n, a);
    case CommitClose(_, _) => SettingSave(n, a);
    case _ =>
  }

  lemma {:induction false} RunIds(issuer: string, actions: seq<Action>)
    ensures IdsOk(Run(Initial(issuer), actions))
  {
    hide Apply, Inv;
    if actions != [] {
      var before := actions[..|actions| - 1];
      RunIds(issuer, before);
      Reachable(issuer, before);
      StepSave(Run(Initial(issuer), before), actions[|actions| - 1]);
    }
  }

  /** What the checks need from the state they look at. */
  lemma ReachedState(n: Node)
    requires Inv(n)
    ensures n.state.caKeyGenerationId == n.issuer && n.state.revocationGeneration >= 0
    ensures n.state.publishedDocumentId == "" ==> n.state.publishedNumber.Big() == 0 && n.state.publishedGeneration == 0
    ensures n.state.publishedDocumentId != "" ==>
              && n.state.publishedDocumentId in n.documents
              && n.documents[n.state.publishedDocumentId].crl.number == n.state.publishedNumber
              && n.documents[n.state.publishedDocumentId].coveredGeneration == n.state.publishedGeneration
              && !n.state.publishedNumber.IsZero()
              && 0 <= n.state.publishedGeneration <= n.state.revocationGeneration
              && n.state.publishedNumber.Big() <= n.state.maxReservedNumber.Big()
  {
    if n.state.publishedDocumentId != "" {
      assert DocumentInv(n, n.state.publishedDocumentId);
      var i :| 0 <= i < |n.reservations| && SignedFrom(n.documents[n.state.publishedDocumentId], n.reservations[i]);
      assert ReservationInv(n, n.reservations[i]);
    }
  }

  lemma StorageExact(number: CRLNumber)
    ensures ParseCRLNumber(ForStorage(number)).Some? <==> number.Big() < Pow16(MAX_HEX_LENGTH)
  {
    if number.hex == "" {
      PowAbove(MAX_HEX_LENGTH);
    } else {
      MinimalIsText(number.hex);
      TextLength(number.Big(), MAX_HEX_LENGTH);
    }
  }

  lemma AcceptsExactly(n: Node, n': Node)
    requires Inv(n) && Inv(n') && Forward(n, n') && OneSave(n.state, n'.state) && IdsOk(n')
    requires IsUuid(n'.issuer) && n.state.version >= 0
    ensures Accepts(n.state, n'.state, n'.documents) <==> n'.state.maxReservedNumber.Big() < Pow16(MAX_HEX_LENGTH)
  {
    hide Inv, StoreForward, IsUuid, Pow16, ParseCRLNumber, Minimal, Value;
    ReachedState(n);
    ReachedState(n');
    StorageExact(n'.state.maxReservedNumber);
    StorageExact(n'.state.publishedNumber);
  }

  /**
   * Over all runs of one CA key: a save that changes the state row meets every check of the SQL store exactly while
   * the largest reserved number is below 16^40; no other check ever fires.
   */
  lemma SavesAcceptedExactly(issuer: string, actions: seq<Action>, a: Action)
    requires IsUuid(issuer)
    ensures var n := Run(Initial(issuer), actions);
            var n' := Apply(n, a);
            n'.state != n.state ==>
              (Accepts(n.state, n'.state, n'.documents) <==> n'.state.maxReservedNumber.Big() < Pow16(MAX_HEX_LENGTH))
  {
    hide Inv, Apply, Accepts, Forward, OneSave, IdsOk;
    var n := Run(Initial(issuer), actions);
    var n' := Apply(n, a);
    assert (actions + [a])[..|actions|] == actions;
    Reachable(issuer, actions);
    Reachable(issuer, actions + [a]);
    RunIds(issuer, actions);
    StepSave(n, a);
    ForwardStep(n, a);
    RunIssuer(issuer, actions);
    ForwardIssuer(n, n');
    if n'.state != n.state { AcceptsExactly(n, n'); }
  }

  lemma RunIssuer(issuer: string, actions: seq<Action>)
    ensures Run(Initial(issuer), actions).issuer == issuer && Run(Initial(issuer), actions).state.version >= 0
  {
    hide Run;
    InitialReached(issuer);
    ForwardRun(Initial(issuer), actions);
  }

  lemma InitialReached(issuer: string)
    ensures Inv(Initial(issuer))
  {
    Reachable(issuer, []);
  }

  lemma ForwardIssuer(n: Node, n': Node)
    requires Forward(n, n')
    ensures n'.issuer == n.issuer
  {
  }

  // ---- what the checks guarantee of any writer ----

  /** Any series of accepted saves, whoever computed the rows. */
  ghost predicate AcceptedChain(rows: seq<CRLState>, stored: seq<map<string, Document>>) {
    |stored| == |rows| && forall i | 0 < i < |rows| :: Accepts(rows[i - 1], rows[i], stored[i])
  }

  /** How far a row may have moved over `saves` accepted saves. */
  ghost predicate OnlyForward(s: CRLState, t: CRLState, saves: nat) {
    && s.version + saves <= t.version
    && s.maxReservedNumber.Big() <= t.maxReservedNumber.Big()
    && s.revocationGeneration <= t.revocationGeneration <= s.revocationGeneration + saves
    && (s.publicationState == Active ==> t.publicationState != Inactive)
    && (s.publicationState == PublicationState.Closed ==>
          && t.publicationState == PublicationState.Closed && t.publishedDocumentId == s.publishedDocumentId
          && t.nextPublishAt == s.nextPublishAt && t.signingCACertificateId == s.signingCACertificateId)
    && (s.publishedDocumentId != "" ==>
          && t.publishedDocumentId != "" && s.publishedGeneration <= t.publishedGeneration
          && s.publishedNumber.Big() <= t.publishedNumber.Big())
    && (s.publishedDocumentId != "" && saves == 1 && t.publishedDocumentId != s.publishedDocumentId ==>
          s.publishedNumber.Big() < t.publishedNumber.Big())
  }

  lemma OneAccepted(s: CRLState, t: CRLState, documents: map<string, Document>)
    requires Accepts(s, t, documents)
    ensures OnlyForward(s, t, 1)
  {
    hide ValidState, PublishedDocumentMatches, Value;
  }

  lemma ForwardAgain(s: CRLState, t: CRLState, u: CRLState, saves: nat)
    requires OnlyForward(s, t, saves) && OnlyForward(t, u, 1) && saves > 0
    ensures OnlyForward(s, u, saves + 1)
  {
    hide Value;
  }

  /**
   * The SQL store lets no writer move a row back: over any accepted saves numbers, generations and closure only
   * advance.
   */
  lemma {:induction false} ChainForward(rows: seq<CRLState>, stored: seq<map<string, Document>>, i: nat, j: nat)
    requires AcceptedChain(rows, stored) && i < j < |rows|
    ensures OnlyForward(rows[i], rows[j], j - i)
    decreases j - i
  {
    hide Accepts, OnlyForward;
    OneAccepted(rows[j - 1], rows[j], stored[j]);
    if i < j - 1 {
      ChainForward(rows, stored, i, j - 1);
      ForwardAgain(rows[i], rows[j - 1], rows[j], j - 1 - i);
    }
  }

  /** What a row that passed the checks is known to hold. */
  lemma AcceptedRow(s: CRLState, t: CRLState, documents: map<string, Document>)
    requires Accepts(s, t, documents)
    ensures IsUuid(t.caKeyGenerationId) && 0 <= t.version
    ensures t.maxReservedNumber.Big() < Pow16(MAX_HEX_LENGTH)
    ensures 0 <= t.publishedGeneration <= t.revocationGeneration && t.publishedNumber.Big() <= t.maxReservedNumber.Big()
    ensures t.signingCACertificateId == "" || IsUuid(t.signingCACertificateId)
    ensures t.publishedDocumentId == "" ==> t.publishedNumber.Big() == 0 && t.publishedGeneration == 0
    ensures t.publishedDocumentId != "" ==>
              && IsUuid(t.publishedDocumentId) && t.publishedNumber.hex != "" && t.publishedDocumentId in documents
              && var d := documents[t.publishedDocumentId];
              && d.caKeyGenerationId == t.caKeyGenerationId && d.coveredGeneration == t.publishedGeneration
              && d.crl.number.hex != "" && d.crl.number.Big() == t.publishedNumber.Big()
  {
    hide IsUuid, Pow16, ParseCRLNumber, Monotonic, Value;
    StorageExact(t.maxReservedNumber);
  }
}
