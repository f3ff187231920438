/** The revocation ledger row and the CRL publication state of one CA key (domain/revocation.go). */
module Revocations {
  import opened Outcomes
  import opened HexNumbers

  /** Go carries the reason as a string; `OtherReason` stands for every unsupported one. */
  datatype RevocationReason =
    | Unspecified
    | KeyCompromise
    | CACompromise
    | AffiliationChanged
    | Superseded
    | CessationOfOperation
    | PrivilegeWithdrawn
    | AACompromise
    | OtherReason(text: string)
  {
    predicate Valid() { !OtherReason? }
  }

  datatype RevocationSource = Manual | Import | Cascade | OtherSource(text: string) {
    predicate Valid() { !OtherSource? }
  }

  /** Input of NewRevocation and of Merge. */
  datatype Facts = Facts(
    id: string,
    issuerId: string,
    serial: Serial,
    certificateId: string,
    revokedAt: Instant,
    reason: RevocationReason,
    source: RevocationSource,
    changeGeneration: int,
    needsReview: bool,
    version: int)

  const MAX_CORRECT_CLOCK_SKEW: int := 5 * 60 * MICROS_PER_SECOND

  function NewRevocation(facts: Facts): Result<Revocation> {
    if !IsUuid(facts.id) || !IsUuid(facts.issuerId) then Err(InvalidValue)
    else if facts.serial.IsZero() || facts.revokedAt == 0 then Err(InvalidValue)
    else if !facts.reason.Valid() || !facts.source.Valid() then Err(InvalidValue)
    else Ok(Revocation(facts.id, facts.issuerId, facts.serial, facts.certificateId, facts.revokedAt, facts.reason,
                       facts.source, facts.changeGeneration, facts.needsReview, facts.version))
  }

  datatype Revocation = Revocation(
    id: string,
    issuerId: string,
    serial: Serial,
    certificateId: string,
    revokedAt: Instant,
    reason: RevocationReason,
    source: RevocationSource,
    changeGeneration: int,
    needsReview: bool,
    version: int)
  {
    predicate WellFormed() {
      !serial.IsZero() && revokedAt != 0 && reason.Valid() && source.Valid()
    }

    predicate SameFacts(incoming: Facts) {
      reason == incoming.reason && revokedAt == incoming.revokedAt
    }

    /** The merged row, and whether anything changed. */
    function Merge(incoming: Facts): Result<(Revocation, bool)> {
      if !incoming.reason.Valid() || !incoming.source.Valid() then Err(InvalidValue)
      else if incoming.serial.IsZero() || incoming.revokedAt == 0 then Err(InvalidValue)
      else if issuerId != incoming.issuerId || serial != incoming.serial then Err(InvalidValue)
      else if SameFacts(incoming) then
        if certificateId == "" && incoming.certificateId != "" then
          Ok((this.(certificateId := incoming.certificateId, version := version + 1), true))
        else
          Ok((this, false))
      else if needsReview then Ok((this, false))
      else Ok((this.(needsReview := true, version := version + 1), true))
    }

    function Correct(newReason: RevocationReason, newRevokedAt: Instant, justification: string,
        now: Instant): Result<Revocation> {
      if !newReason.Valid() || newRevokedAt == 0 || justification == "" || now == 0 then Err(InvalidValue)
      else if newRevokedAt > now + MAX_CORRECT_CLOCK_SKEW then Err(PolicyViolation)
      else Ok(this.(reason := newReason, revokedAt := newRevokedAt, needsReview := false, version := version + 1))
    }

    function StampChangeGeneration(generation: int): Result<Revocation> {
      if generation <= 0 || generation <= changeGeneration then Err(InvalidValue)
      else Ok(this.(changeGeneration := generation, version := version + 1))
    }
  }

  datatype PublicationState = Inactive | Active | Closed

  datatype CRLClosureFacts = CRLClosureFacts(allCoveredCertificatesExpired: bool, finalCRLCoversLastExpiry: bool)

  /** A state as `NewCRLState` builds it for a fresh CA key. */
  function FreshCRLState(caKeyGenerationId: string): CRLState {
    CRLState(caKeyGenerationId, CrlNumber(""), 0, "", CrlNumber(""), 0, 0, Inactive, "", 0)
  }

  datatype CRLState = CRLState(
    caKeyGenerationId: string,
    maxReservedNumber: CRLNumber,
    revocationGeneration: int,
    publishedDocumentId: string,
    publishedNumber: CRLNumber,
    publishedGeneration: int,
    nextPublishAt: Instant,
    publicationState: PublicationState,
    signingCACertificateId: string,
    version: int)
  {
    function BumpRevocationGeneration(): CRLState {
      this.(revocationGeneration := revocationGeneration + 1, version := version + 1)
    }

    function ReserveNext(): (CRLNumber, CRLState) {
      var next := Increment(maxReservedNumber);
      (next, this.(maxReservedNumber := next, version := version + 1))
    }

    function ObserveImportedNumber(number: CRLNumber): (CRLState, bool) {
      if number.IsZero() || Compare(number.Big(), maxReservedNumber.Big()) <= 0 then (this, false)
      else (this.(maxReservedNumber := number, version := version + 1), true)
    }

    predicate EverPublished() {
      !publishedNumber.IsZero() || publishedGeneration != 0 || publishedDocumentId != ""
    }

    /** None means the document may be published. */
    function CanPublish(number: CRLNumber, coveredGeneration: int): Option<Error> {
      if publicationState == Closed then Some(NotPermitted)
      else if EverPublished() && Compare(number.Big(), publishedNumber.Big()) <= 0 then Some(Conflict)
      else if coveredGeneration < publishedGeneration then Some(Conflict)
      else None
    }

    function MarkPublished(documentId: string, number: CRLNumber, coveredGeneration: int,
        publishAt: Instant): Result<CRLState> {
      if !IsUuid(documentId) then Err(InvalidValue)
      else if CanPublish(number, coveredGeneration).Some? then Err(CanPublish(number, coveredGeneration).value)
      else if publishAt == 0 then Err(InvalidValue)
      else Ok(this.(publishedDocumentId := documentId,
                    publishedNumber := number,
                    publishedGeneration := coveredGeneration,
                    nextPublishAt := publishAt,
                    publicationState := if publicationState == Inactive then Active else publicationState,
                    version := version + 1))
    }

    function SetSigningCertificate(certificateId: string): Result<CRLState> {
      if !IsUuid(certificateId) then Err(InvalidValue)
      else if publicationState == Closed then Err(NotPermitted)
      else Ok(this.(signingCACertificateId := certificateId, version := version + 1))
    }

    function Close(facts: CRLClosureFacts): Result<CRLState> {
      if publicationState == Closed then Ok(this)
      else if !facts.allCoveredCertificatesExpired || !facts.finalCRLCoversLastExpiry then Err(NotPermitted)
      else Ok(this.(publicationState := Closed, version := version + 1))
    }
  }

  // ---- the transitions in terms of fields ----

  /** A new key has reserved, published and recorded nothing. */
  lemma FreshExactly(id: string)
    ensures
      var s := FreshCRLState(id);
      && s.caKeyGenerationId == id && s.maxReservedNumber.hex == "" && s.revocationGeneration == 0
      && s.publishedDocumentId == "" && s.publishedNumber.hex == "" && s.publishedGeneration == 0 &&
          s.nextPublishAt == 0
      && s.publicationState == Inactive && s.signingCACertificateId == "" && s.version == 0
  {
  }

  /** A generation is stamped exactly when it is positive and above the row's. */
  lemma StampExactly(row: Revocation, generation: int)
    ensures row.StampChangeGeneration(generation) == (
              if generation >= 1 && generation >= row.changeGeneration + 1
              then Ok(row.(changeGeneration := generation, version := row.version + 1))
              else Err(InvalidValue))
  {
  }

  /** What a new row and a correction need, and the refusals. */
  lemma EntryExactly(facts: Facts)
    ensures NewRevocation(facts).Ok? <==>
              && IsUuid(facts.id) && IsUuid(facts.issuerId) && facts.serial.hex != "" && facts.revokedAt != 0
              && !facts.reason.OtherReason? && !facts.source.OtherSource?
    ensures NewRevocation(facts).Err? ==> NewRevocation(facts).error == InvalidValue
  {
  }

  /**
   * A merge is refused for foreign or empty facts; otherwise it links a certificate or asks for review, at most one
   * of them.
   */
  lemma MergeExactly(row: Revocation, f: Facts)
    ensures
      row.Merge(f) == (
        if f.reason.OtherReason? || f.source.OtherSource? || f.serial.hex == "" || f.revokedAt == 0
           || f.issuerId != row.issuerId || f.serial != row.serial
        then Err(InvalidValue)
        else if f.reason != row.reason || f.revokedAt != row.revokedAt then
          Ok((row.(needsReview := true, version := if row.needsReview then row.version else row.version + 1),
              !row.needsReview))
        else if row.certificateId == "" && f.certificateId != "" then
          Ok((row.(certificateId := f.certificateId, version := row.version + 1), true))
        else Ok((row, false)))
  {
  }

  lemma CorrectExactly(row: Revocation, reason: RevocationReason, revokedAt: Instant, justification: string,
      now: Instant)
    ensures row.Correct(reason, revokedAt, justification, now) == (
              if reason.OtherReason? || revokedAt == 0 || justification == "" || now == 0 then Err(InvalidValue)
              else if revokedAt - now > 300_000_000 then Err(PolicyViolation)
              else Ok(row.(reason := reason, revokedAt := revokedAt, needsReview := false, version := row.version + 1)))
  {
  }

  /** A publication on any state row, published before or not. */
  lemma VerdictExactly(s: CRLState, number: CRLNumber, coveredGeneration: int)
    ensures
      var published := s.publishedNumber.hex != "" || s.publishedGeneration != 0 || s.publishedDocumentId != "";
      s.CanPublish(number, coveredGeneration) == (
        if s.publicationState == Closed then Some(NotPermitted)
        else if published && number.Big() <= s.publishedNumber.Big() then Some(Conflict)
        else if coveredGeneration < s.publishedGeneration then Some(Conflict)
        else None)
  {
    hide Value;
  }

  lemma MarkExactly(s: CRLState, documentId: string, number: CRLNumber, coveredGeneration: int, publishAt: Instant)
    ensures
      var refusal := s.CanPublish(number, coveredGeneration);
      s.MarkPublished(documentId, number, coveredGeneration, publishAt) == (
        if !IsUuid(documentId) then Err(InvalidValue)
        else if refusal.Some? then Err(refusal.value)
        else if publishAt == 0 then Err(InvalidValue)
        else Ok(s.(publishedDocumentId := documentId, publishedNumber := number,
            publishedGeneration := coveredGeneration,
                   nextPublishAt := publishAt, publicationState := Active, version := s.version + 1)))
  {
    hide Value;
  }

  /** A closed row keeps its signing certificate, and closing needs both facts; closing twice changes nothing. */
  lemma ClosureExactly(s: CRLState, certificateId: string, facts: CRLClosureFacts)
    ensures s.SetSigningCertificate(certificateId) == (
              if !IsUuid(certificateId) then Err(InvalidValue)
              else if s.publicationState == Closed then Err(NotPermitted)
              else Ok(s.(signingCACertificateId := certificateId, version := s.version + 1)))
    ensures s.Close(facts) == (
              if s.publicationState == Closed then Ok(s)
              else if facts == CRLClosureFacts(true, true)
                  then Ok(s.(publicationState := Closed, version := s.version + 1))
              else Err(NotPermitted))
  {
    hide IsUuid;
  }

  /** Every assertion of a run merged into one row; a refused assertion leaves it alone. */
  function MergeAll(row: Revocation, assertions: seq<Facts>): Revocation {
    if assertions == [] then row
    else
      var before := MergeAll(row, assertions[..|assertions| - 1]);
      match before.Merge(assertions[|assertions| - 1])
      case Ok(merged) => merged.0
      case Err(_) => before
  }

  predicate Accepted(row: Revocation, incoming: Facts) {
    && incoming.reason.Valid() && incoming.source.Valid()
    && !incoming.serial.IsZero() && incoming.revokedAt != 0
    && row.issuerId == incoming.issuerId && row.serial == incoming.serial
  }

  /** Index of the first accepted assertion of the same facts that names a certificate, or |assertions|. */
  function FirstLink(row: Revocation, assertions: seq<Facts>): (k: nat)
    ensures k <= |assertions|
    ensures k < |assertions| ==> Links(row, assertions[k])
    ensures forall i | 0 <= i < k :: !Links(row, assertions[i])
  {
    if assertions == [] then 0
    else
      var k := FirstLink(row, assertions[..|assertions| - 1]);
      if k < |assertions| - 1 || Links(row, assertions[|assertions| - 1]) then k else |assertions|
  }

  predicate Links(row: Revocation, incoming: Facts) {
    Accepted(row, incoming) && row.SameFacts(incoming) && incoming.certificateId != ""
  }

  predicate Conflicts(row: Revocation, incoming: Facts) {
    Accepted(row, incoming) && !row.SameFacts(incoming)
  }

  /** One merge into a row that earlier merges of a run have left. */
  lemma MergeOne(row: Revocation, before: Revocation, last: Facts)
    requires before == row.(certificateId := before.certificateId, needsReview := before.needsReview,
               version := before.version)
    ensures var after := match before.Merge(last) case Ok(merged) => merged.0 case Err(_) => before;
            && after == row.(certificateId := after.certificateId, needsReview := after.needsReview,
                version := after.version)
            && (after.needsReview <==> before.needsReview || Conflicts(row, last))
            && after.certificateId ==
               if before.certificateId == "" && Links(row, last) then last.certificateId else before.certificateId
  {
  }

  lemma ConflictsMore(row: Revocation, front: seq<Facts>, last: Facts)
    ensures (exists f :: f in front + [last] && Conflicts(row, f)) <==>
              ((exists f :: f in front && Conflicts(row, f)) || Conflicts(row, last))
  {
    hide Conflicts;
    assert last in front + [last] && forall f | f in front :: f in front + [last];
  }

  /**
   * What any run of assertions does to a row: reason, time, source, key and generation never change, the review
   * flag is set exactly by a conflicting assertion, and the certificate is filled by the first link.
   */
  lemma {:induction false} MergeRun(row: Revocation, assertions: seq<Facts>)
    ensures
      var final := MergeAll(row, assertions);
      && final == row.(certificateId := final.certificateId, needsReview := final.needsReview, version := final.version)
      && (final.needsReview <==> row.needsReview || exists f :: f in assertions && Conflicts(row, f))
      && final.certificateId == (
        if row.certificateId != "" then row.certificateId
        else
          var k := FirstLink(row, assertions);
          if k < |assertions| then assertions[k].certificateId else "")
      && row.version <= final.version <= row.version + 2
      && (final.version == row.version <==> final == row)
  {
    hide Revocation.Merge, Conflicts, Links, FirstLink;
    if assertions != [] {
      var front, last := assertions[..|assertions| - 1], assertions[|assertions| - 1];
      MergeRun(row, front);
      assert assertions == front + [last];
      var before := MergeAll(row, front);
      ConflictsMore(row, front, last);
      MergeOne(row, before, last);
    }
    MergeVersion(row, assertions);
    MergeLinked(row, assertions);
  }

  function MergedCertificate(row: Revocation, assertions: seq<Facts>): string {
    var k := FirstLink(row, assertions);
    if row.certificateId != "" then row.certificateId
    else if k < |assertions| then assertions[k].certificateId else ""
  }

  lemma LinkNext(row: Revocation, front: seq<Facts>, last: Facts)
    ensures MergedCertificate(row, front + [last]) ==
              if MergedCertificate(row, front) == "" && Links(row, last) then last.certificateId
              else MergedCertificate(row, front)
  {
    assert (front + [last])[..|front|] == front;
  }

  lemma {:induction false} MergeLinked(row: Revocation, assertions: seq<Facts>)
    ensures
      var final := MergeAll(row, assertions);
      && final == row.(certificateId := final.certificateId, needsReview := final.needsReview, version := final.version)
      && final.certificateId == MergedCertificate(row, assertions)
  {
    if assertions != [] {
      hide Revocation.Merge, Conflicts, Links, MergedCertificate;
      var front, last := assertions[..|assertions| - 1], assertions[|assertions| - 1];
      assert assertions == front + [last];
      MergeLinked(row, front);
      MergeOne(row, MergeAll(row, front), last);
      LinkNext(row, front, last);
    }
  }

  /** The version counts the two changes a run of merges can make, each at most once. */
  lemma {:induction false} MergeVersion(row: Revocation, assertions: seq<Facts>)
    ensures
      var final := MergeAll(row, assertions);
      && (row.certificateId != "" ==> final.certificateId == row.certificateId)
      && (row.needsReview ==> final.needsReview)
      && final.version == row.version
                          + (if final.certificateId != row.certificateId then 1 else 0)
                          + (if final.needsReview != row.needsReview then 1 else 0)
  {
    if assertions != [] {
      MergeVersion(row, assertions[..|assertions| - 1]);
    }
  }

  // ---- the life of a row ----

  datatype RowStep =
    | Assertion(facts: Facts)
    | Correction(reason: RevocationReason, revokedAt: Instant, justification: string, now: Instant)
    | Stamp(generation: int)

  /** One step; a refused one leaves the row alone. */
  function Step(row: Revocation, step: RowStep): Revocation {
    match step
    case Assertion(facts) => (match row.Merge(facts) case Ok(merged) => merged.0 case Err(_) => row)
    case Correction(reason, revokedAt, justification, now) =>
      (match row.Correct(reason, revokedAt, justification, now) case Ok(corrected) => corrected case Err(_) => row)
    case Stamp(generation) =>
      (match row.StampChangeGeneration(generation)
       case Ok(stamped) => stamped
       case Err(_) => row)
  }

  function Life(row: Revocation, steps: seq<RowStep>): Revocation {
    if steps == [] then row else Step(Life(row, steps[..|steps| - 1]), steps[|steps| - 1])
  }

  /** A correction the domain accepts, which does not depend on the row. */
  predicate Corrects(step: RowStep) {
    && step.Correction? && step.reason.Valid() && step.revokedAt != 0 && step.justification != "" && step.now != 0
    && step.revokedAt <= step.now + MAX_CORRECT_CLOCK_SKEW
  }

  /** One past the last accepted correction, 0 without one. */
  function SinceCorrection(steps: seq<RowStep>): (k: nat)
    ensures k <= |steps|
    ensures k > 0 ==> Corrects(steps[k - 1])
    ensures forall i | k <= i < |steps| :: !Corrects(steps[i])
  {
    if steps == [] then 0
    else if Corrects(steps[|steps| - 1]) then |steps|
    else SinceCorrection(steps[..|steps| - 1])
  }

  /** The facts in force: the last accepted correction's, or the row's own. */
  predicate InForce(row: Revocation, steps: seq<RowStep>, reason: RevocationReason, revokedAt: Instant) {
    var k := SinceCorrection(steps);
    if k == 0 then reason == row.reason && revokedAt == row.revokedAt
    else reason == steps[k - 1].reason && revokedAt == steps[k - 1].revokedAt
  }

  /** An assertion the domain accepts for this row, of other facts than these. */
  predicate Contradicts(row: Revocation, step: RowStep, reason: RevocationReason, revokedAt: Instant) {
    step.Assertion? && Accepted(row, step.facts) && !(step.facts.reason == reason && step.facts.revokedAt == revokedAt)
  }

  ghost predicate ConflictSince(row: Revocation, steps: seq<RowStep>, reason: RevocationReason, revokedAt: Instant) {
    exists i :: SinceCorrection(steps) <= i < |steps| && Contradicts(row, steps[i], reason, revokedAt)
  }

  /**
   * Over any mix of assertions, corrections and stamps: identity and source never change, reason and time are those
   * of the last accepted correction, the review flag says exactly whether a conflicting assertion came since, the
   * generation is the highest stamp, and the version moves exactly when the row does.
   */
  lemma {:induction false} RowLife(row: Revocation, steps: seq<RowStep>)
    ensures
      var final := Life(row, steps);
      && final.id == row.id && final.issuerId == row.issuerId && final.serial == row.serial &&
          final.source == row.source
      && InForce(row, steps, final.reason, final.revokedAt)
      && (final.needsReview <==>
          ConflictSince(row, steps, final.reason, final.revokedAt) || (SinceCorrection(steps) == 0 && row.needsReview))
      && HighestStamp(row, steps, final.changeGeneration)
      && row.version <= final.version && (final.version == row.version <==> final == row)
  {
    hide Step, Accepted, Corrects, Contradicts, HighestStamp, ConflictSince, InForce;
    if steps == [] {
      NothingYet(row);
    } else {
      var front, last := steps[..|steps| - 1], steps[|steps| - 1];
      assert steps == front + [last];
      RowLife(row, front);
      var before, final := Life(row, front), Life(row, steps);
      StepShape(before, last);
      SameKey(row, before, last, before.reason, before.revokedAt);
      StepSnoc(row, front, last, final.reason, final.revokedAt);
      StampSnoc(row, front, last, before.changeGeneration);
    }
  }

  lemma NothingYet(row: Revocation)
    ensures InForce(row, [], row.reason, row.revokedAt) && HighestStamp(row, [], row.changeGeneration)
    ensures !ConflictSince(row, [], row.reason, row.revokedAt) && SinceCorrection([]) == 0
  {
  }

  lemma StepShape(row: Revocation, step: RowStep)
    ensures
      var next := Step(row, step);
      && next.id == row.id && next.issuerId == row.issuerId && next.serial == row.serial && next.source == row.source
      && (Corrects(step) ==> next.reason == step.reason && next.revokedAt == step.revokedAt && !next.needsReview)
      && (!Corrects(step) ==>
            && next.reason == row.reason && next.revokedAt == row.revokedAt
            && (next.needsReview <==> row.needsReview || Contradicts(row, step, row.reason, row.revokedAt)))
      && next.changeGeneration == Stamped(step, row.changeGeneration)
      && row.version <= next.version && (next.version == row.version <==> next == row)
  {
  }

  function Stamped(step: RowStep, generation: int): int {
    if step.Stamp? && step.generation > 0 && step.generation > generation then step.generation else generation
  }

  lemma SameKey(row: Revocation, other: Revocation, step: RowStep, reason: RevocationReason, revokedAt: Instant)
    requires row.issuerId == other.issuerId && row.serial == other.serial
    ensures Contradicts(row, step, reason, revokedAt) <==> Contradicts(other, step, reason, revokedAt)
  {
  }

  ghost predicate HighestStamp(row: Revocation, steps: seq<RowStep>, generation: int) {
    && generation >= row.changeGeneration
    && (forall i | 0 <= i < |steps| && steps[i].Stamp? && steps[i].generation > 0 :: steps[i].generation <= generation)
    && (generation == row.changeGeneration || exists i :: 0 <= i < |steps| && steps[i] == Stamp(generation))
  }

  lemma StampSnoc(row: Revocation, front: seq<RowStep>, last: RowStep, generation: int)
    requires HighestStamp(row, front, generation)
    ensures HighestStamp(row, front + [last], Stamped(last, generation))
  {
    var steps := front + [last];
    assert steps[|front|] == last && forall i | 0 <= i < |front| :: steps[i] == front[i];
    if generation != row.changeGeneration {
      var i :| 0 <= i < |front| && front[i] == Stamp(generation);
      assert steps[i] == Stamp(generation);
    }
  }

  lemma SinceSnoc(front: seq<RowStep>, last: RowStep)
    ensures SinceCorrection(front + [last]) == if Corrects(last) then |front| + 1 else SinceCorrection(front)
  {
    assert (front + [last])[..|front|] == front;
  }

  lemma InForceSnoc(row: Revocation, front: seq<RowStep>, last: RowStep, reason: RevocationReason, revokedAt: Instant)
    ensures InForce(row, front + [last], reason, revokedAt) <==>
              if Corrects(last) then reason == last.reason && revokedAt == last.revokedAt
                  else InForce(row, front, reason, revokedAt)
  {
    hide Corrects;
    SinceSnoc(front, last);
    assert (front + [last])[|front|] == last && forall i | 0 <= i < |front| :: (front + [last])[i] == front[i];
    hide SinceCorrection;
  }

  lemma ConflictStays(row: Revocation, front: seq<RowStep>, last: RowStep, reason: RevocationReason, revokedAt: Instant)
    requires !Corrects(last) && (ConflictSince(row, front, reason, revokedAt) ||
               Contradicts(row, last, reason, revokedAt))
    ensures ConflictSince(row, front + [last], reason, revokedAt)
  {
    hide Corrects, Contradicts;
    var steps := front + [last];
    SinceSnoc(front, last);
    hide SinceCorrection;
    if Contradicts(row, last, reason, revokedAt) {
      assert Contradicts(row, steps[|front|], reason, revokedAt);
    } else {
      var i :| SinceCorrection(front) <= i < |front| && Contradicts(row, front[i], reason, revokedAt);
      assert Contradicts(row, steps[i], reason, revokedAt);
    }
  }

  lemma ConflictCame(row: Revocation, front: seq<RowStep>, last: RowStep, reason: RevocationReason, revokedAt: Instant)
    requires ConflictSince(row, front + [last], reason, revokedAt)
    ensures !Corrects(last) && (ConflictSince(row, front, reason, revokedAt) ||
              Contradicts(row, last, reason, revokedAt))
  {
    hide Corrects, Contradicts;
    var steps := front + [last];
    SinceSnoc(front, last);
    hide SinceCorrection;
    var i :| SinceCorrection(steps) <= i < |steps| && Contradicts(row, steps[i], reason, revokedAt);
    assert i < |front| ==> Contradicts(row, front[i], reason, revokedAt);
  }

  lemma ConflictSnoc(row: Revocation, front: seq<RowStep>, last: RowStep, reason: RevocationReason, revokedAt: Instant)
    ensures ConflictSince(row, front + [last], reason, revokedAt) <==>
              !Corrects(last) && (ConflictSince(row, front, reason, revokedAt) ||
                  Contradicts(row, last, reason, revokedAt))
  {
    hide *;
    if ConflictSince(row, front + [last], reason, revokedAt) {
      ConflictCame(row, front, last, reason, revokedAt);
    } else if !Corrects(last) &&
        (ConflictSince(row, front, reason, revokedAt) || Contradicts(row, last, reason, revokedAt)) {
      ConflictStays(row, front, last, reason, revokedAt);
    }
  }

  /** The facts in force and the conflicts since, one step on. */
  lemma StepSnoc(row: Revocation, front: seq<RowStep>, last: RowStep, reason: RevocationReason, revokedAt: Instant)
    ensures Corrects(last) ==>
              && (InForce(row, front + [last], reason, revokedAt) <==>
                  reason == last.reason && revokedAt == last.revokedAt)
              && !ConflictSince(row, front + [last], reason, revokedAt) && SinceCorrection(front + [last]) > 0
    ensures !Corrects(last) ==>
              && (InForce(row, front + [last], reason, revokedAt) <==> InForce(row, front, reason, revokedAt))
              && (ConflictSince(row, front + [last], reason, revokedAt) <==>
                  ConflictSince(row, front, reason, revokedAt) || Contradicts(row, last, reason, revokedAt))
              && SinceCorrection(front + [last]) == SinceCorrection(front)
  {
    hide *;
    SinceSnoc(front, last);
    InForceSnoc(row, front, last, reason, revokedAt);
    ConflictSnoc(row, front, last, reason, revokedAt);
  }
}
