/** When a publication may call its job done. */
module CrlJobs {
  import opened Outcomes
  import opened HexNumbers
  import opened Revocations
  import opened CrlSigner
  import opened RevocationService
  import opened CrlProtocol
  import opened CrlDemands
  import Jobs = JobQueue

  /** The current generation was given to some row and no later one replaced it on that row. */
  ghost predicate LatestStamped(n: Node) {
    n.state.revocationGeneration > 0 ==> HasGeneration(n.rows, n.state.revocationGeneration)
  }

  ghost predicate HasGeneration(rows: Rows, generation: int) {
    exists k :: k in rows && rows[k].changeGeneration == generation
  }

  lemma RowStored(rows: Rows, item: Pending, generation: int)
    requires StoreRow(rows, item, generation).Ok?
    ensures HasGeneration(StoreRow(rows, item, generation).value, generation)
  {
    var stamped := item.revocation.StampChangeGeneration(generation).value;
    assert StoreRow(rows, item, generation).value[stamped.serial.hex].changeGeneration == generation;
  }

  lemma LastStored(rows: Rows, pending: seq<Pending>, generation: int)
    requires pending != [] && StoreAll(rows, pending, generation).Ok?
    ensures HasGeneration(StoreAll(rows, pending, generation).value, generation)
  {
    hide StoreRow;
    var front := StoreAll(rows, pending[..|pending| - 1], generation).value;
    RowStored(front, pending[|pending| - 1], generation);
  }

  lemma BatchLatest(n: Node, i: nat, changes: seq<Change>)
    requires Inv(n) && LatestStamped(n)
    ensures LatestStamped(Batched(n, i, changes))
  {
    hide Inv, StoreAll, ResolveAll, HasGeneration;
    if Batched(n, i, changes) != n {
      CurrentIsFresh(n, i);
      LastStored(n.rows, ResolveAll(n.rows, changes).value, n.state.revocationGeneration + 1);
    }
  }

  lemma CorrectionLatest(n: Node, a: Action)
    requires Inv(n) && LatestStamped(n) && a.CommitCorrection?
    ensures LatestStamped(Apply(n, a))
  {
    hide Inv, StoreRow, HasGeneration, Revocation.Correct;
    if Apply(n, a) != n {
      CurrentIsFresh(n, a.txn);
      var row := n.rows[a.serial];
      var corrected := row.Correct(a.reason, a.revokedAt, a.justification, a.now).value;
      RowStored(n.rows, Pending(corrected, row.version, false), n.state.revocationGeneration + 1);
    }
  }

  ghost predicate SameLedger(n: Node, n': Node) {
    n'.rows == n.rows && n'.state.revocationGeneration == n.state.revocationGeneration
  }

  lemma ImportLatest(n: Node, i: nat, number: CRLNumber)
    requires Inv(n)
    ensures SameLedger(n, Observed(n, i, number))
  {
    hide Inv, Observed, Value;
    ImportShape(n, i, number);
  }

  lemma ReserveLatest(n: Node, i: nat, list: seq<Revocation>, inputs: ReserveInputs)
    requires Inv(n)
    ensures SameLedger(n, ReservedNext(n, i, list, inputs))
  {
    hide Inv, ReservedNext, ReserveSnapshot, IsListing, Value;
    ReserveShape(n, i, list, inputs);
  }

  lemma PublishLatest(n: Node, i: nat, r: nat, documentId: string, derKey: string)
    requires Inv(n)
    ensures SameLedger(n, Published(n, i, r, documentId, derKey))
  {
    hide Inv, SignCRL, FinalizePublish;
    if i < |n.txns| { CurrentIsFresh(n, i); }
    if Current(n, i) && r < |n.reservations| && SignCRL(n.reservations[r].snapshot).Signed? {
      var s := n.reservations[r].snapshot;
      var d := DocumentOf(documentId, derKey, s, SignCRL(s).value);
      if FinalizePublish(n.state, n.documents, n.job, d, n.reservations[r].nextPublishAt).Ok? {
        FinalizeShape(n.state, n.documents, n.job, d, n.reservations[r].nextPublishAt);
      }
    }
  }

  lemma SettingLatest(n: Node, a: Action)
    requires Inv(n) && (a.CommitSigningCertificate? || a.CommitClose?)
    ensures SameLedger(n, Apply(n, a))
  {
    hide Inv, IsUuid;
    if a.txn < |n.txns| { CurrentIsFresh(n, a.txn); }
  }

  /** Publishing, reserving and importing leave rows and generation alone. */
  lemma OtherLatest(n: Node, a: Action)
    requires Inv(n) && !a.CommitBatch? && !a.CommitCorrection?
    ensures SameLedger(n, Apply(n, a))
  {
    hide Inv, Observed, ReservedNext, Published, SavedState;
    match a
    case CommitImportedNumber(i, number) => ImportLatest(n, i, number);
    case CommitReserve(i, list, inputs) => ReserveLatest(n, i, list, inputs);
    case CommitPublish(i, r, documentId, derKey) => PublishLatest(n, i, r, documentId, derKey);
    case CommitSigningCertificate(_, _) => SettingLatest(n, a);
    case CommitClose(_, _) => SettingLatest(n, a);
    case _ =>
  }

  lemma {:induction false} RunLatest(issuer: string, actions: seq<Action>)
    ensures LatestStamped(Run(Initial(issuer), actions))
  {
    hide Inv, Apply, HasGeneration;
    if actions != [] {
      var before, a := actions[..|actions| - 1], actions[|actions| - 1];
      var n := Run(Initial(issuer), before);
      RunLatest(issuer, before);
      Reachable(issuer, before);
      StepLatest(n, a);
    }
  }

  lemma StepLatest(n: Node, a: Action)
    requires Inv(n) && LatestStamped(n)
    ensures LatestStamped(Apply(n, a))
  {
    hide Inv, Batched, Corrected, HasGeneration;
    if a.CommitBatch? {
      BatchLatest(n, a.txn, a.changes);
    } else if a.CommitCorrection? {
      CorrectionLatest(n, a);
    } else {
      OtherLatest(n, a);
      hide Apply;
    }
  }

  lemma JobOutcome(n: Node, i: nat, r: nat, documentId: string, derKey: string)
    requires i < |n.txns| && n.txns[i].state == n.state && Published(n, i, r, documentId, derKey) != n
    ensures var n' := Published(n, i, r, documentId, derKey); n'.job == JobAfter(n'.state, n.job) && n'.rows == n.rows
  {
    hide SignCRL, JobAfter, DerTaken;
  }

  /**
   * In any run, a publication that lands on a running job ends it as succeeded exactly when the list that is then
   * published covers every ledger row, and leaves it pending otherwise.
   */
  lemma JobDoneExactly(issuer: string, actions: seq<Action>, i: nat, r: nat, documentId: string, derKey: string)
    ensures
      var n := Run(Initial(issuer), actions);
      var n' := Published(n, i, r, documentId, derKey);
      n' != n && n.job == JobRunning ==>
        && (n'.job == JobSucceeded || n'.job == JobPending)
        && (n'.job == JobSucceeded <==>
            forall k | k in n'.rows :: n'.rows[k].changeGeneration <= n'.state.publishedGeneration)
  {
    hide Run, Inv, Published, HasGeneration;
    var n := Run(Initial(issuer), actions);
    var n' := Published(n, i, r, documentId, derKey);
    if n' != n && n.job == JobRunning {
      var a := CommitPublish(i, r, documentId, derKey);
      assert (actions + [a])[..|actions|] == actions;
      Reachable(issuer, actions);
      RunStep(issuer, actions, a);
      Reachable(issuer, actions + [a]);
      RunLatest(issuer, actions + [a]);
      PublishedTxn(n, i, r, documentId, derKey);
      CurrentIsFresh(n, i);
      JobOutcome(n, i, r, documentId, derKey);
      CoveredExactly(n');
    }
  }

  lemma RunStep(issuer: string, actions: seq<Action>, a: Action)
    ensures Run(Initial(issuer), actions + [a]) == Apply(Run(Initial(issuer), actions), a)
  {
    assert (actions + [a])[..|actions|] == actions;
  }

  lemma PublishedTxn(n: Node, i: nat, r: nat, documentId: string, derKey: string)
    requires Published(n, i, r, documentId, derKey) != n
    ensures i < |n.txns| && Current(n, i)
  {
  }

  /** Everything is covered exactly when the published generation is the current one. */
  lemma CoveredExactly(n: Node)
    requires Inv(n) && LatestStamped(n)
    ensures (forall k | k in n.rows :: n.rows[k].changeGeneration <= n.state.publishedGeneration) <==>
            n.state.revocationGeneration <= n.state.publishedGeneration
  {
    StoredPublication(n);
    assert LedgerOk(n.issuer, n.rows, n.state.revocationGeneration);
    if n.state.revocationGeneration > n.state.publishedGeneration {
      var k :| k in n.rows && n.rows[k].changeGeneration == n.state.revocationGeneration;
    }
  }

  lemma StoredPublication(n: Node)
    requires Inv(n)
    ensures n.state.publishedGeneration >= 0
  {
    if n.state.publishedDocumentId != "" {
      var i := PublishedReservation(n);
      assert ReservationInv(n, n.reservations[i]);
    }
  }

  /**
   * Work gets done: while a change is unpublished, the key has a job row, and a claim without a limit at or after the
   * row's time leaves the job running.
   */
  lemma UncoveredChangeClaimed(issuer: string, actions: seq<Action>, q: Jobs.Queue, q': Jobs.Queue, c: Claim)
    requires q.IndexOk() && JobAt(q, issuer) == Run(Initial(issuer), actions).job
    requires ClaimsAll(q, q', c)
    requires
      var n := Run(Initial(issuer), actions);
      exists k :: k in n.rows && n.rows[k].changeGeneration > n.state.publishedGeneration
    ensures DedupKey(issuer) in q.byDedup && q.byDedup[DedupKey(issuer)] in q.jobs
    ensures
      var row := q.jobs[q.byDedup[DedupKey(issuer)]];
      if row.state == Jobs.Pending && row.availableAt != 0 && c.now < row.availableAt then JobAt(q', issuer) == JobPending
      else JobAt(q', issuer) == JobRunning
  {
    UncoveredChangeHasWork(issuer, actions);
    hide Run, ClaimsAll, DedupKey, Jobs.Queue.IndexOk;
    ClaimedRow(q, q', c, q.byDedup[DedupKey(issuer)]);
  }

  // ---- the protocol's job is the job row ----

  /** A demand in the queue, whether asked for or left by a batch, is the demand in the protocol. */
  lemma DemandStep(n: Node, q: Jobs.Queue, i: nat, changes: seq<Change>, generation: int)
    requires Inv(n) && q.Valid() && |q.jobs| < Jobs.MAX_ROWS && JobAt(q, n.issuer) == n.job
    ensures
      var q' := Jobs.Upsert(q, DemandFor(n.issuer, generation));
      && JobAt(q', n.issuer) == Apply(n, RequestPublication).job
      && (Batched(n, i, changes) != n ==> JobAt(q', n.issuer) == Batched(n, i, changes).job)
  {
    hide Inv, ResolveAll, StoreAll, JobAt, DemandFor, Jobs.Upsert, Jobs.Queue.Valid;
    DemandSeen(q, n.issuer, generation, n.issuer);
  }

  /** A claim of the key's row when it is due is the claim in the protocol. */
  lemma ClaimStep(n: Node, q: Jobs.Queue, q': Jobs.Queue, c: Claim)
    requires q.IndexOk() && JobAt(q, n.issuer) == n.job && ClaimsAll(q, q', c)
    requires DedupKey(n.issuer) in q.byDedup ==>
               q.byDedup[DedupKey(n.issuer)] in q.jobs && q.jobs[q.byDedup[DedupKey(n.issuer)]].availableAt <= c.now
    ensures JobAt(q', n.issuer) == Apply(n, ClaimJob).job
  {
    hide ClaimsAll, DedupKey, Jobs.Queue.IndexOk, Batched, Corrected, Observed, ReservedNext, Published, SavedState;
    if DedupKey(n.issuer) in q.byDedup {
      ClaimedRow(q, q', c, q.byDedup[DedupKey(n.issuer)]);
    } else {
      SameIndex(q, q', c);
    }
  }

  lemma SameIndex(q: Jobs.Queue, q': Jobs.Queue, c: Claim)
    requires ClaimsAll(q, q', c)
    ensures q'.byDedup == q.byDedup
  {
  }

  /** The end of a publication saved on the job row is its end in the protocol. */
  lemma PublishStep(n: Node, q: Jobs.Queue, jobId: string, i: nat, r: nat, documentId: string, derKey: string,
      now: Instant)
    requires Inv(n) && q.IndexOk() && jobId in q.jobs && q.jobs[jobId].dedupKey == DedupKey(n.issuer)
    requires JobAt(q, n.issuer) == n.job && Published(n, i, r, documentId, derKey) != n
    ensures var n' := Published(n, i, r, documentId, derKey);
            JobAt(QueueAfter(q, jobId, n'.job, now), n.issuer) == n'.job
  {
    hide Inv, Published, DedupKey, Jobs.Queue.IndexOk, QueueAfter, JobAfter;
    PublishedTxn(n, i, r, documentId, derKey);
    CurrentIsFresh(n, i);
    JobOutcome(n, i, r, documentId, derKey);
    Jobs.KeyFinds(q, DedupKey(n.issuer));
    OutcomeSeen(q, jobId, n.issuer, Published(n, i, r, documentId, derKey).state, now, n.issuer);
  }
}
