/** The in-memory ledger and CRL repositories, and the service transactions that run on them. */
module RevocationStore {
  import opened Outcomes
  import opened HexNumbers
  import opened Ordering
  import opened Revocations
  import opened CrlSigner
  import opened RevocationService
  import opened BatchFacts
  import opened CrlDemands
  import Jobs = JobQueue

  type RowKey = (string, string)

  /** A correction's history entry: the ledger is evidence. */
  datatype Revision = Revision(revocationId: string, revisionNo: int, previousValues: string, newValues: string,
      justification: string)

  type RevisionKey = (string, int)

  /** One published snapshot of the store. */
  datatype StoreState = StoreState(
    revocations: map<RowKey, Revocation>,
    crlStates: map<string, CRLState>,
    documents: map<string, Document>,
    documentsByDer: map<string, string>,
    revisions: map<RevisionKey, Revision>,
    queue: Jobs.Queue)
  {
    ghost predicate Valid() {
      && queue.KeysHaveRows()
      && (forall k | k in revocations :: revocations[k].issuerId == k.0 && revocations[k].serial.hex == k.1)
      && (forall i | i in crlStates :: crlStates[i].caKeyGenerationId == i)
      && (forall id | id in documents :: documents[id].id == id)
      && IndexAgrees()
    }

    /** The digest index answers exactly as a scan of the documents would. */
    ghost predicate IndexAgrees() {
      && (forall d | d in documentsByDer ::
          d != "" && documentsByDer[d] in documents && documents[documentsByDer[d]].derKey == d)
      && (forall id | id in documents && documents[id].derKey != "" ::
            documents[id].derKey in documentsByDer && documentsByDer[documents[id].derKey] == id)
    }

    /** One issuer's part of the ledger. */
    ghost function RowsOf(issuer: string): Rows {
      map k | k in (set key | key in revocations && key.0 == issuer :: key.1) :: revocations[(issuer, k)]
    }

    lemma RowsOfAt(issuer: string, k: string)
      ensures k in RowsOf(issuer) <==> (issuer, k) in revocations
      ensures (issuer, k) in revocations ==> RowsOf(issuer)[k] == revocations[(issuer, k)]
    {
      if (issuer, k) in revocations { assert (issuer, k).0 == issuer && (issuer, k).1 == k; }
    }

    function With(row: Revocation): StoreState {
      this.(revocations := revocations[(row.issuerId, row.serial.hex) := row])
    }

    lemma PutRow(row: Revocation, issuer: string)
      ensures With(row).RowsOf(issuer) == if issuer == row.issuerId then RowsOf(issuer)[row.serial.hex := row]
                else RowsOf(issuer)
    {
      hide StoreState.RowsOf;
      var before, after := RowsOf(issuer), With(row).RowsOf(issuer);
      var expected := if issuer == row.issuerId then before[row.serial.hex := row] else before;
      forall k: string ensures (k in after <==> k in expected) && (k in after ==> after[k] == expected[k]) {
        With(row).RowsOfAt(issuer, k);
        RowsOfAt(issuer, k);
      }
      assert after.Keys == expected.Keys;
    }
  }

  /** What a publication brings to its transaction. */
  datatype PublishInputs = PublishInputs(
    jobId: string,
    reservation: Reservation,
    crl: SignedCRL,
    documentId: string,
    derKey: string,
    signer: Result<()>,
    now: Instant)
  {
    function Issuer(): string { reservation.snapshot.caKeyGenerationId }

    function Document(): RevocationService.Document { DocumentOf(documentId, derKey, reservation.snapshot, crl) }
  }

  /** The working copy one transaction callback runs on. */
  class Tx {
    var revocations: map<RowKey, Revocation>
    var crlStates: map<string, CRLState>
    var documents: map<string, Document>
    var documentsByDer: map<string, string>
    var revisions: map<RevisionKey, Revision>
    var queue: Jobs.Queue

    function View(): StoreState
      reads this
    {
      StoreState(revocations, crlStates, documents, documentsByDer, revisions, queue)
    }

    constructor (root: StoreState)
      ensures View() == root
    {
      revocations := root.revocations;
      crlStates := root.crlStates;
      documents := root.documents;
      documentsByDer := root.documentsByDer;
      revisions := root.revisions;
      queue := root.queue;
    }

    method FindForUpdate(issuer: string, serial: Serial) returns (r: Result<Revocation>)
      requires View().Valid()
      ensures var rows := View().RowsOf(issuer);
              r == if serial.hex in rows then Ok(rows[serial.hex]) else Err(NotFound)
    {
      View().RowsOfAt(issuer, serial.hex);
      var key := (issuer, serial.hex);
      if key !in revocations { return Err(NotFound); }
      return Ok(revocations[key]);
    }

    method Insert(revocation: Revocation) returns (r: Result<()>)
      requires View().Valid()
      modifies this`revocations
      ensures View().Valid()
      ensures r == if revocation.serial.hex in old(View().RowsOf(revocation.issuerId)) then Err(Duplicate) else Ok(())
      ensures View() == if r.Ok? then old(View()).With(revocation) else old(View())
    {
      View().RowsOfAt(revocation.issuerId, revocation.serial.hex);
      var key := (revocation.issuerId, revocation.serial.hex);
      if key in revocations { return Err(Duplicate); }
      revocations := revocations[key := revocation];
      return Ok(());
    }

    /** Stores the row's own final version; only the stored version is compared. */
    method Save(revocation: Revocation, expectedVersion: int) returns (r: Result<()>)
      requires View().Valid()
      modifies this`revocations
      ensures View().Valid()
      ensures var rows := old(View().RowsOf(revocation.issuerId));
              r == if revocation.serial.hex !in rows then Err(NotFound)
                   else if rows[revocation.serial.hex].version != expectedVersion then Err(VersionConflict)
                   else Ok(())
      ensures View() == if r.Ok? then old(View()).With(revocation) else old(View())
    {
      View().RowsOfAt(revocation.issuerId, revocation.serial.hex);
      var key := (revocation.issuerId, revocation.serial.hex);
      if key !in revocations { return Err(NotFound); }
      if revocations[key].version != expectedVersion { return Err(VersionConflict); }
      revocations := revocations[key := revocation];
      return Ok(());
    }

    /** Append-only: a revision number is used once, and no recorded revision ever changes. */
    method AppendRevision(revision: Revision) returns (r: Result<()>)
      modifies this`revisions
      ensures r == if (revision.revocationId, revision.revisionNo) in old(revisions) then Err(Duplicate) else Ok(())
      ensures old(revisions).Items <= revisions.Items
      ensures r.Ok? ==> revisions == old(revisions)[(revision.revocationId, revision.revisionNo) := revision]
      ensures r.Err? ==> revisions == old(revisions)
    {
      var key := (revision.revocationId, revision.revisionNo);
      if key in revisions { return Err(Duplicate); }
      revisions := revisions[key := revision];
      return Ok(());
    }

    /** Map iteration order is arbitrary; the sort makes the listing reproducible. */
    method ListByIssuer(issuer: string) returns (list: seq<Revocation>)
      requires View().Valid()
      ensures IsListing(list, View().RowsOf(issuer))
    {
      var out: seq<Revocation> := [];
      var left := revocations.Keys;
      while left != {}
        invariant left <= revocations.Keys
        invariant forall row | row in out ::
                  (issuer, row.serial.hex) in revocations.Keys - left && revocations[(issuer, row.serial.hex)] == row
        invariant forall k | k in revocations.Keys - left && k.0 == issuer :: revocations[k] in out
        invariant DistinctSerials(out)
        decreases left
      {
        var key :| key in left;
        left := left - {key};
        if key.0 == issuer {
          assert key == (issuer, key.1);
          out := out + [revocations[key]];
        }
      }
      forall k: string
        ensures (issuer, k) in revocations ==> revocations[(issuer, k)] in out
        ensures k in View().RowsOf(issuer) <==> (issuer, k) in revocations
        ensures (issuer, k) in revocations ==> View().RowsOf(issuer)[k] == revocations[(issuer, k)]
      {
        View().RowsOfAt(issuer, k);
        assert (issuer, k).0 == issuer;
      }
      list := Sort(out, SerialLe);
      SortedListing(out, View().RowsOf(issuer));
    }

    method GetStateForUpdate(issuer: string) returns (r: Result<CRLState>)
      ensures r == if issuer in crlStates then Ok(crlStates[issuer]) else Err(NotFound)
    {
      if issuer !in crlStates { return Err(NotFound); }
      return Ok(crlStates[issuer]);
    }

    /** An absent row is inserted only for expected version 0. */
    method SaveState(state: CRLState, expectedVersion: int) returns (r: Result<()>)
      requires View().Valid()
      modifies this`crlStates
      ensures View().Valid()
      ensures var id := state.caKeyGenerationId;
              r == if id !in old(crlStates) then (if expectedVersion != 0 then Err(NotFound) else Ok(()))
                   else if old(crlStates)[id].version != expectedVersion then Err(VersionConflict)
                   else Ok(())
      ensures crlStates == if r.Ok? then old(crlStates)[state.caKeyGenerationId := state] else old(crlStates)
    {
      var id := state.caKeyGenerationId;
      if id !in crlStates {
        if expectedVersion != 0 { return Err(NotFound); }
        crlStates := crlStates[id := state];
        return Ok(());
      }
      if crlStates[id].version != expectedVersion { return Err(VersionConflict); }
      crlStates := crlStates[id := state];
      return Ok(());
    }

    /** Documents are immutable, and the digest index refuses a second copy as a scan would. */
    method InsertDocument(document: Document) returns (r: Result<()>)
      requires View().Valid()
      modifies this`documents, this`documentsByDer
      ensures View().Valid()
      ensures r == if document.id in old(documents) || DerTaken(old(documents), document.derKey) then Err(Duplicate)
                else Ok(())
      ensures documents == if r.Ok? then old(documents)[document.id := document] else old(documents)
      ensures r.Err? ==> documentsByDer == old(documentsByDer)
    {
      if document.id in documents { return Err(Duplicate); }
      if document.derKey != "" {
        if document.derKey in documentsByDer {
          assert documents[documentsByDer[document.derKey]].derKey == document.derKey;
          return Err(Duplicate);
        }
      }
      documents := documents[document.id := document];
      if document.derKey != "" {
        documentsByDer := documentsByDer[document.derKey := document.id];
      }
      return Ok(());
    }

    /** resolveChange against the stored row. */
    method Resolve(change: Change) returns (resolved: Result<Option<Pending>>)
      requires View().Valid()
      ensures resolved == ResolveChange(View().RowsOf(change.issuerId), change)
    {
      var existing := FindForUpdate(change.issuerId, change.serial);
      match existing {
        case Ok(found) =>
          var merged := found.Merge(FactsOf(change, ""));
          match merged {
            case Ok(m) => return Ok(if m.1 then Some(Pending(m.0, found.version, false)) else None);
            case Err(e) => return Err(e);
          }
        case Err(_) =>
          var wellFormedId := ParseUuid(change.freshId);
          if !wellFormedId { return Err(InvalidValue); }
          var created := NewRevocation(FactsOf(change, change.freshId));
          match created {
            case Ok(row) => return Ok(Some(Pending(row, 0, true)));
            case Err(e) => return Err(e);
          }
      }
    }

    /** Stamp and write one resolved row. */
    method StoreResolved(item: Pending, generation: int, ghost issuer: string) returns (wrote: Result<()>)
      requires View().Valid() && item.revocation.issuerId == issuer
      modifies this`revocations
      ensures View().Valid()
      ensures match StoreRow(old(View().RowsOf(issuer)), item, generation)
              case Ok(rows) => wrote == Ok(()) && View().RowsOf(issuer) == rows
              case Err(e) => wrote == Err(e) && View() == old(View())
      ensures forall other | other != issuer :: View().RowsOf(other) == old(View().RowsOf(other))
    {
      var stamped := item.revocation.StampChangeGeneration(generation);
      if stamped.Err? { return Err(stamped.error); }
      if item.isNew {
        wrote := Insert(stamped.value);
      } else {
        wrote := Save(stamped.value, item.expectedVersion);
      }
      forall other
        ensures wrote.Ok? ==>
                  View().RowsOf(other) == var rows := old(View()).RowsOf(other);
                                          if other != issuer then rows
                                          else rows[stamped.value.serial.hex := stamped.value]
      {
        old(View()).PutRow(stamped.value, other);
      }
    }

    method ResolveBatch(issuer: string, changes: seq<Change>) returns (r: Result<seq<Pending>>)
      requires View().Valid() && forall c | c in changes :: c.issuerId == issuer
      ensures r == ResolveAll(View().RowsOf(issuer), changes)
      ensures r.Ok? ==> forall item | item in r.value :: item.revocation.issuerId == issuer
    {
      hide StoreState.RowsOf, StoreState.Valid, ResolveChange;
      ghost var rows := View().RowsOf(issuer);
      RowsIssuer(View(), issuer);
      var pending: seq<Pending> := [];
      for i := 0 to |changes|
        invariant ResolveAll(rows, changes[..i]) == Ok(pending)
        invariant forall item | item in pending :: item.revocation.issuerId == issuer
      {
        assert changes[..i + 1][..i] == changes[..i];
        assert changes[i] in changes;
        var resolved := Resolve(changes[i]);
        ResolvedIssuer(rows, changes[i], issuer);
        if resolved.Err? {
          ResolveAllFails(rows, changes, i);
          return Err(resolved.error);
        }
        if resolved.value.Some? { pending := pending + [resolved.value.value]; }
      }
      assert changes[..|changes|] == changes;
      return Ok(pending);
    }

    method StoreBatch(issuer: string, pending: seq<Pending>, generation: int) returns (r: Result<()>)
      requires View().Valid() && forall item | item in pending :: item.revocation.issuerId == issuer
      modifies this`revocations
      ensures View().Valid()
      ensures match StoreAll(old(View().RowsOf(issuer)), pending, generation)
              case Ok(rows) => r == Ok(()) && View().RowsOf(issuer) == rows
              case Err(e) => r == Err(e)
      ensures forall other | other != issuer :: View().RowsOf(other) == old(View().RowsOf(other))
    {
      hide StoreState.RowsOf, StoreState.Valid, StoreRow;
      ghost var rows := View().RowsOf(issuer);
      for i := 0 to |pending|
        invariant View().Valid()
        invariant StoreAll(rows, pending[..i], generation) == Ok(View().RowsOf(issuer))
        invariant forall other | other != issuer :: View().RowsOf(other) == old(View().RowsOf(other))
      {
        assert pending[..i + 1][..i] == pending[..i];
        var wrote := StoreResolved(pending[i], generation, issuer);
        if wrote.Err? {
          StoreAllFails(rows, pending, generation, i);
          return Err(wrote.error);
        }
      }
      assert pending[..|pending|] == pending;
      return Ok(());
    }

    /** applyIssuerBatch: resolve every assertion first, then write; the caller discards this copy on an error. */
    method ApplyIssuerBatch(issuer: string, changes: seq<Change>) returns (r: Result<(nat, int)>)
      requires View().Valid() && forall c | c in changes :: c.issuerId == issuer
      modifies this`revocations, this`crlStates, this`queue
      ensures View().Valid()
      ensures if issuer !in old(crlStates) then r == Err(InvalidValue)
              else match RevocationService.ApplyIssuerBatch(old(crlStates)[issuer], old(View().RowsOf(issuer)), changes)
              case Ok(b) =>
                && r == Ok((b.changed, b.generation))
                && View().RowsOf(issuer) == b.rows
                && crlStates == old(crlStates)[issuer := b.state]
                && queue == Demanded(old(queue), issuer, b)
              case Err(e) => r == Err(e)
      ensures forall other | other != issuer :: View().RowsOf(other) == old(View().RowsOf(other))
    {
      hide ResolveAll, StoreAll, StoreState.RowsOf, StoreState.Valid, DemandFor, Jobs.Upsert;
      StateKey(View(), issuer);
      var read := GetStateForUpdate(issuer);
      if read.Err? { return Err(InvalidValue); }
      var state := read.value;
      var resolved := ResolveBatch(issuer, changes);
      if resolved.Err? { return Err(resolved.error); }
      var pending := resolved.value;
      if pending == [] { return Ok((0, 0)); }
      var stateVersion := state.version;
      state := state.BumpRevocationGeneration();
      var stored := StoreBatch(issuer, pending, state.revocationGeneration);
      if stored.Err? { return Err(stored.error); }
      ghost var written := View();
      var saved := SaveState(state, stateVersion);
      DemandKeeps(View(), issuer, state.revocationGeneration);
      queue := Jobs.Upsert(queue, DemandFor(issuer, state.revocationGeneration));
      RowsOnly(written, View());
      return Ok((|pending|, state.revocationGeneration));
    }

    /** One issuer's bucket, while the issuer is still as `before` has it. */
    method ApplyBucket(issuer: string, changes: seq<Change>, ghost before: StoreState) returns (r: Result<(nat, int)>)
      requires View().Valid() && issuer in IssuersOf(changes) && IssuerSame(before, View(), issuer)
      modifies this`revocations, this`crlStates, this`queue
      ensures View().Valid()
      ensures r.Ok? <==> BatchOf(before, issuer, changes).Ok?
      ensures r.Err? ==> r.error == BatchOf(before, issuer, changes).error
      ensures r.Ok? ==> r.value == (BatchOf(before, issuer, changes).value.changed,
                BatchOf(before, issuer, changes).value.generation)
      ensures r.Ok? ==> IssuerAfter(before, View(), issuer, changes)
      ensures r.Ok? ==> queue == Demanded(old(queue), issuer, BatchOf(before, issuer, changes).value)
      ensures r.Ok? ==> forall other | other != issuer :: IssuerSame(old(View()), View(), other)
    {
      hide StoreState.Valid, StoreState.RowsOf, RevocationService.ApplyIssuerBatch, ForIssuer;
      OneIssuer(changes, issuer);
      r := ApplyIssuerBatch(issuer, ForIssuer(changes, issuer));
    }

    /** The loop of applyRevocations over the issuers in their one locking order. */
    method ApplyRevocations(changes: seq<Change>) returns (r: Result<(nat, map<string, int>)>)
      requires View().Valid()
      modifies this`revocations, this`crlStates, this`queue
      ensures View().Valid()
      ensures r.Ok? ==> queue == AllDemanded(old(View()), SortedIssuers(changes), changes)
      ensures r.Ok? <==> forall issuer | issuer in IssuersOf(changes) :: BatchOf(old(View()), issuer, changes).Ok?
      ensures r.Err? ==> FirstRefusal(old(View()), SortedIssuers(changes), changes, r.error)
      ensures r.Ok? ==> forall issuer :: IssuerAfter(old(View()), View(), issuer, changes)
      ensures r.Ok? ==> r.value.0 == TotalChanged(old(View()), SortedIssuers(changes), changes)
      ensures r.Ok? ==> GenerationsExact(old(View()), r.value.1, SortedIssuers(changes), changes)
    {
      hide StoreState.Valid, BatchOf, IssuerSame, IssuerAfter, Distinct, IssuersOf, SortedIssuers, GenerationsExact,
          FirstRefusal, Demanded, TotalChanged, AllDemanded, StoreState.RowsOf, Progress;
      ghost var before := View();
      var order := SortedIssuers(changes);
      OrderExact(changes);
      SameAtFirst(before, changes);
      GenerationsNone(before, changes);
      QueueReady(before);
      OneIssuerMore(before, order, 0, changes);
      var changed := 0;
      var generations: map<string, int> := map[];
      for i := 0 to |order|
        invariant View().Valid()
        invariant forall k | 0 <= k < i :: BatchOf(before, order[k], changes).Ok?
        invariant Progress(before, View(), order[..i], changes)
        invariant changed == TotalChanged(before, order[..i], changes)
        invariant GenerationsExact(before, generations, order[..i], changes)
        invariant queue == AllDemanded(before, order[..i], changes)
      {
        var issuer := order[i];
        NotBefore(order, i);
        OneIssuerMore(before, order, i, changes);
        assert order[..i + 1] == order[..i] + [issuer];
        assert issuer in order;
        ghost var mid := View();
        StillSame(before, mid, order[..i], issuer, changes);
        var batch := ApplyBucket(issuer, changes, before);
        if batch.Err? {
          Refuses(before, order, i, changes);
          return Err(batch.error);
        }
        ProgressMore(before, mid, View(), order[..i], issuer, changes);
        GenerationsMore(before, generations, order[..i], issuer, changes);
        if batch.value.0 != 0 {
          changed := changed + batch.value.0;
          generations := generations[issuer := batch.value.1];
        }
      }
      assert order[..|order|] == order;
      AllAfter(before, View(), order, changes);
      return Ok((changed, generations));
    }

    /**
     * reserveSnapshot: number, listing and generation come from one transaction. `signer` is what the checks of the
     * authority, its key and its stored secret answer, `inputs` what the issuer certificate and the settings give.
     */
    method ReserveSnapshot(issuer: string, signer: Result<()>,
        inputs: Result<ReserveInputs>) returns (r: Result<Reservation>)
      requires View().Valid()
      modifies this`crlStates
      ensures View().Valid()
      ensures r.Err? <==> ReserveRefused(old(View()), issuer, signer, inputs).Some?
      ensures r.Err? ==> Some(r.error) == ReserveRefused(old(View()), issuer, signer, inputs)
      ensures r.Err? ==> crlStates == old(crlStates)
      ensures r.Ok? ==>
                && IsListing(r.value.snapshot.revoked, View().RowsOf(issuer))
                && var spec := RevocationService.ReserveSnapshot(old(crlStates)[issuer], r.value.snapshot.revoked,
                    inputs.value);
                r.value == spec.0 && crlStates == old(crlStates)[issuer := spec.1]
    {
      var read := GetStateForUpdate(issuer);
      if read.Err? { return Err(InvalidValue); }
      var state := read.value;
      if signer.Err? { return Err(signer.error); }
      if state.signingCACertificateId == "" { return Err(NotFound); }
      if inputs.Err? { return Err(inputs.error); }
      var revoked := ListByIssuer(issuer);
      var (reservation, reserved) := RevocationService.ReserveSnapshot(state, revoked, inputs.value);
      var saved := SaveState(reserved, state.version);
      return Ok(reservation);
    }

    /** finalizePublish; `signer` is what the repeated checks of the authority and its key answer. */
    method FinalizePublish(p: PublishInputs) returns (r: Result<bool>)
      requires View().Valid()
      modifies this`crlStates, this`documents, this`documentsByDer, this`queue
      ensures View().Valid()
      ensures match PublicationOf(old(View()), p)
              case Ok(done) =>
                && r == Ok(done.published) && documents == done.documents
                && documents == old(documents)[p.documentId := Document(p.documentId, p.Issuer(), p.derKey,
                                                                        p.reservation.snapshot.coveredGeneration,
                                                                            p.crl)]
                && crlStates == old(crlStates)[p.Issuer() := done.state]
                && queue == QueueAfter(old(queue), p.jobId, done.job, p.now)
              case Err(e) => r == Err(e)
    {
      hide StoreState.Valid, StoreState.IndexAgrees, QueueAfter, StateOf, DerTaken, Verdict;
      StateKey(View(), p.Issuer());
      var read := GetStateForUpdate(p.Issuer());
      if read.Err? { return Err(NotFound); }
      var state := read.value;
      if p.signer.Err? { return Err(p.signer.error); }
      if p.jobId !in queue.jobs { return Err(InvalidValue); }
      var job := queue.jobs[p.jobId];
      if job.dedupKey != DedupKey(p.Issuer()) { return Err(InvalidValue); }
      RowState(job);
      var document := p.Document();
      var idOk := ParseUuid(document.id);
      if !idOk { return Err(InvalidValue); }
      var inserted := InsertDocument(document);
      if inserted.Err? { return Err(inserted.error); }
      r := Advance(state, document, p.reservation.nextPublishAt);
      if r.Err? { return; }
      EndJob(p.jobId, JobAfter(crlStates[p.Issuer()], StateOf(job.state)), p.now);
    }

    /** A running job is finished, or left waiting while changes remain; any other row stays as it is. */
    method EndJob(jobId: string, after: JobState, now: Instant)
      requires View().Valid() && jobId in queue.jobs
      modifies this`queue
      ensures View().Valid() && queue == QueueAfter(old(queue), jobId, after, now)
    {
      QueueKeeps(queue, jobId, after, now);
      var job := queue.jobs[jobId];
      if job.state == Jobs.Running { queue := Jobs.SaveRow(queue, Outcome(job, after, now), job.version); }
    }

    /** The verdict on a stored document: moved forward, superseded or refused. */
    method Advance(state: CRLState, document: Document, publishAt: Instant) returns (r: Result<bool>)
      requires View().Valid() && state.caKeyGenerationId in crlStates && crlStates[state.caKeyGenerationId] == state
      modifies this`crlStates
      ensures View().Valid()
      ensures match Verdict(state, document, publishAt)
              case Ok(v) => r == Ok(v.1) && crlStates == old(crlStates)[state.caKeyGenerationId := v.0]
              case Err(e) => r == Err(e)
    {
      var refusal := state.CanPublish(document.crl.number, document.coveredGeneration);
      if refusal == None {
        var marked := state.MarkPublished(document.id, document.crl.number, document.coveredGeneration, publishAt);
        if marked.Err? { return Err(marked.error); }
        var saved := SaveState(marked.value, state.version);
        return Ok(true);
      }
      if refusal.value != Conflict { return Err(refusal.value); }
      return Ok(false);
    }
  }

  /** Store.Write: run on a copy, publish the copy only when the callback succeeds. */
  class UnitOfWork {
    var root: StoreState

    constructor (initial: StoreState)
      ensures root == initial
    {
      root := initial;
    }

    /** applyRevocations over one issuer: everything of the batch becomes visible, or nothing at all does. */
    method WriteBatch(issuer: string, changes: seq<Change>) returns (r: Result<(nat, int)>)
      requires root.Valid() && forall c | c in changes :: c.issuerId == issuer
      modifies this
      ensures root.Valid()
      ensures issuer !in old(root).crlStates ==> r == Err(InvalidValue) && root == old(root)
      ensures issuer in old(root).crlStates ==>
                match RevocationService.ApplyIssuerBatch(old(root).crlStates[issuer], old(root).RowsOf(issuer), changes)
                case Ok(b) =>
                  && r == Ok((b.changed, b.generation))
                  && root.RowsOf(issuer) == b.rows && root.crlStates == old(root).crlStates[issuer := b.state]
                  && root.queue == Demanded(old(root).queue, issuer, b)
                  && root.documents == old(root).documents
                  && forall other | other != issuer :: root.RowsOf(other) == old(root).RowsOf(other)
                case Err(e) => r == Err(e) && root == old(root)
    {
      var tx := new Tx(root);
      r := tx.ApplyIssuerBatch(issuer, changes);
      if r.Ok? { root := tx.View(); }
    }

    /** applyRevocations: several issuers in one transaction. */
    method WriteRevocations(changes: seq<Change>) returns (r: Result<(nat, map<string, int>)>)
      requires root.Valid()
      modifies this
      ensures root.Valid()
      ensures r.Ok? <==> AllNamed(changes) && forall issuer | issuer in IssuersOf(changes) ::
                BatchOf(old(root), issuer, changes).Ok?
      ensures !AllNamed(changes) ==> r == Err(InvalidValue)
      ensures r.Err? && AllNamed(changes) ==> FirstRefusal(old(root), SortedIssuers(changes), changes, r.error)
      ensures r.Ok? ==> forall issuer :: IssuerAfter(old(root), root, issuer, changes)
      ensures r.Ok? ==> r.value.0 == TotalChanged(old(root), SortedIssuers(changes), changes)
      ensures r.Ok? ==> GenerationsExact(old(root), r.value.1, SortedIssuers(changes), changes)
      ensures r.Ok? ==> root.queue == AllDemanded(old(root), SortedIssuers(changes), changes)
      ensures r.Ok? ==> root.documents == old(root).documents && root.revisions == old(root).revisions
      ensures r.Err? ==> root == old(root)
    {
      var named := CheckNames(changes);
      if !named { return Err(InvalidValue); }
      var tx := new Tx(root);
      r := tx.ApplyRevocations(changes);
      if r.Ok? { root := tx.View(); }
    }

    method WritePublication(p: PublishInputs) returns (r: Result<bool>)
      requires root.Valid()
      modifies this
      ensures root.Valid()
      ensures match PublicationOf(old(root), p)
              case Ok(done) =>
                && r == Ok(done.published)
                && root.documents == done.documents && root.crlStates == old(root).crlStates[p.Issuer() := done.state]
                && root.queue == QueueAfter(old(root).queue, p.jobId, done.job, p.now)
                && root.revocations == old(root).revocations
              case Err(e) => r == Err(e) && root == old(root)
    {
      hide QueueAfter;
      var tx := new Tx(root);
      r := tx.FinalizePublish(p);
      if r.Ok? { root := tx.View(); }
    }
  }

  lemma QueueReady(s: StoreState)
    requires s.Valid()
    ensures s.queue.KeysHaveRows()
  {
  }

  lemma DemandKeeps(s: StoreState, issuer: string, generation: int)
    requires s.Valid()
    ensures s.queue.KeysHaveRows()
    ensures s.(queue := Jobs.Upsert(s.queue, DemandFor(issuer, generation))).Valid()
  {
  }

  /** The refusals before a number is reserved, in the order of the checks. */
  ghost function ReserveRefused(s: StoreState, issuer: string, signer: Result<()>,
      inputs: Result<ReserveInputs>): Option<Error> {
    if issuer !in s.crlStates then Some(InvalidValue)
    else if signer.Err? then Some(signer.error)
    else if s.crlStates[issuer].signingCACertificateId == "" then Some(NotFound)
    else if inputs.Err? then Some(inputs.error)
    else None
  }

  /** What a publication does to a store, with the job state read from the named row. */
  ghost function PublicationOf(s: StoreState, p: PublishInputs): Result<Publication> {
    if p.Issuer() !in s.crlStates then Err(NotFound)
    else if p.signer.Err? then Err(p.signer.error)
    else if p.jobId !in s.queue.jobs || s.queue.jobs[p.jobId].dedupKey != DedupKey(p.Issuer()) then Err(InvalidValue)
    else
      RevocationService.FinalizePublish(s.crlStates[p.Issuer()], s.documents, StateOf(s.queue.jobs[p.jobId].state),
                                        p.Document(), p.reservation.nextPublishAt)
  }

  lemma RowState(job: Jobs.Job)
    ensures StateOf(job.state) != NoJob && (StateOf(job.state) == JobRunning <==> job.state == Jobs.Running)
  {
  }

  lemma QueueKeeps(q: Jobs.Queue, jobId: string, after: JobState, now: Instant)
    requires q.KeysHaveRows() && jobId in q.jobs
    ensures QueueAfter(q, jobId, after, now).KeysHaveRows()
  {
  }

  /** The queue after a batch of one issuer: a demand for its new generation if it changed anything. */
  ghost function Demanded(q: Jobs.Queue, issuer: string, b: Batch): (r: Jobs.Queue)
    requires q.KeysHaveRows()
    ensures r.KeysHaveRows()
  {
    if b.changed == 0 then q else Jobs.Upsert(q, DemandFor(issuer, b.generation))
  }

  ghost function AllDemanded(s: StoreState, order: seq<string>, changes: seq<Change>): (r: Jobs.Queue)
    requires s.queue.KeysHaveRows()
    ensures r.KeysHaveRows()
  {
    if order == [] then s.queue
    else
      var front := AllDemanded(s, order[..|order| - 1], changes);
      var b := BatchOf(s, order[|order| - 1], changes);
      if b.Ok? then Demanded(front, order[|order| - 1], b.value) else front
  }

  lemma OneIssuerMore(s: StoreState, order: seq<string>, i: nat, changes: seq<Change>)
    requires s.queue.KeysHaveRows() && i <= |order|
    ensures TotalChanged(s, order[..0], changes) == 0 && AllDemanded(s, order[..0], changes) == s.queue
    ensures i < |order| ==>
              var b := BatchOf(s, order[i], changes);
              && TotalChanged(s, order[..i + 1], changes) ==
                 TotalChanged(s, order[..i], changes) + (if b.Ok? then b.value.changed else 0)
              && AllDemanded(s, order[..i + 1], changes) ==
                 (var front := AllDemanded(s, order[..i], changes); if b.Ok? then Demanded(front, order[i], b.value)
                     else front)
  {
    hide BatchOf, Demanded;
    if i < |order| { assert order[..i + 1][..i] == order[..i]; }
  }

  /** Over a whole batch, each issuer's publication job takes one demand if its rows changed and none otherwise. */
  lemma {:induction false} DemandsExact(s: StoreState, order: seq<string>, changes: seq<Change>, issuer: string)
    requires s.queue.Valid() && s.queue.KeysHaveRows() && |s.queue.jobs| + |order| <= Jobs.MAX_ROWS && Distinct(order)
    ensures var q := AllDemanded(s, order, changes);
            && q.Valid() && |q.jobs| <= |s.queue.jobs| + |order|
            && JobAt(q, issuer) ==
               if issuer in order && BatchOf(s, issuer, changes).Ok? && BatchOf(s, issuer, changes).value.changed > 0
               then Demand(JobAt(s.queue, issuer)) else JobAt(s.queue, issuer)
  {
    hide Jobs.Queue.Valid, Jobs.Upsert, DemandFor, JobAt, BatchOf;
    if order != [] {
      var m := |order| - 1;
      var last, b := order[m], BatchOf(s, order[m], changes);
      NotBefore(order, m);
      assert order == order[..m] + [last];
      DemandsExact(s, order[..m], changes, issuer);
      if b.Ok? && b.value.changed > 0 {
        DemandSeen(AllDemanded(s, order[..m], changes), last, b.value.generation, issuer);
      }
    }
  }

  lemma RowsIssuer(s: StoreState, issuer: string)
    requires s.Valid()
    ensures var rows := s.RowsOf(issuer); forall k | k in rows :: rows[k].issuerId == issuer
  {
  }

  lemma SortedListing(out: seq<Revocation>, rows: Rows)
    requires DistinctSerials(out)
    requires forall row | row in out :: row.serial.hex in rows && rows[row.serial.hex] == row
    requires forall k | k in rows :: rows[k] in out
    ensures IsListing(Sort(out, SerialLe), rows)
  {
    hide Sort, SerialLe;
    SameMembers(out, Sort(out, SerialLe));
    DistinctSerialsPermute(out, Sort(out, SerialLe));
    SerialOrder();
    SortSorted(out, SerialLe);
  }

  lemma RowsOnly(s: StoreState, t: StoreState)
    requires s.revocations == t.revocations
    ensures forall issuer :: s.RowsOf(issuer) == t.RowsOf(issuer)
  {
  }

  lemma StateKey(s: StoreState, issuer: string)
    requires s.Valid()
    ensures issuer in s.crlStates ==> s.crlStates[issuer].caKeyGenerationId == issuer
  {
  }

  lemma ResolvedIssuer(rows: Rows, change: Change, issuer: string)
    requires change.issuerId == issuer && forall k | k in rows :: rows[k].issuerId == issuer
    ensures ResolveChange(rows, change).Ok? && ResolveChange(rows, change).value.Some? ==>
              ResolveChange(rows, change).value.value.revocation.issuerId == issuer
  {
  }

  lemma {:induction false} ResolveAllFails(rows: Rows, changes: seq<Change>, i: nat)
    requires i < |changes| && ResolveAll(rows, changes[..i]).Ok? && ResolveChange(rows, changes[i]).Err?
    ensures ResolveAll(rows, changes) == Err(ResolveChange(rows, changes[i]).error)
    decreases |changes|
  {
    if i < |changes| - 1 {
      var front := changes[..|changes| - 1];
      assert front[..i] == changes[..i];
      ResolveAllFails(rows, front, i);
    }
  }

  lemma {:induction false} StoreAllFails(rows: Rows, pending: seq<Pending>, generation: int, i: nat)
    requires i < |pending| && StoreAll(rows, pending[..i], generation).Ok?
    requires StoreRow(StoreAll(rows, pending[..i], generation).value, pending[i], generation).Err?
    ensures StoreAll(rows, pending, generation) ==
              Err(StoreRow(StoreAll(rows, pending[..i], generation).value, pending[i], generation).error)
    decreases |pending|
  {
    if i < |pending| - 1 {
      var front := pending[..|pending| - 1];
      assert front[..i] == pending[..i];
      StoreAllFails(rows, front, generation, i);
    }
  }

  // ---- several issuers in one batch ----

  /** groupByIssuer's check of each change before anything is read. */
  predicate AllNamed(changes: seq<Change>) {
    forall i | 0 <= i < |changes| :: IsUuid(changes[i].issuerId) && !changes[i].serial.IsZero()
  }

  method CheckNames(changes: seq<Change>) returns (ok: bool)
    ensures ok <==> AllNamed(changes)
  {
    for i := 0 to |changes|
      invariant forall k | 0 <= k < i :: IsUuid(changes[k].issuerId) && !changes[k].serial.IsZero()
    {
      var valid := ParseUuid(changes[i].issuerId);
      if !valid || changes[i].serial.IsZero() { return false; }
    }
    return true;
  }

  function IssuersOf(changes: seq<Change>): set<string> { set c | c in changes :: c.issuerId }

  /** One issuer's bucket, in the order given. */
  function ForIssuer(changes: seq<Change>, issuer: string): seq<Change> {
    if changes == [] then []
    else if changes[0].issuerId == issuer then [changes[0]] + ForIssuer(changes[1..], issuer)
    else ForIssuer(changes[1..], issuer)
  }

  /** Every issuer of the batch once. */
  function FirstSeen(changes: seq<Change>): seq<string> {
    if changes == [] then []
    else
      var front := FirstSeen(changes[..|changes| - 1]);
      var issuer := changes[|changes| - 1].issuerId;
      if issuer in front then front else front + [issuer]
  }

  /** The issuers in the order in which their state rows are locked. */
  function SortedIssuers(changes: seq<Change>): seq<string> { Sort(FirstSeen(changes), StringLe) }

  /** What the batch does for one issuer, read from the store as it was; a key without a state row fails. */
  ghost function BatchOf(s: StoreState, issuer: string, changes: seq<Change>): Result<Batch> {
    if issuer !in s.crlStates then Err(InvalidValue)
    else RevocationService.ApplyIssuerBatch(s.crlStates[issuer], s.RowsOf(issuer), ForIssuer(changes, issuer))
  }

  /** The error is that of the first issuer, in the locking order, whose batch is refused. */
  ghost predicate FirstRefusal(s: StoreState, order: seq<string>, changes: seq<Change>, error: Error) {
    exists i :: 0 <= i < |order| && BatchOf(s, order[i], changes) == Err(error)
                && forall k | 0 <= k < i :: BatchOf(s, order[k], changes).Ok?
  }

  lemma Refuses(s: StoreState, order: seq<string>, i: nat, changes: seq<Change>)
    requires i < |order| && BatchOf(s, order[i], changes).Err? && forall k | 0 <= k < i ::
               BatchOf(s, order[k], changes).Ok?
    ensures FirstRefusal(s, order, changes, BatchOf(s, order[i], changes).error)
  {
    hide BatchOf;
    assert BatchOf(s, order[i], changes) == Err(BatchOf(s, order[i], changes).error);
  }

  ghost predicate IssuerSame(s: StoreState, t: StoreState, issuer: string) {
    t.RowsOf(issuer) == s.RowsOf(issuer) && StateAt(t, issuer) == StateAt(s, issuer)
  }

  function StateAt(s: StoreState, issuer: string): Option<CRLState> {
    if issuer in s.crlStates then Some(s.crlStates[issuer]) else None
  }

  /** An issuer of the batch is as its own batch leaves it, any other issuer as it was. */
  ghost predicate IssuerAfter(s: StoreState, t: StoreState, issuer: string, changes: seq<Change>) {
    if issuer in IssuersOf(changes) then
      && BatchOf(s, issuer, changes).Ok?
      && t.RowsOf(issuer) == BatchOf(s, issuer, changes).value.rows
      && StateAt(t, issuer) == Some(BatchOf(s, issuer, changes).value.state)
    else IssuerSame(s, t, issuer)
  }

  ghost function TotalChanged(s: StoreState, order: seq<string>, changes: seq<Change>): nat {
    if order == [] then 0
    else
      TotalChanged(s, order[..|order| - 1], changes)
      + (var b := BatchOf(s, order[|order| - 1], changes); if b.Ok? then b.value.changed else 0)
  }

  /** A generation is reported for exactly the issuers that changed. */
  ghost predicate GenerationsExact(s: StoreState, generations: map<string, int>, order: seq<string>,
      changes: seq<Change>) {
    forall issuer ::
      && (issuer in generations <==>
          issuer in order && BatchOf(s, issuer, changes).Ok? && BatchOf(s, issuer, changes).value.changed > 0)
      && (issuer in generations ==> generations[issuer] == BatchOf(s, issuer, changes).value.generation)
  }

  lemma GenerationsNone(s: StoreState, changes: seq<Change>)
    ensures GenerationsExact(s, map[], [], changes)
  {
  }

  lemma GenerationsMore(s: StoreState, generations: map<string, int>, order: seq<string>, issuer: string,
      changes: seq<Change>)
    requires GenerationsExact(s, generations, order, changes) && issuer !in order && BatchOf(s, issuer, changes).Ok?
    ensures var b := BatchOf(s, issuer, changes).value;
            var after := if b.changed != 0 then generations[issuer := b.generation] else generations;
            GenerationsExact(s, after, order + [issuer], changes)
  {
    hide BatchOf;
  }

  /** The issuers done so far are as their batches leave them, the others as they were. */
  ghost predicate Progress(s: StoreState, t: StoreState, done: seq<string>, changes: seq<Change>) {
    && (forall issuer | issuer in done :: IssuerAfter(s, t, issuer, changes))
    && (forall issuer | issuer !in done :: IssuerSame(s, t, issuer))
  }

  lemma SameAtFirst(s: StoreState, changes: seq<Change>)
    ensures Progress(s, s, [], changes)
  {
  }

  lemma StillSame(s: StoreState, t: StoreState, done: seq<string>, issuer: string, changes: seq<Change>)
    requires Progress(s, t, done, changes) && issuer !in done
    ensures IssuerSame(s, t, issuer)
  {
  }

  lemma ProgressMore(s: StoreState, mid: StoreState, t: StoreState, done: seq<string>, issuer: string,
      changes: seq<Change>)
    requires Progress(s, mid, done, changes) && issuer !in done && IssuerAfter(s, t, issuer, changes)
    requires forall other | other != issuer :: IssuerSame(mid, t, other)
    ensures Progress(s, t, done + [issuer], changes)
  {
    hide IssuerAfter, IssuerSame;
    forall other | other != issuer
      ensures IssuerAfter(s, mid, other, changes) ==> IssuerAfter(s, t, other, changes)
      ensures IssuerSame(s, mid, other) ==> IssuerSame(s, t, other)
    {
      SameAfter(s, mid, t, other, changes);
    }
  }

  lemma AllAfter(s: StoreState, t: StoreState, order: seq<string>, changes: seq<Change>)
    requires Progress(s, t, order, changes) && forall issuer :: issuer in order <==> issuer in IssuersOf(changes)
    ensures forall issuer :: IssuerAfter(s, t, issuer, changes)
  {
    hide IssuerAfter, IssuerSame, IssuersOf;
    forall issuer ensures IssuerAfter(s, t, issuer, changes) {
      if issuer !in order { NotInBatch(s, t, issuer, changes); }
    }
  }

  lemma SameAfter(s: StoreState, mid: StoreState, t: StoreState, issuer: string, changes: seq<Change>)
    requires IssuerSame(mid, t, issuer)
    ensures IssuerAfter(s, mid, issuer, changes) ==> IssuerAfter(s, t, issuer, changes)
    ensures IssuerSame(s, mid, issuer) ==> IssuerSame(s, t, issuer)
  {
    hide BatchOf, StoreState.RowsOf;
  }

  lemma NotInBatch(s: StoreState, t: StoreState, issuer: string, changes: seq<Change>)
    requires issuer !in IssuersOf(changes) && IssuerSame(s, t, issuer)
    ensures IssuerAfter(s, t, issuer, changes)
  {
  }

  lemma {:induction false} SeenExact(changes: seq<Change>)
    ensures Distinct(FirstSeen(changes))
    ensures forall issuer :: issuer in FirstSeen(changes) <==> issuer in IssuersOf(changes)
  {
    if changes != [] {
      var front, last := changes[..|changes| - 1], changes[|changes| - 1];
      SeenExact(front);
      assert changes == front + [last];
      assert IssuersOf(changes) == IssuersOf(front) + {last.issuerId};
    }
  }

  /** The locking order depends only on the issuers: each of them once, in string order. */
  lemma OrderExact(changes: seq<Change>)
    ensures Distinct(SortedIssuers(changes)) && SortedBy(StringLe, SortedIssuers(changes))
    ensures forall issuer :: issuer in SortedIssuers(changes) <==> issuer in IssuersOf(changes)
  {
    SeenExact(changes);
    StringOrder();
    SortSorted(FirstSeen(changes), StringLe);
    SortDistinct(FirstSeen(changes), StringLe);
    SameMembers(FirstSeen(changes), SortedIssuers(changes));
  }

  lemma NotBefore(order: seq<string>, i: nat)
    requires Distinct(order) && i < |order|
    ensures order[i] !in order[..i]
  {
  }

  lemma {:induction false} OneIssuer(changes: seq<Change>, issuer: string)
    ensures forall c :: c in ForIssuer(changes, issuer) <==> c in changes && c.issuerId == issuer
  {
    if changes != [] {
      OneIssuer(changes[1..], issuer);
      assert changes == [changes[0]] + changes[1..];
    }
  }

  lemma BucketOne(c: Change, issuer: string)
    ensures ForIssuer([c], issuer) == if c.issuerId == issuer then [c] else []
  {
  }

  lemma BucketStarts(changes: seq<Change>, issuer: string)
    ensures changes == [] ==> ForIssuer(changes, issuer) == []
    ensures changes != [] ==>
              ForIssuer(changes, issuer) ==
              (if changes[0].issuerId == issuer then [changes[0]] else []) + ForIssuer(changes[1..], issuer)
  {
  }

  /**
   * A bucket holds exactly its issuer's assertions, as often and in the order given: cutting the batch anywhere cuts
   * the bucket there, and one assertion goes to the bucket of its own issuer and to no other.
   */
  lemma {:induction false} BucketExactly(changes: seq<Change>, more: seq<Change>, c: Change, issuer: string)
    ensures ForIssuer(changes + more, issuer) == ForIssuer(changes, issuer) + ForIssuer(more, issuer)
    ensures ForIssuer([c], issuer) == if c.issuerId == issuer then [c] else []
  {
    hide ForIssuer;
    BucketOne(c, issuer);
    BucketStarts(changes, issuer);
    if changes == [] {
      assert changes + more == more;
    } else {
      BucketExactly(changes[1..], more, c, issuer);
      BucketStarts(changes + more, issuer);
      assert (changes + more)[1..] == changes[1..] + more;
    }
  }

  /** After a batch over several issuers each issuer's ledger reads as the fields of its own assertions say. */
  lemma WriteRecords(s: StoreState, t: StoreState, changes: seq<Change>, issuer: string)
    requires issuer in s.crlStates && s.crlStates[issuer].revocationGeneration >= 0
    requires LedgerOk(issuer, s.RowsOf(issuer), s.crlStates[issuer].revocationGeneration)
    requires issuer in IssuersOf(changes) && IssuerAfter(s, t, issuer, changes)
    ensures Recorded(s.RowsOf(issuer), ForIssuer(changes, issuer), t.RowsOf(issuer),
                     s.crlStates[issuer].revocationGeneration + 1)
    ensures forall c :: c in ForIssuer(changes, issuer) <==> c in changes && c.issuerId == issuer
  {
    hide StoreState.RowsOf, LedgerOk, RevocationService.ApplyIssuerBatch, Recorded, ForIssuer;
    OneIssuer(changes, issuer);
    BatchRecords(s.crlStates[issuer], s.RowsOf(issuer), ForIssuer(changes, issuer), issuer);
  }
}
