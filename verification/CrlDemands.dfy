/** The one job row that carries a CA key's publication demand, and the job state the protocol keeps of it. */
module CrlDemands {
  import opened Outcomes
  import opened RevocationService
  import Revocations
  import Jobs = JobQueue

  const JOB_KIND := "crl_publish"
  const PAYLOAD_VERSION: int := 1

  function DedupKey(issuer: string): string { JOB_KIND + ":" + issuer }

  function Digit(k: nat): char
    requires k < 10
  {
    "0123456789"[k]
  }

  lemma DigitExactly(k: nat)
    requires k < 10
    ensures '0' <= Digit(k) <= '9' && Digit(k) as int - '0' as int == k
  {
  }

  function Decimal(n: int): string
    decreases n < 0, if n < 0 then -n else n
  {
    if n < 0 then "-" + Decimal(-n)
    else if n < 10 then [Digit(n)]
    else Decimal(n / 10) + [Digit(n % 10)]
  }

  /** The number that a text of decimal digits stands for. */
  function FromDigits(text: string): int {
    if text == "" then 0 else 10 * FromDigits(text[..|text| - 1]) + (text[|text| - 1] as int - '0' as int)
  }

  /** A generation is written in decimal digits without leading zeros, and reads back as itself. */
  lemma {:induction false} DecimalExactly(n: nat)
    ensures FromDigits(Decimal(n)) == n && Decimal(n) != ""
    ensures forall i | 0 <= i < |Decimal(n)| :: '0' <= Decimal(n)[i] <= '9'
    ensures n > 0 ==> Decimal(n)[0] != '0'
  {
    hide Digit;
    DigitExactly(n % 10);
    if n >= 10 {
      DecimalExactly(n / 10);
      assert Decimal(n)[..|Decimal(n)| - 1] == Decimal(n / 10);
    } else {
      assert Decimal(n)[..0] == "";
    }
  }

  /** The demand for a list that covers at least `generation`. */
  function DemandFor(issuer: string, generation: int): Jobs.Demand {
    Jobs.Demand(DedupKey(issuer), JOB_KIND, PAYLOAD_VERSION, "{\"required_generation\":" + Decimal(generation) + "}")
  }

  /** What a demand says: one key's publication job, and the generation its list must reach. */
  lemma DemandExactly(issuer: string, generation: int)
    ensures
      var d := DemandFor(issuer, generation);
      && d.dedupKey == "crl_publish:" + issuer && d.kind == "crl_publish" && d.payloadVersion == 1
      && d.payload == "{\"required_generation\":" + Decimal(generation) + "}"
    ensures generation < 0 ==> Decimal(generation) == "-" + Decimal(-generation)
  {
    hide Decimal;
    if generation < 0 { NegativeDecimal(generation); }
    assert "crl_publish" + ":" + issuer == "crl_publish:" + issuer;
  }

  lemma NegativeDecimal(n: int)
    requires n < 0
    ensures Decimal(n) == "-" + Decimal(-n)
  {
  }

  function StateOf(state: Jobs.JobState): JobState {
    match state
    case Pending => JobPending
    case Running => JobRunning
    case Succeeded => JobSucceeded
    case Failed => JobFailed
  }

  /** The job state of one CA key, read from the rows. */
  function JobAt(q: Jobs.Queue, issuer: string): JobState {
    var key := DedupKey(issuer);
    if key in q.byDedup && q.byDedup[key] in q.jobs then StateOf(q.jobs[q.byDedup[key]].state) else NoJob
  }

  /** What finalizePublish saves on a running row. */
  function Outcome(row: Jobs.Job, after: JobState, now: Instant): Jobs.Job {
    if after == JobSucceeded then row.(state := Jobs.Succeeded, lastErrorCode := "")
    else row.(state := Jobs.Pending, availableAt := now)
  }

  function QueueAfter(q: Jobs.Queue, jobId: string, after: JobState, now: Instant): Jobs.Queue
    requires jobId in q.jobs
  {
    if q.jobs[jobId].state != Jobs.Running then q
    else Jobs.SaveRow(q, Outcome(q.jobs[jobId], after, now), q.jobs[jobId].version)
  }

  /** How a publication ends its running row: done with no error, or waiting from `now` on with everything else kept. */
  lemma EndExactly(q: Jobs.Queue, jobId: string, after: JobState, now: Instant)
    requires q.IndexOk() && jobId in q.jobs
    ensures
      var row := q.jobs[jobId];
      QueueAfter(q, jobId, after, now).jobs ==
      if row.state != Jobs.Running then q.jobs
      else if after == JobSucceeded then q.jobs[jobId := row.(state := Jobs.Succeeded, lastErrorCode := "")]
      else q.jobs[jobId := row.(state := Jobs.Pending, availableAt := now)]
  {
    Jobs.OwnIds(q);
    hide Jobs.Queue.IndexOk;
  }

  lemma KeysApart(a: string, b: string)
    requires DedupKey(a) == DedupKey(b)
    ensures a == b
  {
    assert DedupKey(a)[|JOB_KIND| + 1..] == a && DedupKey(b)[|JOB_KIND| + 1..] == b;
  }

  lemma KeyDemanded(q: Jobs.Queue, d: Jobs.Demand, issuer: string)
    requires q.IndexOk() && d.dedupKey == DedupKey(issuer)
    ensures JobAt(Jobs.Upsert(q, d), issuer) == Demand(JobAt(q, issuer))
  {
    hide Jobs.SyntheticUuid, Jobs.Queue.IndexOk, Jobs.Upsert, DedupKey;
    Jobs.UpsertShape(q, d);
    Jobs.KeyFinds(q, d.dedupKey);
  }

  lemma OtherUndemanded(q: Jobs.Queue, d: Jobs.Demand, other: string)
    requires q.IndexOk() && d.dedupKey != DedupKey(other)
    requires d.dedupKey in q.byDedup || Jobs.SyntheticUuid(|q.jobs.Keys| + 1) !in q.jobs
    ensures JobAt(Jobs.Upsert(q, d), other) == JobAt(q, other)
  {
    hide Jobs.SyntheticUuid, Jobs.Queue.IndexOk, Jobs.Upsert, Jobs.Merged, DedupKey, StateOf;
    Jobs.UpsertShape(q, d);
    Jobs.KeyFinds(q, d.dedupKey);
    Jobs.KeyFinds(q, DedupKey(other));
  }

  /** Recording a demand in the queue is Demand on the key's job state and leaves every other key alone. */
  lemma DemandSeen(q: Jobs.Queue, issuer: string, generation: int, other: string)
    requires q.Valid() && |q.jobs| < Jobs.MAX_ROWS
    ensures
      var q' := Jobs.Upsert(q, DemandFor(issuer, generation));
      && q'.Valid() && |q'.jobs| <= |q.jobs| + 1
      && JobAt(q', issuer) == Demand(JobAt(q, issuer))
      && (other != issuer ==> JobAt(q', other) == JobAt(q, other))
  {
    hide *;
    var d := DemandFor(issuer, generation);
    DemandKey(issuer, generation);
    Jobs.ValidParts(q);
    Jobs.UpsertGrows(q, d);
    Jobs.UpsertKeeps(q, d);
    KeyDemanded(q, d, issuer);
    if other != issuer {
      if DedupKey(other) == DedupKey(issuer) { KeysApart(other, issuer); }
      OtherUndemanded(q, d, other);
    }
  }

  lemma DemandKey(issuer: string, generation: int)
    ensures DemandFor(issuer, generation).dedupKey == DedupKey(issuer)
  {
  }

  /** Claiming due rows is ClaimJob on the keys it picks, and it picks only waiting or running ones. */
  lemma ClaimSeen(q: Jobs.Queue, now: Instant, leaseUntil: Instant, list: seq<Jobs.Job>, limit: int, issuer: string)
    requires q.IndexOk() && Jobs.DueListing(list, q, now)
    ensures
      var q' := Jobs.ClaimRows(q, Jobs.Ids(Jobs.Limited(list, limit)), leaseUntil);
      JobAt(q', issuer) == JobAt(q, issuer)
      || (JobAt(q', issuer) == JobRunning && (JobAt(q, issuer) == JobPending || JobAt(q, issuer) == JobRunning))
  {
    hide DedupKey;
    var key := DedupKey(issuer);
    if key in q.byDedup && q.byDedup[key] in Jobs.Ids(Jobs.Limited(list, limit)) {
      var row :| row in Jobs.Limited(list, limit) && row.id == q.byDedup[key];
      assert row in list && Jobs.Due(row, now);
    }
  }

  /** Ending a publication on the job row is JobAfter on the key's job state. */
  lemma OutcomeSeen(q: Jobs.Queue, jobId: string, issuer: string, state: Revocations.CRLState, now: Instant,
      other: string)
    requires q.IndexOk() && jobId in q.jobs && q.jobs[jobId].dedupKey == DedupKey(issuer)
    ensures
      var q' := QueueAfter(q, jobId, JobAfter(state, StateOf(q.jobs[jobId].state)), now);
      && q'.IndexOk()
      && JobAt(q', issuer) == JobAfter(state, JobAt(q, issuer))
      && (other != issuer ==> JobAt(q', other) == JobAt(q, other))
  {
    hide DedupKey, Jobs.Queue.IndexOk;
    if other != issuer && DedupKey(other) == DedupKey(issuer) { KeysApart(other, issuer); }
    var row := q.jobs[jobId];
    Jobs.OwnIds(q);
    Jobs.KeyFinds(q, DedupKey(issuer));
    Jobs.KeyFinds(q, DedupKey(other));
    if row.state == Jobs.Running { Jobs.SaveIndex(q, Outcome(row, JobAfter(state, JobRunning), now), row.version); }
  }

  // ---- work that is put back or demanded is claimed ----

  /** One claim without a limit: the listing it saw, the clock and the lease it gave. */
  datatype Claim = Claim(list: seq<Jobs.Job>, limit: int, now: Instant, leaseUntil: Instant)

  /** Every row that is due is leased. */
  ghost predicate ClaimsAll(q: Jobs.Queue, q': Jobs.Queue, c: Claim) {
    && Jobs.DueListing(c.list, q, c.now) && c.limit <= 0
    && q' == Jobs.ClaimRows(q, Jobs.Ids(Jobs.Limited(c.list, c.limit)), c.leaseUntil)
  }

  lemma ClaimedRow(q: Jobs.Queue, q': Jobs.Queue, c: Claim, id: string)
    requires q.IndexOk() && ClaimsAll(q, q', c) && id in q.jobs
    ensures id in q'.jobs && q'.byDedup == q.byDedup
    ensures
      var row := q.jobs[id];
      if (row.state == Jobs.Pending && (row.availableAt == 0 || row.availableAt <= c.now))
         || (row.state == Jobs.Running && row.leaseUntil <= c.now)
      then q'.jobs[id].state == Jobs.Running && q'.jobs[id].leaseUntil == c.leaseUntil
      else q'.jobs[id] == row
  {
    hide Jobs.DueListing, Jobs.Ids, Jobs.Limited, Jobs.Queue.IndexOk;
    Jobs.UnlimitedClaim(q, c.now, c.leaseUntil, c.list, c.limit, id);
  }

  /** A running job that a publication puts back, because changes remain, is claimed at any clock from then on. */
  lemma PutBackClaimed(q: Jobs.Queue, id: string, now: Instant, q': Jobs.Queue, c: Claim)
    requires q.IndexOk() && id in q.jobs && q.jobs[id].state == Jobs.Running && now <= c.now
    requires ClaimsAll(QueueAfter(q, id, JobPending, now), q', c)
    ensures id in q'.jobs && q'.jobs[id].state == Jobs.Running && q'.jobs[id].leaseUntil == c.leaseUntil
  {
    hide Jobs.Queue.IndexOk, ClaimsAll;
    var row := q.jobs[id];
    Jobs.OwnIds(q);
    Jobs.SaveIndex(q, Outcome(row, JobPending, now), row.version);
    ClaimedRow(QueueAfter(q, id, JobPending, now), q', c, id);
  }

  /** A demand that makes a row, or revives a finished one, is claimed at any clock; a waiting row keeps its time. */
  lemma DemandClaimed(q: Jobs.Queue, d: Jobs.Demand, q': Jobs.Queue, c: Claim)
    requires q.Valid() && |q.jobs| < Jobs.MAX_ROWS && ClaimsAll(Jobs.Upsert(q, d), q', c)
    ensures d.dedupKey in q'.byDedup && q'.byDedup[d.dedupKey] in q'.jobs
    ensures
      var id := q'.byDedup[d.dedupKey];
      if d.dedupKey !in q.byDedup || q.jobs[id].state == Jobs.Succeeded || q.jobs[id].state == Jobs.Failed then
        q'.jobs[id].state == Jobs.Running
      else if q.jobs[id].state == Jobs.Pending then
        q'.jobs[id].state == Jobs.Running <==> q.jobs[id].availableAt == 0 || q.jobs[id].availableAt <= c.now
      else q'.jobs[id].state == Jobs.Running
  {
    hide Jobs.SyntheticUuid, Jobs.MintedIds, Jobs.Queue.Valid, Jobs.Queue.IndexOk, Jobs.Upsert, ClaimsAll;
    Jobs.ValidParts(q);
    Jobs.UpsertKeeps(q, d);
    Jobs.UpsertShape(q, d);
    Jobs.KeyFinds(q, d.dedupKey);
    Jobs.ValidParts(Jobs.Upsert(q, d));
    ClaimedRow(Jobs.Upsert(q, d), q', c, Jobs.Upsert(q, d).byDedup[d.dedupKey]);
  }
}
