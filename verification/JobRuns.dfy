/**
 * Runs of the job queue with any number of workers: a worker keeps the copy of a row it read or claimed and saves it
 * later under the version it read, while demands, claims and other saves land in between.
 */
module JobRuns {
  import opened Outcomes
  import opened JobQueue

  /** A worker's copy and how many demands had landed on its key when it was taken. */
  datatype Copy = Copy(row: Job, seen: nat)

  /** The demands recorded so far under one key. */
  datatype Landed = Landed(count: nat, last: Demand)

  datatype Node = Node(
    queue: Queue,
    ledger: map<string, Landed>,
    copies: seq<Copy>,
    finishedSeeing: map<string, nat>)

  /** What a worker may change on its copy before saving it: never the key or the demand (next := job). */
  datatype Update = Update(
    state: JobState,
    availableAt: Instant,
    leaseUntil: Instant,
    attemptCount: int,
    lastErrorCode: string,
    version: int)

  datatype Action =
    | DemandWork(demand: Demand)
    | ReadRow(id: string)
    | ClaimDue(now: Instant, leaseUntil: Instant, list: seq<Job>, limit: int)
    | SaveCopy(copy: nat, update: Update)

  function Initial(): Node { Node(Queue(map[], map[]), map[], [], map[]) }

  function Updated(row: Job, u: Update): Job {
    row.(state := u.state, availableAt := u.availableAt, leaseUntil := u.leaseUntil,
         attemptCount := u.attemptCount, lastErrorCode := u.lastErrorCode, version := u.version)
  }

  predicate Finished(state: JobState) { state == Succeeded || state == Failed }

  function Seen(n: Node, key: string): nat { if key in n.ledger then n.ledger[key].count else 0 }

  function Demanded(n: Node, d: Demand): Node {
    if d.dedupKey in n.queue.byDedup && n.queue.byDedup[d.dedupKey] !in n.queue.jobs then n
    else
      n.(queue := Upsert(n.queue, d), ledger := n.ledger[d.dedupKey := Landed(Seen(n, d.dedupKey) + 1, d)])
  }

  function Read(n: Node, id: string): Node {
    if id !in n.queue.jobs then n
    else n.(copies := n.copies + [Copy(n.queue.jobs[id], Seen(n, n.queue.jobs[id].dedupKey))])
  }

  function ClaimCopies(n: Node, rows: seq<Job>, leaseUntil: Instant): seq<Copy> {
    seq(|rows|, i requires 0 <= i < |rows| => Copy(Claimed(rows[i], leaseUntil), Seen(n, rows[i].dedupKey)))
  }

  ghost function ClaimedDue(n: Node, now: Instant, leaseUntil: Instant, list: seq<Job>, limit: int): Node {
    if !DueListing(list, n.queue, now) then n
    else
      var rows := Limited(list, limit);
      n.(queue := ClaimRows(n.queue, Ids(rows), leaseUntil), copies := n.copies + ClaimCopies(n, rows, leaseUntil))
  }

  predicate Lands(n: Node, copy: nat, u: Update) {
    copy < |n.copies| && SaveResult(n.queue, Updated(n.copies[copy].row, u), n.copies[copy].row.version).Ok?
  }

  function Saved(n: Node, copy: nat, u: Update): Node {
    if !Lands(n, copy, u) then n
    else
      var c := n.copies[copy];
      n.(queue := SaveRow(n.queue, Updated(c.row, u), c.row.version),
         finishedSeeing := if Finished(u.state) then n.finishedSeeing[c.row.id := c.seen] else n.finishedSeeing)
  }

  ghost function Apply(n: Node, a: Action): Node {
    match a
    case DemandWork(d) => Demanded(n, d)
    case ReadRow(id) => Read(n, id)
    case ClaimDue(now, leaseUntil, list, limit) => ClaimedDue(n, now, leaseUntil, list, limit)
    case SaveCopy(copy, u) => Saved(n, copy, u)
  }

  ghost function Run(n: Node, actions: seq<Action>): Node {
    if actions == [] then n else Apply(Run(n, actions[..|actions| - 1]), actions[|actions| - 1])
  }

  /** A save never writes an older version than the one it read. */
  predicate NeverOlder(n: Node, a: Action) {
    a.SaveCopy? && a.copy < |n.copies| ==> a.update.version >= n.copies[a.copy].row.version
  }

  /** Every domain transition advances the version; a job's caller has to do it itself. */
  predicate AlwaysNewer(n: Node, a: Action) {
    a.SaveCopy? && a.copy < |n.copies| ==> a.update.version > n.copies[a.copy].row.version
  }

  // ---- the latest demand is never lost ----

  predicate Carries(row: Job, d: Demand) {
    row.dedupKey == d.dedupKey && row.kind == d.kind && row.payloadVersion == d.payloadVersion &&
        row.payload == d.payload
  }

  /** Every row carries the latest demand of its key, and keys without a demand have no row. */
  ghost predicate RowsCarryLatest(n: Node) {
    && (forall key :: key in n.ledger <==> key in n.queue.byDedup)
    && (forall id | id in n.queue.jobs ::
          var row := n.queue.jobs[id];
          row.dedupKey in n.ledger && Carries(row, n.ledger[row.dedupKey].last))
  }

  /** A copy under the row's current version was taken after the last demand. */
  ghost predicate CopyFresh(n: Node, c: Copy) {
    && c.row.id in n.queue.jobs
    && c.row.dedupKey == n.queue.jobs[c.row.id].dedupKey
    && c.row.version <= n.queue.jobs[c.row.id].version
    && c.seen <= Seen(n, c.row.dedupKey)
    && (c.row.version == n.queue.jobs[c.row.id].version ==>
          && c.seen == Seen(n, c.row.dedupKey)
          && c.row.dedupKey in n.ledger && Carries(c.row, n.ledger[c.row.dedupKey].last))
  }

  ghost predicate CopiesFresh(n: Node) {
    forall c | c in n.copies :: CopyFresh(n, c)
  }

  /** Whoever finished a finished row had seen every demand that ever landed on it. */
  ghost predicate FinishersSawAll(n: Node) {
    forall id | id in n.queue.jobs && Finished(n.queue.jobs[id].state) ::
      id in n.finishedSeeing && n.finishedSeeing[id] == Seen(n, n.queue.jobs[id].dedupKey)
  }

  ghost predicate Inv(n: Node) {
    n.queue.Valid() && RowsCarryLatest(n) && CopiesFresh(n) && FinishersSawAll(n)
  }

  /** What a demand does, row by row. */
  ghost predicate DemandEffect(n: Node, d: Demand, n': Node) {
    && n'.copies == n.copies && n'.finishedSeeing == n.finishedSeeing
    && n'.ledger == n.ledger[d.dedupKey := Landed(Seen(n, d.dedupKey) + 1, d)]
    && QueueEffect(n.queue, d, n'.queue)
  }

  ghost predicate QueueEffect(q: Queue, d: Demand, q': Queue) {
    && q'.byDedup.Keys == q.byDedup.Keys + {d.dedupKey}
    && (forall id | id in q.jobs ::
          && id in q'.jobs
          && q'.jobs[id] == if q.jobs[id].dedupKey == d.dedupKey then Merged(q.jobs[id], d) else q.jobs[id])
    && (forall id | id in q'.jobs && id !in q.jobs :: q'.jobs[id] == NewRow(id, d))
  }

  lemma MergeEffect(q: Queue, d: Demand, row: Job)
    requires d.dedupKey in q.byDedup && row.id in q.jobs && row == Merged(q.jobs[row.id], d)
    requires forall id | id in q.jobs :: q.jobs[id].dedupKey == d.dedupKey <==> id == row.id
    ensures QueueEffect(q, d, q.(jobs := q.jobs[row.id := row]))
  {
    hide Merged;
  }

  lemma AddEffect(q: Queue, d: Demand, row: Job)
    requires row.id !in q.jobs && row == NewRow(row.id, d)
    requires forall id | id in q.jobs :: q.jobs[id].dedupKey != d.dedupKey
    ensures QueueEffect(q, d, Queue(q.jobs[row.id := row], q.byDedup[d.dedupKey := row.id]))
  {
    hide NewRow;
  }

  lemma UpsertEffect(q: Queue, d: Demand)
    requires q.IndexOk() && (d.dedupKey in q.byDedup || SyntheticUuid(|q.jobs.Keys| + 1) !in q.jobs)
    ensures QueueEffect(q, d, Upsert(q, d))
  {
    hide *;
    UpsertShape(q, d);
    KeyFinds(q, d.dedupKey);
    if d.dedupKey in q.byDedup {
      MergeEffect(q, d, Merged(q.jobs[q.byDedup[d.dedupKey]], d));
    } else {
      AddEffect(q, d, NewRow(SyntheticUuid(|q.jobs.Keys| + 1), d));
    }
  }

  lemma DemandShape(n: Node, d: Demand)
    requires n.queue.IndexOk()
    requires d.dedupKey in n.queue.byDedup || SyntheticUuid(|n.queue.jobs.Keys| + 1) !in n.queue.jobs
    ensures DemandEffect(n, d, Demanded(n, d)) && Demanded(n, d).queue == Upsert(n.queue, d)
  {
    hide Upsert, SyntheticUuid, Queue.IndexOk, QueueEffect;
    KeyFinds(n.queue, d.dedupKey);
    UpsertEffect(n.queue, d);
  }

  lemma DemandRows(n: Node, d: Demand, n': Node)
    requires RowsCarryLatest(n) && DemandEffect(n, d, n')
    ensures RowsCarryLatest(n')
  {
  }

  lemma DemandCopies(n: Node, d: Demand, n': Node)
    requires CopiesFresh(n) && DemandEffect(n, d, n')
    ensures CopiesFresh(n')
  {
    hide RowsCarryLatest, Upsert;
  }

  lemma DemandFinishers(n: Node, d: Demand, n': Node)
    requires FinishersSawAll(n) && DemandEffect(n, d, n')
    ensures FinishersSawAll(n')
  {
    hide Upsert;
  }

  lemma InvParts(n: Node)
    ensures Inv(n) <==> n.queue.Valid() && RowsCarryLatest(n) && CopiesFresh(n) && FinishersSawAll(n)
  {
    hide Queue.Valid, RowsCarryLatest, CopiesFresh, FinishersSawAll;
  }

  lemma DemandKeeps(n: Node, d: Demand)
    requires Inv(n) && |n.queue.jobs| < MAX_ROWS
    ensures Inv(Demanded(n, d))
  {
    hide *;
    InvParts(n);
    ValidParts(n.queue);
    UpsertKeeps(n.queue, d);
    DemandShape(n, d);
    var n' := Demanded(n, d);
    InvParts(n');
    DemandRows(n, d, n');
    DemandCopies(n, d, n');
    DemandFinishers(n, d, n');
  }

  /** What a claim does, row by row. */
  ghost predicate ClaimEffect(n: Node, rows: seq<Job>, leaseUntil: Instant, n': Node) {
    && n'.finishedSeeing == n.finishedSeeing && n'.ledger == n.ledger && n'.queue.byDedup == n.queue.byDedup
    && n'.queue.jobs.Keys == n.queue.jobs.Keys
    && n'.copies == n.copies + ClaimCopies(n, rows, leaseUntil)
    && (forall row | row in rows ::
          row.id in n.queue.jobs && n.queue.jobs[row.id] == row && n'.queue.jobs[row.id] == Claimed(row, leaseUntil))
    && (forall id | id in n.queue.jobs ::
        n'.queue.jobs[id] == n.queue.jobs[id] || n'.queue.jobs[id] == Claimed(n.queue.jobs[id], leaseUntil))
  }

  lemma ClaimShape(n: Node, now: Instant, leaseUntil: Instant, list: seq<Job>, limit: int)
    requires DueListing(list, n.queue, now)
    ensures ClaimEffect(n, Limited(list, limit), leaseUntil, ClaimedDue(n, now, leaseUntil, list, limit))
  {
    hide Claimed, Due;
    var rows := Limited(list, limit);
    forall row | row in rows ensures row in list && row.id in Ids(rows) {}
  }

  lemma ClaimRowsCarry(n: Node, rows: seq<Job>, leaseUntil: Instant, n': Node)
    requires RowsCarryLatest(n) && ClaimEffect(n, rows, leaseUntil, n')
    ensures RowsCarryLatest(n')
  {
  }

  lemma ClaimCopiesFresh(n: Node, rows: seq<Job>, leaseUntil: Instant, n': Node)
    requires RowsCarryLatest(n) && CopiesFresh(n) && ClaimEffect(n, rows, leaseUntil, n')
    ensures CopiesFresh(n')
  {
    forall c | c in n'.copies ensures CopyFresh(n', c) {
      if c in n.copies {
        assert CopyFresh(n, c);
      } else {
        assert c in ClaimCopies(n, rows, leaseUntil);
        var i :| 0 <= i < |rows| && c == ClaimCopies(n, rows, leaseUntil)[i];
        assert rows[i] in rows;
      }
    }
  }

  lemma ClaimFinishers(n: Node, rows: seq<Job>, leaseUntil: Instant, n': Node)
    requires FinishersSawAll(n) && ClaimEffect(n, rows, leaseUntil, n')
    ensures FinishersSawAll(n')
  {
  }

  lemma ClaimStepKeeps(n: Node, now: Instant, leaseUntil: Instant, list: seq<Job>, limit: int)
    requires Inv(n)
    ensures Inv(ClaimedDue(n, now, leaseUntil, list, limit))
  {
    hide SyntheticUuid, MintedIds, Claimed, ClaimEffect, DueListing, RowsCarryLatest, CopiesFresh, FinishersSawAll;
    if DueListing(list, n.queue, now) {
      var rows := Limited(list, limit);
      ClaimKeeps(n.queue, Ids(rows), leaseUntil);
      ClaimShape(n, now, leaseUntil, list, limit);
      var n' := ClaimedDue(n, now, leaseUntil, list, limit);
      ClaimRowsCarry(n, rows, leaseUntil, n');
      ClaimCopiesFresh(n, rows, leaseUntil, n');
      ClaimFinishers(n, rows, leaseUntil, n');
    }
  }

  /** What a save that lands does; its copy was fresh. */
  ghost predicate SaveEffect(n: Node, c: Copy, u: Update, n': Node) {
    && n'.ledger == n.ledger && n'.copies == n.copies
    && n'.finishedSeeing == (if Finished(u.state) then n.finishedSeeing[c.row.id := c.seen] else n.finishedSeeing)
    && n'.queue.byDedup.Keys == n.queue.byDedup.Keys
    && c.row.id in n.queue.jobs && n.queue.jobs[c.row.id].version == c.row.version
    && n'.queue.jobs == n.queue.jobs[c.row.id := Updated(c.row, u)]
  }

  lemma SaveShape(n: Node, copy: nat, u: Update)
    requires n.queue.Valid() && Lands(n, copy, u) && CopyFresh(n, n.copies[copy])
    ensures SaveEffect(n, n.copies[copy], u, Saved(n, copy, u))
    ensures Saved(n, copy, u).queue.Valid()
  {
    hide Queue.Valid, Queue.IndexOk, Finished;
    var c := n.copies[copy];
    SaveKeeps(n.queue, Updated(c.row, u), c.row.version);
    ValidParts(n.queue);
    KeyFinds(n.queue, c.row.dedupKey);
  }

  lemma SaveRows(n: Node, c: Copy, u: Update, n': Node)
    requires RowsCarryLatest(n) && CopyFresh(n, c) && SaveEffect(n, c, u, n')
    ensures RowsCarryLatest(n')
  {
  }

  lemma SaveCopies(n: Node, c: Copy, u: Update, n': Node)
    requires CopiesFresh(n) && CopyFresh(n, c) && SaveEffect(n, c, u, n') && u.version >= c.row.version
    ensures CopiesFresh(n')
  {
    forall d | d in n'.copies ensures CopyFresh(n', d) {
      assert CopyFresh(n, d);
    }
  }

  lemma SaveFinishers(n: Node, c: Copy, u: Update, n': Node)
    requires FinishersSawAll(n) && CopyFresh(n, c) && SaveEffect(n, c, u, n')
    ensures FinishersSawAll(n')
  {
  }

  lemma SaveStepKeeps(n: Node, copy: nat, u: Update)
    requires Inv(n) && NeverOlder(n, SaveCopy(copy, u))
    ensures Inv(Saved(n, copy, u))
  {
    hide Queue.Valid, RowsCarryLatest, SaveEffect, FinishersSawAll, Saved, CopyFresh;
    if Lands(n, copy, u) {
      var c := n.copies[copy];
      assert c in n.copies;
      SaveShape(n, copy, u);
      var n' := Saved(n, copy, u);
      SaveRows(n, c, u, n');
      SaveCopies(n, c, u, n');
      SaveFinishers(n, c, u, n');
    } else {
      NothingLands(n, copy, u);
    }
  }

  lemma NothingLands(n: Node, copy: nat, u: Update)
    requires !Lands(n, copy, u)
    ensures Saved(n, copy, u) == n
  {
  }

  // ---- whole runs ----

  ghost predicate NeverOlderRun(actions: seq<Action>) {
    forall i | 0 <= i < |actions| :: NeverOlder(Run(Initial(), actions[..i]), actions[i])
  }

  lemma RowCount(n: Node, a: Action)
    requires Inv(n)
    ensures |Apply(n, a).queue.jobs| <= |n.queue.jobs| + 1
  {
    hide Inv, DueListing, Upsert, Queue.IndexOk;
    match a
    case DemandWork(d) =>
      InvIndex(n);
      UpsertGrows(n.queue, d);
    case ReadRow(_) =>
    case ClaimDue(now, leaseUntil, list, limit) =>
      assert Apply(n, a).queue.jobs.Keys == n.queue.jobs.Keys;
    case SaveCopy(copy, u) =>
      assert Apply(n, a).queue.jobs.Keys == n.queue.jobs.Keys;
  }

  lemma ReadCopies(n: Node, id: string)
    requires n.queue.IndexOk() && RowsCarryLatest(n) && CopiesFresh(n)
    ensures RowsCarryLatest(Read(n, id)) && CopiesFresh(Read(n, id))
  {
    var n' := Read(n, id);
    forall c | c in n'.copies ensures CopyFresh(n', c) {
      assert c in n.copies ==> CopyFresh(n, c);
    }
  }

  lemma ReadFinishers(n: Node, id: string)
    requires FinishersSawAll(n)
    ensures FinishersSawAll(Read(n, id))
  {
  }

  lemma ReadKeeps(n: Node, id: string)
    requires Inv(n)
    ensures Inv(Read(n, id))
  {
    hide CopiesFresh, RowsCarryLatest, FinishersSawAll;
    ReadCopies(n, id);
    ReadFinishers(n, id);
  }

  lemma StepKeeps(n: Node, a: Action)
    requires Inv(n) && |n.queue.jobs| < MAX_ROWS && NeverOlder(n, a)
    ensures Inv(Apply(n, a)) && |Apply(n, a).queue.jobs| <= |n.queue.jobs| + 1
  {
    hide Inv, Demanded, Read, ClaimedDue, Saved;
    RowCount(n, a);
    match a
    case DemandWork(d) => DemandKeeps(n, d);
    case ReadRow(id) => ReadKeeps(n, id);
    case ClaimDue(now, leaseUntil, list, limit) => ClaimStepKeeps(n, now, leaseUntil, list, limit);
    case SaveCopy(copy, u) => SaveStepKeeps(n, copy, u);
  }

  lemma InitialInv()
    ensures Inv(Initial())
  {
    assert MintedIds(0) == {};
  }

  lemma {:induction false} Reachable(actions: seq<Action>)
    requires |actions| <= MAX_ROWS && NeverOlderRun(actions)
    ensures Inv(Run(Initial(), actions)) && |Run(Initial(), actions).queue.jobs| <= |actions|
  {
    hide Inv, Apply;
    if actions == [] {
      InitialInv();
    } else {
      var m := |actions| - 1;
      var before := actions[..m];
      assert forall i | 0 <= i < m :: before[..i] == actions[..i] && before[i] == actions[i];
      Reachable(before);
      StepKeeps(Run(Initial(), before), actions[m]);
    }
  }

  /** The one row of a key. */
  ghost predicate RowFor(n: Node, key: string, id: string) {
    id in n.queue.jobs && forall other | other in n.queue.jobs :: n.queue.jobs[other].dedupKey == key <==> other == id
  }

  ghost predicate LatestHeld(n: Node, key: string)
    requires key in n.ledger
  {
    exists id ::
      && RowFor(n, key, id)
      && Carries(n.queue.jobs[id], n.ledger[key].last)
      && (Finished(n.queue.jobs[id].state) ==> id in n.finishedSeeing && n.finishedSeeing[id] == n.ledger[key].count)
  }

  /**
   * No demand is ever lost: as long as no save goes back in version, each key with a demand has exactly one row, that
   * row carries the latest demand, and it is still claimable or running, or whoever finished it had read it after the
   * last demand landed.
   */
  lemma LatestDemandHeld(actions: seq<Action>, key: string)
    requires |actions| <= MAX_ROWS && NeverOlderRun(actions)
    ensures var n := Run(Initial(), actions); key in n.ledger ==> LatestHeld(n, key)
  {
    hide *;
    Reachable(actions);
    var n := Run(Initial(), actions);
    if key in n.ledger { HeldByRow(n, key); }
  }

  lemma HeldByRow(n: Node, key: string)
    requires Inv(n) && key in n.ledger
    ensures LatestHeld(n, key)
  {
    hide SyntheticUuid, MintedIds, CopiesFresh;
    var id := n.queue.byDedup[key];
    KeyFinds(n.queue, key);
    assert RowFor(n, key, id);
  }

  /** A save takes effect only when its worker has seen every demand that landed on the row. */
  lemma SaveNeedsAllDemandsSeen(actions: seq<Action>, copy: nat, u: Update)
    requires |actions| <= MAX_ROWS && NeverOlderRun(actions)
    ensures var n := Run(Initial(), actions);
            Lands(n, copy, u) ==> n.copies[copy].seen == Seen(n, n.copies[copy].row.dedupKey)
  {
    Reachable(actions);
    var n := Run(Initial(), actions);
    if Lands(n, copy, u) {
      assert n.copies[copy] in n.copies && CopyFresh(n, n.copies[copy]);
    }
  }

  // ---- lost updates ----

  /** A copy under the row's current version is the row; older copies cannot be saved. */
  ghost predicate LockSound(n: Node) {
    forall c | c in n.copies ::
      && c.row.id in n.queue.jobs
      && c.row.version <= n.queue.jobs[c.row.id].version
      && (c.row.version == n.queue.jobs[c.row.id].version ==> c.row == n.queue.jobs[c.row.id])
  }

  /**
   * The exact duty of a caller: a save that does not advance the version keeps the lock sound only if it changes
   * nothing.
   */
  lemma SoundSaveExactly(n: Node, copy: nat, u: Update)
    requires LockSound(n) && Lands(n, copy, u)
    ensures LockSound(Saved(n, copy, u)) <==>
            u.version > n.copies[copy].row.version || Updated(n.copies[copy].row, u) == n.copies[copy].row
  {
    var c := n.copies[copy];
    var n' := Saved(n, copy, u);
    assert c in n.copies;
    assert n'.copies == n.copies && n'.queue.jobs == n.queue.jobs[c.row.id := Updated(c.row, u)];
    if !(u.version > c.row.version || Updated(c.row, u) == c.row) {
      assert c in n'.copies && n'.queue.jobs[c.row.id].version <= c.row.version;
    }
  }

  lemma DemandSound(n: Node, d: Demand)
    requires Inv(n) && LockSound(n) && |n.queue.jobs| < MAX_ROWS
    ensures LockSound(Demanded(n, d))
  {
    hide Inv, Queue.Valid, Queue.IndexOk, SyntheticUuid, NewRow, Upsert, Demanded;
    InvParts(n);
    UpsertKeeps(n.queue, d);
    ValidParts(n.queue);
    DemandShape(n, d);
  }

  lemma ClaimSound(n: Node, now: Instant, leaseUntil: Instant, list: seq<Job>, limit: int)
    requires LockSound(n)
    ensures LockSound(ClaimedDue(n, now, leaseUntil, list, limit))
  {
    hide DueListing;
    if DueListing(list, n.queue, now) {
      var rows := Limited(list, limit);
      ClaimShape(n, now, leaseUntil, list, limit);
      var n' := ClaimedDue(n, now, leaseUntil, list, limit);
      ClaimSoundEffect(n, rows, leaseUntil, n');
    }
  }

  lemma ClaimSoundEffect(n: Node, rows: seq<Job>, leaseUntil: Instant, n': Node)
    requires LockSound(n) && ClaimEffect(n, rows, leaseUntil, n')
    ensures LockSound(n')
  {
    forall c | c in n'.copies
      ensures c.row.id in n'.queue.jobs
      ensures c.row.version <= n'.queue.jobs[c.row.id].version
      ensures c.row.version == n'.queue.jobs[c.row.id].version ==> c.row == n'.queue.jobs[c.row.id]
    {
      if c !in n.copies {
        assert c in ClaimCopies(n, rows, leaseUntil);
        var i :| 0 <= i < |rows| && c == ClaimCopies(n, rows, leaseUntil)[i];
        assert rows[i] in rows;
      }
    }
  }

  lemma StepSound(n: Node, a: Action)
    requires Inv(n) && LockSound(n) && |n.queue.jobs| < MAX_ROWS && AlwaysNewer(n, a)
    ensures LockSound(Apply(n, a))
  {
    hide Inv, Demanded, ClaimedDue, Saved, LockSound;
    match a
    case DemandWork(d) => DemandSound(n, d);
    case ReadRow(id) => ReadSound(n, id);
    case ClaimDue(now, leaseUntil, list, limit) => ClaimSound(n, now, leaseUntil, list, limit);
    case SaveCopy(copy, u) =>
      if Lands(n, copy, u) { SoundSaveExactly(n, copy, u); } else { NothingLands(n, copy, u); }
  }

  lemma ReadSound(n: Node, id: string)
    requires Inv(n) && LockSound(n)
    ensures LockSound(Read(n, id))
  {
    hide RowsCarryLatest, CopiesFresh, FinishersSawAll, MintedIds;
    assert id in n.queue.jobs ==> n.queue.jobs[id].id == id;
  }

  ghost predicate AlwaysNewerRun(actions: seq<Action>) {
    forall i | 0 <= i < |actions| :: AlwaysNewer(Run(Initial(), actions[..i]), actions[i])
  }

  lemma {:induction false} ReachableSound(actions: seq<Action>)
    requires |actions| <= MAX_ROWS && AlwaysNewerRun(actions)
    ensures LockSound(Run(Initial(), actions))
  {
    hide LockSound, Apply, Inv;
    if actions == [] {
      InitialSound();
    } else {
      var m := |actions| - 1;
      var before := actions[..m];
      assert forall i | 0 <= i < m :: before[..i] == actions[..i] && before[i] == actions[i];
      ReachableSound(before);
      Reachable(before);
      StepSound(Run(Initial(), before), actions[m]);
    }
  }

  lemma InitialSound()
    ensures LockSound(Initial())
  {
  }

  /** When every save advances the version, a save lands only on the very row its worker read. */
  lemma NoLostUpdate(actions: seq<Action>, copy: nat, u: Update)
    requires |actions| <= MAX_ROWS && AlwaysNewerRun(actions)
    ensures var n := Run(Initial(), actions);
            Lands(n, copy, u) ==>
              n.copies[copy].row.id in n.queue.jobs && n.queue.jobs[n.copies[copy].row.id] == n.copies[copy].row
  {
    ReachableSound(actions);
    var n := Run(Initial(), actions);
    if Lands(n, copy, u) { assert n.copies[copy] in n.copies; }
  }

  /** Without the advance a second worker's save, prepared from the same row, lands too and erases the first. */
  lemma SecondSaveLandsExactly(n: Node, id: string, u: Update, w: Update)
    requires n.queue.Valid() && id in n.queue.jobs
    ensures var row := n.queue.jobs[id];
            var first := |n.copies|;
            var read := Read(Read(n, id), id);
            var saved := Saved(read, first, u);
            && Lands(read, first, u)
            && saved.queue.jobs[id] == Updated(row, u)
            && (Lands(saved, first + 1, w) <==> u.version == row.version)
            && (u.version == row.version ==> Saved(saved, first + 1, w).queue.jobs[id] == Updated(row, w))
  {
    hide MintedIds;
    assert n.queue.jobs[id].id == id;
  }

  /** A row read and saved without interference holds the worker's fields, with its own key and demand. */
  lemma SaveCommits(n: Node, id: string, u: Update)
    requires n.queue.Valid() && id in n.queue.jobs
    ensures
      var row := n.queue.jobs[id];
      var n' := Apply(Apply(n, ReadRow(id)), SaveCopy(|n.copies|, u));
      && n'.queue.jobs == n.queue.jobs[id :=
          Job(row.id, row.kind, row.dedupKey, row.payloadVersion, row.payload, u.state,
                                                 u.availableAt, u.leaseUntil, u.attemptCount, u.lastErrorCode,
                                                     u.version)]
      && n'.finishedSeeing == (if u.state == Succeeded || u.state == Failed
                               then n.finishedSeeing[id := Seen(n, row.dedupKey)] else n.finishedSeeing)
  {
    hide MintedIds;
    assert n.queue.jobs[id].id == id;
    assert Apply(n, ReadRow(id)).copies[|n.copies|] == Copy(n.queue.jobs[id], Seen(n, n.queue.jobs[id].dedupKey));
  }

  // ---- leases ----

  ghost predicate Claims(n: Node, a: Action, id: string) {
    a.ClaimDue? && DueListing(a.list, n.queue, a.now) && id in Ids(Limited(a.list, a.limit))
  }

  predicate SavesRow(n: Node, a: Action, id: string) {
    a.SaveCopy? && Lands(n, a.copy, a.update) && n.copies[a.copy].row.id == id
  }

  predicate Leased(n: Node, id: string, leaseUntil: Instant) {
    id in n.queue.jobs && n.queue.jobs[id].state == Running && n.queue.jobs[id].leaseUntil == leaseUntil
  }

  predicate ClockNeverBack(actions: seq<Action>) {
    forall i, j | 0 <= i < j < |actions| && actions[i].ClaimDue? && actions[j].ClaimDue? ::
        actions[i].now <= actions[j].now
  }

  lemma ClaimLeases(n: Node, a: Action, id: string)
    requires n.queue.IndexOk() && Claims(n, a, id)
    ensures Leased(Apply(n, a), id, a.leaseUntil)
    ensures id in n.queue.jobs && Due(n.queue.jobs[id], a.now)
  {
    var rows := Limited(a.list, a.limit);
    var row :| row in rows && row.id == id;
    assert row in a.list;
  }

  lemma DemandLeased(n: Node, d: Demand, id: string, leaseUntil: Instant)
    requires Inv(n) && |n.queue.jobs| < MAX_ROWS && Leased(n, id, leaseUntil)
    ensures Leased(Demanded(n, d), id, leaseUntil)
  {
    hide Inv, Queue.Valid, Queue.IndexOk, SyntheticUuid, NewRow, Upsert, Demanded;
    InvParts(n);
    UpsertKeeps(n.queue, d);
    ValidParts(n.queue);
    DemandShape(n, d);
  }

  lemma ClaimLeased(n: Node, a: Action, id: string, leaseUntil: Instant)
    requires n.queue.IndexOk() && Leased(n, id, leaseUntil) && a.ClaimDue? && a.now < leaseUntil
    ensures Leased(Apply(n, a), id, leaseUntil) && !Claims(n, a, id)
  {
    hide Queue.IndexOk, DueListing;
    if Claims(n, a, id) {
      ClaimLeases(n, a, id);
      assert false;
    }
  }

  lemma SaveLeased(n: Node, copy: nat, u: Update, id: string, leaseUntil: Instant)
    requires Leased(n, id, leaseUntil) && !SavesRow(n, SaveCopy(copy, u), id)
    ensures Leased(Saved(n, copy, u), id, leaseUntil)
  {
    if !Lands(n, copy, u) { NothingLands(n, copy, u); }
  }

  lemma LeaseStep(n: Node, a: Action, id: string, leaseUntil: Instant)
    requires Inv(n) && |n.queue.jobs| < MAX_ROWS && Leased(n, id, leaseUntil)
    requires !SavesRow(n, a, id) && (a.ClaimDue? ==> a.now < leaseUntil)
    ensures Leased(Apply(n, a), id, leaseUntil) && !Claims(n, a, id)
  {
    hide Inv, SavesRow, Demanded, ClaimedDue, Saved, DueListing;
    InvIndex(n);
    match a
    case DemandWork(d) => DemandLeased(n, d, id, leaseUntil);
    case ReadRow(_) =>
    case ClaimDue(_, _, _, _) => ClaimLeased(n, a, id, leaseUntil);
    case SaveCopy(copy, u) => SaveLeased(n, copy, u, id, leaseUntil);
  }

  lemma {:induction false} LeaseHolds(actions: seq<Action>, i: nat, k: nat, id: string)
    requires |actions| <= MAX_ROWS && NeverOlderRun(actions) && i < k <= |actions|
    requires actions[i].ClaimDue? && Claims(Run(Initial(), actions[..i]), actions[i], id)
    requires forall m | i < m < k :: !SavesRow(Run(Initial(), actions[..m]), actions[m], id)
    requires forall m | i < m < k && actions[m].ClaimDue? :: actions[m].now < actions[i].leaseUntil
    ensures Leased(Run(Initial(), actions[..k]), id, actions[i].leaseUntil)
  {
    hide Inv, Apply, Run, Leased, Claims, SavesRow;
    var m := k - 1;
    RunOneMore(actions, m);
    var n := Run(Initial(), actions[..m]);
    PrefixReachable(actions, m);
    if m == i {
      InvIndex(n);
      ClaimLeases(n, actions[i], id);
    } else {
      LeaseHolds(actions, i, m, id);
      LeaseStep(n, actions[m], id, actions[i].leaseUntil);
    }
  }

  lemma RunOneMore(actions: seq<Action>, m: nat)
    requires m < |actions|
    ensures Run(Initial(), actions[..m + 1]) == Apply(Run(Initial(), actions[..m]), actions[m])
  {
    assert actions[..m + 1][..m] == actions[..m];
  }

  lemma InvIndex(n: Node)
    requires Inv(n)
    ensures n.queue.IndexOk()
  {
  }

  lemma PrefixReachable(actions: seq<Action>, m: nat)
    requires |actions| <= MAX_ROWS && NeverOlderRun(actions) && m <= |actions|
    ensures Inv(Run(Initial(), actions[..m])) && |Run(Initial(), actions[..m]).queue.jobs| <= m
  {
    hide Inv, Apply, Run;
    assert forall i | 0 <= i < m :: actions[..m][..i] == actions[..i] && actions[..m][i] == actions[i];
    Reachable(actions[..m]);
  }

  /**
   * With a clock that never goes back, a row is claimed again before its lease has run out only if it was saved in
   * between.
   */
  lemma NoSecondClaimWithinLease(actions: seq<Action>, i: nat, j: nat, id: string)
    requires |actions| <= MAX_ROWS && i < j < |actions| && actions[i].ClaimDue? && actions[j].ClaimDue?
    ensures NeverOlderRun(actions) && ClockNeverBack(actions)
            && Claims(Run(Initial(), actions[..i]), actions[i], id) &&
                Claims(Run(Initial(), actions[..j]), actions[j], id)
            && (forall m | i < m < j :: !SavesRow(Run(Initial(), actions[..m]), actions[m], id))
            ==> actions[j].now >= actions[i].leaseUntil
  {
    hide Inv, Apply, Run, SavesRow;
    if NeverOlderRun(actions) && ClockNeverBack(actions)
       && Claims(Run(Initial(), actions[..i]), actions[i], id) && Claims(Run(Initial(), actions[..j]), actions[j], id)
       && (forall m | i < m < j :: !SavesRow(Run(Initial(), actions[..m]), actions[m], id))
       && actions[j].now < actions[i].leaseUntil {
      LeaseHolds(actions, i, j, id);
      PrefixReachable(actions, j);
      InvIndex(Run(Initial(), actions[..j]));
      ClaimLeases(Run(Initial(), actions[..j]), actions[j], id);
    }
  }
}
