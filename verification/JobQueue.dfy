/** The persistent job queue: one row per dedup key, leases and versions (internal/app/porttest/jobs.go). */
module JobQueue {
  import opened Outcomes
  import opened HexNumbers
  import opened Ordering

  datatype JobState = Pending | Running | Succeeded | Failed

  datatype Job = Job(
    id: string,
    kind: string,
    dedupKey: string,
    payloadVersion: int,
    payload: string,
    state: JobState,
    availableAt: Instant,
    leaseUntil: Instant,
    attemptCount: int,
    lastErrorCode: string,
    version: int)

  datatype Demand = Demand(dedupKey: string, kind: string, payloadVersion: int, payload: string)

  // ---- synthetic ids ----

  /** n >> 4k, one nibble at a time. */
  function Shift(n: nat, k: nat): nat {
    if k == 0 then n else Shift(n / 16, k - 1)
  }

  /** Nibble of `n` shown at position `i` of the 32, before the version and variant digits are forced. */
  function NibbleAt(n: nat, i: nat): nat
    requires i < 32
  {
    Shift(n, 31 - i) % 16
  }

  function SyntheticDigit(n: nat, i: nat): char
    requires i < 32
  {
    if i == 12 then '4' else if i == 16 then '8' else DigitChar(NibbleAt(n, i))
  }

  function SyntheticDigits(n: nat): (s: string)
    ensures |s| == 32
  {
    seq(32, i requires 0 <= i < 32 => SyntheticDigit(n, i))
  }

  function Hyphenated(d: string): string
    requires |d| == 32
  {
    d[0..8] + "-" + d[8..12] + "-" + d[12..16] + "-" + d[16..20] + "-" + d[20..32]
  }

  function SyntheticUuid(n: nat): string { Hyphenated(SyntheticDigits(n)) }

  /** The loop that peels nibbles off the counter. */
  method MakeSyntheticUuid(counter: nat) returns (id: string)
    ensures id == SyntheticUuid(counter)
    ensures IsUuid(id)
  {
    var buf := new char[32](_ => '0');
    var n := counter;
    var i := 32;
    while i > 0
      invariant 0 <= i <= 32
      invariant n == Shift(counter, 32 - i)
      invariant forall j | i <= j < 32 :: buf[j] == DigitChar(NibbleAt(counter, j))
    {
      i := i - 1;
      buf[i] := DigitChar(n % 16);
      ShiftOnce(counter, 31 - i);
      n := n / 16;
    }
    buf[12] := '4';
    buf[16] := '8';
    assert buf[..] == SyntheticDigits(counter);
    SyntheticShape(counter);
    return Hyphenated(buf[..]);
  }

  lemma {:induction false} ShiftOnce(n: nat, k: nat)
    ensures Shift(n, k + 1) == Shift(n, k) / 16
  {
    if k > 0 { ShiftOnce(n / 16, k - 1); }
  }

  lemma {:induction false} ShiftPow(j: nat, k: nat)
    ensures Shift(Pow16(j), k) == if k <= j then Pow16(j - k) else 0
  {
    if k > 0 {
      if j > 0 {
        ShiftPow(j - 1, k - 1);
      } else {
        ShiftZero(k - 1);
      }
    }
  }

  lemma {:induction false} ShiftZero(k: nat)
    ensures Shift(0, k) == 0
  {
    if k > 0 { ShiftZero(k - 1); }
  }

  lemma SyntheticShape(n: nat)
    ensures IsUuid(SyntheticUuid(n))
  {
    var d := SyntheticDigits(n);
    forall i | 0 <= i < 32 ensures IsLowerHexDigit(d[i]) {
      CharRoundTrip(NibbleAt(n, i));
    }
  }

  /** Ids minted from different counters differ, as long as counters stay below 16^15. */
  lemma SyntheticInjective(m: nat, n: nat)
    requires m < Pow16(15) && n < Pow16(15)
    requires SyntheticUuid(m) == SyntheticUuid(n)
    ensures m == n
  {
    var a, b := SyntheticUuid(m), SyntheticUuid(n);
    assert a[24..36] == SyntheticDigits(m)[20..32] && b[24..36] == SyntheticDigits(n)[20..32];
    assert a[19..23] == SyntheticDigits(m)[16..20] && b[19..23] == SyntheticDigits(n)[16..20];
    forall i | 17 <= i < 32 ensures NibbleAt(m, i) == NibbleAt(n, i) {
      if i >= 20 {
        assert a[24..36][i - 20] == b[24..36][i - 20];
      } else {
        assert a[19..23][i - 16] == b[19..23][i - 16];
      }
      assert SyntheticDigit(m, i) == SyntheticDigit(n, i);
      CharRoundTrip(NibbleAt(m, i));
      CharRoundTrip(NibbleAt(n, i));
    }
    NibblesDecide(m, n, 15);
  }

  lemma {:induction false} NibblesDecide(m: nat, n: nat, k: nat)
    requires k <= 31 && m < Pow16(k) && n < Pow16(k)
    requires forall i | 32 - k <= i < 32 :: NibbleAt(m, i) == NibbleAt(n, i)
    ensures m == n
  {
    if k > 0 {
      assert NibbleAt(m, 31) == NibbleAt(n, 31);
      forall i | 33 - k <= i < 32 ensures NibbleAt(m / 16, i) == NibbleAt(n / 16, i) {
        assert NibbleAt(m, i - 1) == NibbleAt(n, i - 1);
      }
      NibblesDecide(m / 16, n / 16, k - 1);
    }
  }

  // ---- the queue ----

  /** 16^15 - 1 */
  const MAX_ROWS: nat := 0xFFF_FFFF_FFFF_FFFF

  datatype Queue = Queue(jobs: map<string, Job>, byDedup: map<string, string>) {
    /** Ids are the synthetic ones 1 .. |jobs|, and each dedup key has exactly one row, found by the index. */
    ghost predicate Valid() {
      IndexOk() && jobs.Keys == MintedIds(|jobs.Keys|)
    }

    /** What the lookups need: a key in the index has a row. */
    ghost predicate KeysHaveRows() {
      forall key | key in byDedup :: byDedup[key] in jobs
    }

    ghost predicate IndexOk() {
      && (forall id | id in jobs :: jobs[id].id == id)
      && (forall key | key in byDedup :: byDedup[key] in jobs && jobs[byDedup[key]].dedupKey == key)
      && (forall id | id in jobs :: jobs[id].dedupKey in byDedup && byDedup[jobs[id].dedupKey] == id)
    }
  }

  lemma MaxRows()
    ensures Pow16(15) == MAX_ROWS + 1
  {
    assert Pow16(3) == 0x1000;
    assert Pow16(6) == 0x100_0000;
    assert Pow16(9) == 0x10_0000_0000;
    assert Pow16(12) == 0x1_0000_0000_0000;
  }

  ghost function MintedIds(n: nat): set<string> { set k | 1 <= k <= n :: SyntheticUuid(k) }

  /** A new demand merged into the row that already holds its key, whatever state that row is in. */
  function Merged(row: Job, d: Demand): Job {
    var merged := row.(kind := d.kind, payloadVersion := d.payloadVersion, payload := d.payload,
        version := row.version + 1);
    if row.state == Succeeded || row.state == Failed then
      merged.(state := Pending, leaseUntil := 0, availableAt := 0, attemptCount := 0, lastErrorCode := "")
    else merged
  }

  function NewRow(id: string, d: Demand): Job {
    Job(id, d.kind, d.dedupKey, d.payloadVersion, d.payload, Pending, 0, 0, 0, "", 0)
  }

  function Upsert(q: Queue, d: Demand): Queue
    requires d.dedupKey in q.byDedup ==> q.byDedup[d.dedupKey] in q.jobs
  {
    if d.dedupKey in q.byDedup then
      var id := q.byDedup[d.dedupKey];
      q.(jobs := q.jobs[id := Merged(q.jobs[id], d)])
    else
      var id := SyntheticUuid(|q.jobs.Keys| + 1);
      Queue(q.jobs[id := NewRow(id, d)], q.byDedup[d.dedupKey := id])
  }

  predicate Due(row: Job, now: Instant) {
    match row.state
    case Pending => row.availableAt == 0 || IsExpiredAt(row.availableAt, now)
    case Running => IsExpiredAt(row.leaseUntil, now)
    case _ => false
  }

  function Claimed(row: Job, leaseUntil: Instant): Job {
    row.(state := Running, leaseUntil := leaseUntil, attemptCount := row.attemptCount + 1, version := row.version + 1)
  }

  predicate IdLe(a: Job, b: Job) { StringLe(a.id, b.id) }

  /** `list` is every due row once, by id. */
  ghost predicate DueListing(list: seq<Job>, q: Queue, now: Instant) {
    && SortedBy(IdLe, list)
    && Distinct(list)
    && (forall row | row in list :: row.id in q.jobs && q.jobs[row.id] == row && Due(row, now))
    && (forall id | id in q.jobs && Due(q.jobs[id], now) :: q.jobs[id] in list)
  }

  /** The nibbles above the lowest are those of the quotient. */
  lemma NibbleAbove(q: nat, i: nat)
    requires i < 32
    ensures NibbleAt(16 * q + 1, i) == if i == 31 then 1 else Shift(q, 30 - i) % 16
  {
  }

  lemma PowDigit(j: nat, k: nat)
    ensures j != k ==> Shift(Pow16(j), k) % 16 == 0
  {
    ShiftPow(j, k);
  }

  lemma NibbleRepeats(i: nat)
    requires i < 32 && i != 16
    ensures NibbleAt(MAX_ROWS + 2, i) == NibbleAt(1, i)
  {
    MaxRows();
    hide NibbleAt, Shift;
    NibbleAbove(Pow16(14), i);
    NibbleAbove(0, i);
    hide Pow16;
    if i < 31 {
      PowDigit(14, 30 - i);
      ShiftZero(30 - i);
    }
  }

  /** The counter loses one nibble to the variant digit, so the ids of a full table begin again. */
  lemma IdsRepeat()
    ensures SyntheticUuid(MAX_ROWS + 2) == SyntheticUuid(1)
  {
    hide NibbleAt;
    forall i | 0 <= i < 32 && i != 16 ensures NibbleAt(MAX_ROWS + 2, i) == NibbleAt(1, i) {
      NibbleRepeats(i);
    }
    assert SyntheticDigits(MAX_ROWS + 2) == SyntheticDigits(1);
  }

  function Limited(list: seq<Job>, limit: int): seq<Job> {
    if limit > 0 && |list| > limit then list[..limit] else list
  }

  method Limit(list: seq<Job>, limit: int) returns (r: seq<Job>)
    ensures r == Limited(list, limit) && r <= list
  {
    r := list;
    if limit > 0 && |list| > limit { r := list[..limit]; }
  }

  function Ids(rows: seq<Job>): set<string> { set row | row in rows :: row.id }

  /** Every chosen row gets the lease; nothing else changes. */
  function ClaimRows(q: Queue, chosen: set<string>, leaseUntil: Instant): Queue {
    q.(jobs := map id | id in q.jobs :: if id in chosen then Claimed(q.jobs[id], leaseUntil) else q.jobs[id])
  }

  function SaveResult(q: Queue, row: Job, expectedVersion: int): Result<()> {
    if row.id !in q.jobs then Err(NotFound)
    else if q.jobs[row.id].version != expectedVersion then Err(VersionConflict)
    else Ok(())
  }

  function SaveRow(q: Queue, row: Job, expectedVersion: int): Queue {
    if SaveResult(q, row, expectedVersion).Err? then q
    else
      Queue(q.jobs[row.id := row], if row.state == Pending then q.byDedup[row.dedupKey := row.id] else q.byDedup)
  }

  lemma MintedFresh(n: nat)
    requires n < MAX_ROWS
    ensures SyntheticUuid(n + 1) !in MintedIds(n)
  {
    MaxRows();
    forall k | 1 <= k <= n ensures SyntheticUuid(k) != SyntheticUuid(n + 1) {
      if SyntheticUuid(k) == SyntheticUuid(n + 1) { SyntheticInjective(k, n + 1); }
    }
  }

  lemma MintedNext(n: nat)
    ensures MintedIds(n + 1) == MintedIds(n) + {SyntheticUuid(n + 1)}
  {
    hide SyntheticUuid;
    forall id ensures id in MintedIds(n + 1) <==> id in MintedIds(n) || id == SyntheticUuid(n + 1) {
      if id in MintedIds(n + 1) {
        var k :| 1 <= k <= n + 1 && id == SyntheticUuid(k);
        assert k <= n ==> id in MintedIds(n);
      }
    }
  }

  lemma IndexReplace(q: Queue, row: Job)
    requires q.IndexOk() && row.id in q.jobs && row.dedupKey == q.jobs[row.id].dedupKey
    ensures q.(jobs := q.jobs[row.id := row]).IndexOk()
  {
  }

  lemma IndexAdd(q: Queue, row: Job)
    requires q.IndexOk() && row.id !in q.jobs && row.dedupKey !in q.byDedup
    ensures Queue(q.jobs[row.id := row], q.byDedup[row.dedupKey := row.id]).IndexOk()
  {
  }

  lemma ValidParts(q: Queue)
    ensures q.Valid() <==> q.IndexOk() && q.jobs.Keys == MintedIds(|q.jobs.Keys|)
  {
  }

  lemma UpsertShape(q: Queue, d: Demand)
    requires q.IndexOk()
    ensures d.dedupKey in q.byDedup ==>
              var row := Merged(q.jobs[q.byDedup[d.dedupKey]], d);
              && Upsert(q, d) == q.(jobs := q.jobs[row.id := row])
              && row.id == q.byDedup[d.dedupKey] && row.dedupKey == q.jobs[row.id].dedupKey
    ensures d.dedupKey !in q.byDedup ==>
              var row := NewRow(SyntheticUuid(|q.jobs.Keys| + 1), d);
              && Upsert(q, d) == Queue(q.jobs[row.id := row], q.byDedup[row.dedupKey := row.id])
              && row.id == SyntheticUuid(|q.jobs.Keys| + 1) && row.dedupKey == d.dedupKey
  {
    hide SyntheticUuid;
  }

  /** What a demand leaves, field by field: a waiting row at once, a finished one revived, a live one with its lease. */
  lemma UpsertExactly(q: Queue, d: Demand)
    requires q.IndexOk()
    ensures
      var id := if d.dedupKey in q.byDedup then q.byDedup[d.dedupKey] else SyntheticUuid(|q.jobs.Keys| + 1);
      var q' := Upsert(q, d);
      && q'.byDedup == q.byDedup[d.dedupKey := id]
      && id in q'.jobs && q'.jobs == q.jobs[id := q'.jobs[id]]
      && var row := q'.jobs[id];
      && row.id == id && row.dedupKey == d.dedupKey
      && row.kind == d.kind && row.payloadVersion == d.payloadVersion && row.payload == d.payload
      && (if d.dedupKey !in q.byDedup then
            row.state == Pending && row.availableAt == 0 && row.leaseUntil == 0 && row.attemptCount == 0
            && row.lastErrorCode == "" && row.version == 0
          else if q.jobs[id].state == Succeeded || q.jobs[id].state == Failed then
            row.state == Pending && row.availableAt == 0 && row.leaseUntil == 0 && row.attemptCount == 0
            && row.lastErrorCode == "" && row.version == q.jobs[id].version + 1
          else
            row.state == q.jobs[id].state && row.availableAt == q.jobs[id].availableAt
            && row.leaseUntil == q.jobs[id].leaseUntil && row.attemptCount == q.jobs[id].attemptCount
            && row.lastErrorCode == q.jobs[id].lastErrorCode && row.version == q.jobs[id].version + 1)
  {
    hide SyntheticUuid, Upsert;
    UpsertShape(q, d);
  }

  /** The index finds the one row with a key. */
  lemma KeyFinds(q: Queue, key: string)
    requires q.IndexOk()
    ensures key in q.byDedup ==> q.byDedup[key] in q.jobs
    ensures forall id | id in q.jobs :: q.jobs[id].dedupKey == key <==> key in q.byDedup && q.byDedup[key] == id
  {
  }

  lemma MergeValid(q: Queue, row: Job)
    requires q.Valid() && row.id in q.jobs && row.dedupKey == q.jobs[row.id].dedupKey
    ensures q.(jobs := q.jobs[row.id := row]).Valid()
  {
    hide MintedIds, Queue.IndexOk;
    IndexReplace(q, row);
    assert q.jobs[row.id := row].Keys == q.jobs.Keys;
  }

  lemma AddValid(q: Queue, row: Job)
    requires q.Valid() && row.dedupKey !in q.byDedup
    requires row.id == SyntheticUuid(|q.jobs.Keys| + 1) && row.id !in q.jobs
    ensures Queue(q.jobs[row.id := row], q.byDedup[row.dedupKey := row.id]).Valid()
  {
    hide MintedIds, SyntheticUuid, Queue.IndexOk;
    var n := |q.jobs.Keys|;
    MintedNext(n);
    IndexAdd(q, row);
    assert q.jobs[row.id := row].Keys == q.jobs.Keys + {row.id};
    assert |q.jobs.Keys + {row.id}| == n + 1;
  }

  /** A new row under an id that is taken leaves the old row's key pointing at the new row. */
  lemma AddOver(q: Queue, row: Job)
    requires q.IndexOk() && row.id in q.jobs && row.dedupKey !in q.byDedup
    ensures !Queue(q.jobs[row.id := row], q.byDedup[row.dedupKey := row.id]).IndexOk()
  {
    var lost := q.jobs[row.id].dedupKey;
    var q' := Queue(q.jobs[row.id := row], q.byDedup[row.dedupKey := row.id]);
    assert lost in q'.byDedup && q'.byDedup[lost] == row.id;
  }

  /**
   * Merging a demand keeps one row a key, found by the index, exactly when the key has a row or the next synthetic id
   * is unused; it is unused below 2^60 - 1 rows.
   */
  lemma UpsertKeeps(q: Queue, d: Demand)
    requires q.Valid()
    ensures Upsert.requires(q, d)
    ensures Upsert(q, d).Valid() <==> d.dedupKey in q.byDedup || SyntheticUuid(|q.jobs.Keys| + 1) !in q.jobs
    ensures |q.jobs| < MAX_ROWS ==> SyntheticUuid(|q.jobs.Keys| + 1) !in q.jobs
  {
    hide *;
    ValidParts(q);
    UpsertShape(q, d);
    KeyFinds(q, d.dedupKey);
    var id := SyntheticUuid(|q.jobs.Keys| + 1);
    if |q.jobs.Keys| < MAX_ROWS { MintedFresh(|q.jobs.Keys|); }
    if d.dedupKey in q.byDedup {
      MergeValid(q, Merged(q.jobs[q.byDedup[d.dedupKey]], d));
    } else if id !in q.jobs {
      AddValid(q, NewRow(id, d));
    } else {
      AddOver(q, NewRow(id, d));
      ValidParts(Upsert(q, d));
    }
  }

  /**
   * What a claim without a limit does to a row, from the row's fields: it is leased exactly when it waits and its time
   * is unset or has come, or when it runs and its lease has run out; otherwise it stays as it is.
   */
  lemma UnlimitedClaim(q: Queue, now: Instant, leaseUntil: Instant, list: seq<Job>, limit: int, id: string)
    requires q.IndexOk() && DueListing(list, q, now) && limit <= 0 && id in q.jobs
    ensures
      var row := q.jobs[id];
      var after := ClaimRows(q, Ids(Limited(list, limit)), leaseUntil).jobs[id];
      if (row.state == Pending && (row.availableAt == 0 || row.availableAt <= now))
         || (row.state == Running && row.leaseUntil <= now)
      then
        after == row.(state := Running, leaseUntil := leaseUntil, attemptCount := row.attemptCount + 1,
                      version := row.version + 1)
      else after == row
  {
    OwnIds(q);
    var row := q.jobs[id];
    assert id in Ids(list) <==> row in list;
    hide Queue.IndexOk, SortedBy, Distinct;
  }

  /** Of the rows that are due a limited claim leases as many as it may, those with the least ids. */
  lemma LimitedClaim(q: Queue, now: Instant, list: seq<Job>, limit: int, id: string, other: string)
    requires q.IndexOk() && DueListing(list, q, now) && limit > 0
    requires id in Ids(list) && other in Ids(Limited(list, limit)) && id !in Ids(Limited(list, limit))
    ensures |Limited(list, limit)| == limit && id != other && StringLe(other, id)
  {
    hide Due, StringLe;
    var i :| 0 <= i < |list| && list[i].id == id;
    var j :| 0 <= j < |Limited(list, limit)| && Limited(list, limit)[j].id == other;
    assert forall k | 0 <= k < |list| && k < limit :: list[k] in Limited(list, limit);
    assert IdLe(list[j], list[i]);
  }

  lemma PutGrows<K, V>(m: map<K, V>, k: K, v: V)
    ensures |m[k := v]| <= |m| + 1
  {
    assert m[k := v].Keys == m.Keys + {k};
  }

  lemma UpsertGrows(q: Queue, d: Demand)
    requires q.IndexOk()
    ensures |Upsert(q, d).jobs| <= |q.jobs| + 1
  {
    hide *;
    UpsertShape(q, d);
    KeyFinds(q, d.dedupKey);
    if d.dedupKey in q.byDedup {
      PutGrows(q.jobs, q.byDedup[d.dedupKey], Merged(q.jobs[q.byDedup[d.dedupKey]], d));
    } else {
      var id := SyntheticUuid(|q.jobs.Keys| + 1);
      PutGrows(q.jobs, id, NewRow(id, d));
    }
  }

  lemma ClaimKeeps(q: Queue, chosen: set<string>, leaseUntil: Instant)
    requires q.Valid()
    ensures ClaimRows(q, chosen, leaseUntil).Valid()
  {
    hide MintedIds;
    assert ClaimRows(q, chosen, leaseUntil).jobs.Keys == q.jobs.Keys;
  }

  lemma SaveIndex(q: Queue, row: Job, expectedVersion: int)
    requires q.IndexOk() && SaveResult(q, row, expectedVersion).Ok? && row.dedupKey == q.jobs[row.id].dedupKey
    ensures SaveRow(q, row, expectedVersion).IndexOk()
  {
    IndexReplace(q, row);
    assert q.byDedup[row.dedupKey := row.id] == q.byDedup;
  }

  lemma SaveMoves(q: Queue, row: Job, expectedVersion: int)
    requires q.IndexOk() && SaveResult(q, row, expectedVersion).Ok? && row.dedupKey != q.jobs[row.id].dedupKey
    ensures !SaveRow(q, row, expectedVersion).IndexOk()
  {
    var lost := q.jobs[row.id].dedupKey;
    var q' := SaveRow(q, row, expectedVersion);
    assert lost in q'.byDedup && q'.byDedup[lost] == row.id && q'.jobs[row.id] == row;
  }

  /** A save keeps the index exactly when it does not move the row to another key. */
  lemma SaveKeeps(q: Queue, row: Job, expectedVersion: int)
    requires q.Valid() && SaveResult(q, row, expectedVersion).Ok?
    ensures SaveRow(q, row, expectedVersion).Valid() <==> row.dedupKey == q.jobs[row.id].dedupKey
  {
    hide MintedIds, Queue.IndexOk;
    var q' := SaveRow(q, row, expectedVersion);
    assert q'.jobs.Keys == q.jobs.Keys;
    if row.dedupKey == q.jobs[row.id].dedupKey {
      SaveIndex(q, row, expectedVersion);
    } else {
      SaveMoves(q, row, expectedVersion);
    }
  }

  class JobRepository {
    var jobs: map<string, Job>
    var jobByDedup: map<string, string>

    function View(): Queue
      reads this
    {
      Queue(jobs, jobByDedup)
    }

    constructor ()
      ensures View() == Queue(map[], map[]) && View().Valid()
    {
      jobs, jobByDedup := map[], map[];
    }

    method UpsertDemand(d: Demand)
      requires View().KeysHaveRows()
      modifies this
      ensures View() == Upsert(old(View()), d) && View().KeysHaveRows()
      ensures old(View().Valid()) ==>
                (View().Valid() <==> d.dedupKey in old(jobByDedup) || SyntheticUuid(|old(jobs)| + 1) !in old(jobs))
    {
      hide SyntheticUuid, MintedIds, Queue.Valid, Queue.IndexOk;
      if View().Valid() { UpsertKeeps(View(), d); }
      if d.dedupKey in jobByDedup {
        var id := jobByDedup[d.dedupKey];
        var existing := jobs[id];
        existing := existing.(kind := d.kind, payloadVersion := d.payloadVersion, payload := d.payload);
        if existing.state == Succeeded || existing.state == Failed {
          existing := existing.(state := Pending, leaseUntil := 0, availableAt := 0, attemptCount := 0,
              lastErrorCode := "");
        }
        existing := existing.(version := existing.version + 1);
        jobs := jobs[id := existing];
        return;
      }
      var id := MakeSyntheticUuid(|jobs| + 1);
      jobs := jobs[id := NewRow(id, d)];
      jobByDedup := jobByDedup[d.dedupKey := id];
    }

    method CollectDue(now: Instant) returns (due: seq<Job>)
      requires View().Valid()
      ensures DueListing(due, View(), now)
    {
      hide DueListing, Queue.IndexOk, MintedIds;
      ValidParts(View());
      OwnIds(View());
      var out: seq<Job> := [];
      var left := jobs.Keys;
      while left != {}
        invariant left <= jobs.Keys && Distinct(out)
        invariant forall row | row in out :: row.id in jobs.Keys - left && jobs[row.id] == row && Due(row, now)
        invariant forall id | id in jobs.Keys - left && Due(jobs[id], now) :: jobs[id] in out
        decreases left
      {
        var id :| id in left;
        left := left - {id};
        if Due(jobs[id], now) { out := out + [jobs[id]]; }
      }
      due := Sort(out, IdLe);
      SortedDue(out, View(), now);
    }

    /** Claims the first `limit` due rows by id; a live lease is never taken over. */
    method ClaimDue(now: Instant, leaseUntil: Instant, limit: int) returns (claimed: seq<Job>, ghost list: seq<Job>)
      requires View().Valid()
      modifies this`jobs
      ensures DueListing(list, old(View()), now)
      ensures View() == ClaimRows(old(View()), Ids(Limited(list, limit)), leaseUntil) && View().Valid()
      ensures |claimed| == |Limited(list, limit)|
      ensures forall i | 0 <= i < |claimed| :: claimed[i] == Claimed(Limited(list, limit)[i], leaseUntil)
    {
      hide *;
      var due := CollectDue(now);
      list := due;
      due := Limit(due, limit);
      ghost var before := View();
      ClaimKeeps(before, Ids(due), leaseUntil);
      claimed := LeaseAll(due, leaseUntil, list, now);
    }

    method LeaseAll(due: seq<Job>, leaseUntil: Instant, ghost list: seq<Job>,
        ghost now: Instant) returns (claimed: seq<Job>)
      requires DueListing(list, View(), now) && due <= list
      modifies this`jobs
      ensures View() == ClaimRows(old(View()), Ids(due), leaseUntil)
      ensures |claimed| == |due| && forall i | 0 <= i < |claimed| :: claimed[i] == Claimed(due[i], leaseUntil)
    {
      hide DueListing, ClaimRows, Ids;
      ghost var before := View();
      ClaimNone(before, due, leaseUntil);
      claimed := [];
      for i := 0 to |due|
        invariant |claimed| == i && forall j | 0 <= j < i :: claimed[j] == Claimed(due[j], leaseUntil)
        invariant View() == ClaimRows(before, Ids(due[..i]), leaseUntil)
      {
        var job := due[i];
        job := job.(state := Running, leaseUntil := leaseUntil, attemptCount := job.attemptCount + 1,
            version := job.version + 1);
        ClaimOneMore(before, due, i, leaseUntil, list, now);
        jobs := jobs[job.id := job];
        claimed := claimed + [job];
      }
      assert due[..|due|] == due;
    }

    method Save(job: Job, expectedVersion: int) returns (r: Result<()>)
      requires View().Valid()
      modifies this
      ensures r == SaveResult(old(View()), job, expectedVersion)
      ensures View() == SaveRow(old(View()), job, expectedVersion)
      ensures View().Valid() <==> r.Err? || job.dedupKey == old(jobs)[job.id].dedupKey
    {
      if SaveResult(View(), job, expectedVersion).Ok? { SaveKeeps(View(), job, expectedVersion); }
      if job.id !in jobs { return Err(NotFound); }
      if jobs[job.id].version != expectedVersion { return Err(VersionConflict); }
      jobs := jobs[job.id := job];
      if job.state == Pending { jobByDedup := jobByDedup[job.dedupKey := job.id]; }
      return Ok(());
    }

    /** The index answers as a scan would: the one row with this key, if any. */
    method GetByDedupKey(dedupKey: string) returns (r: Result<Job>)
      requires View().Valid()
      ensures r.Ok? <==> exists id :: id in jobs && jobs[id].dedupKey == dedupKey
      ensures r.Err? ==> r.error == NotFound
      ensures r.Ok? ==> forall id | id in jobs :: jobs[id].dedupKey == dedupKey <==> jobs[id] == r.value
    {
      if dedupKey !in jobByDedup { return Err(NotFound); }
      return Ok(jobs[jobByDedup[dedupKey]]);
    }
  }

  lemma OwnIds(q: Queue)
    requires q.IndexOk()
    ensures forall id | id in q.jobs :: q.jobs[id].id == id
  {
  }

  lemma SortedDue(out: seq<Job>, q: Queue, now: Instant)
    requires Distinct(out)
    requires forall row | row in out :: row.id in q.jobs && q.jobs[row.id] == row && Due(row, now)
    requires forall id | id in q.jobs && Due(q.jobs[id], now) :: q.jobs[id] in out
    ensures DueListing(Sort(out, IdLe), q, now)
  {
    hide Sort, IdLe, Due;
    SameMembers(out, Sort(out, IdLe));
    SortDistinct(out, IdLe);
    IdOrder();
    SortSorted(out, IdLe);
  }

  lemma IdOrder()
    ensures TotalPreorder(IdLe)
  {
    StringOrder();
    forall x: Job, y: Job, z: Job | IdLe(x, y) && IdLe(y, z) ensures IdLe(x, z) { StringTransitive(x.id, y.id, z.id); }
    forall x: Job, y: Job ensures IdLe(x, y) || IdLe(y, x) { StringTotal(x.id, y.id); }
  }

  lemma ClaimNone(q: Queue, due: seq<Job>, leaseUntil: Instant)
    ensures ClaimRows(q, Ids(due[..0]), leaseUntil) == q
  {
    assert ClaimRows(q, {}, leaseUntil).jobs == q.jobs;
  }

  lemma ClaimOneMore(q: Queue, due: seq<Job>, i: nat, leaseUntil: Instant, list: seq<Job>, now: Instant)
    requires DueListing(list, q, now) && due <= list && i < |due|
    ensures due[i].id in q.jobs
    ensures var done := ClaimRows(q, Ids(due[..i]), leaseUntil);
            ClaimRows(q, Ids(due[..i + 1]), leaseUntil) ==
            done.(jobs := done.jobs[due[i].id := Claimed(due[i], leaseUntil)])
  {
    assert due[i] == list[i] && list[i] in list;
    assert due[..i + 1] == due[..i] + [due[i]];
    assert Ids(due[..i + 1]) == Ids(due[..i]) + {due[i].id};
  }
}
