/** What a CRL signing call checks and lists (cryptoengine/crl_signer.go); the signature itself is not modelled. */
module CrlSigner {
  import opened Outcomes
  import opened HexNumbers
  import opened Ordering
  import opened Revocations
  import Calendar

  /**
   * port.CRLSnapshot: captured in one transaction, signed outside it. `issuerWindow` is the issuer certificate's
   * validity.
   */
  datatype Snapshot = Snapshot(
    caKeyGenerationId: string,
    number: CRLNumber,
    thisUpdate: Instant,
    nextUpdate: Instant,
    coveredGeneration: int,
    issuerNotBefore: Instant,
    issuerNotAfter: Instant,
    revoked: seq<Revocation>)

  /** One revokedCertificates entry (section 5.1.2.6 of RFC 5280). */
  datatype Entry = Entry(serialNumber: nat, revocationTime: Instant, reasonCode: nat)

  datatype SignError = BadSnapshot | ForeignRow | DuplicateSerial | UnsupportedReason | Unwritable

  datatype SignResult<+T> = Signed(value: T) | Refused(error: SignError)

  predicate IsWholeSecond(t: Instant) { t % MICROS_PER_SECOND == 0 }

  /** time.Truncate(time.Second), which rounds towards the past. */
  function TruncateToSecond(t: Instant): Instant { t - t % MICROS_PER_SECOND }

  function TimeCeil(t: Instant): (r: Instant)
    ensures IsWholeSecond(r) && r >= t
    ensures forall s | IsWholeSecond(s) && s >= t :: s >= r
  {
    var rounded := TruncateToSecond(t);
    if rounded < t then rounded + MICROS_PER_SECOND else rounded
  }

  predicate SnapshotTimesValid(s: Snapshot) {
    && !s.number.IsZero() && s.thisUpdate != 0 && s.nextUpdate != 0
    && s.nextUpdate > s.thisUpdate && s.coveredGeneration >= 0
    && IsWholeSecond(s.thisUpdate) && IsWholeSecond(s.nextUpdate)
    && !(s.issuerNotBefore == 0 && s.issuerNotAfter == 0)
    && s.issuerNotBefore <= s.thisUpdate < s.issuerNotAfter
  }

  /** Reason codes of section 5.3.1 of RFC 5280. */
  function ReasonCode(reason: RevocationReason): Option<nat> {
    match reason
    case Unspecified => Some(0)
    case KeyCompromise => Some(1)
    case CACompromise => Some(2)
    case AffiliationChanged => Some(3)
    case Superseded => Some(4)
    case CessationOfOperation => Some(5)
    case PrivilegeWithdrawn => Some(9)
    case AACompromise => Some(10)
    case OtherReason(_) => None
  }

  /** The importing side of the same table (cryptoformats/pki_parser.go). */
  function ImportedReason(code: int): Option<RevocationReason> {
    match code
    case 0 => Some(Unspecified)
    case 1 => Some(KeyCompromise)
    case 2 => Some(CACompromise)
    case 3 => Some(AffiliationChanged)
    case 4 => Some(Superseded)
    case 5 => Some(CessationOfOperation)
    case 9 => Some(PrivilegeWithdrawn)
    case 10 => Some(AACompromise)
    case _ => None
  }

  /** Writing and importing reason codes are inverse, and a reason has a code exactly when it validates. */
  lemma ReasonTablesAgree(reason: RevocationReason, code: nat)
    ensures ReasonCode(reason) == Some(code) <==> ImportedReason(code) == Some(reason)
    ensures ReasonCode(reason).Some? <==> reason.Valid()
  {
    match reason {
      case Unspecified =>
      case KeyCompromise =>
      case CACompromise =>
      case AffiliationChanged =>
      case Superseded =>
      case CessationOfOperation =>
      case PrivilegeWithdrawn =>
      case AACompromise =>
      case OtherReason(_) =>
    }
  }

  predicate SerialLe(a: Revocation, b: Revocation) { a.serial.Big() <= b.serial.Big() }

  predicate RowBelongs(row: Revocation, s: Snapshot) {
    && row.issuerId == s.caKeyGenerationId
    && !row.serial.IsZero() && row.revokedAt != 0
    && row.changeGeneration <= s.coveredGeneration
    && row.reason.Valid()
  }

  function EntryOf(row: Revocation): Entry
    requires row.reason.Valid()
  {
    Entry(row.serial.Big(), TimeCeil(row.revokedAt), ReasonCode(row.reason).value)
  }

  function EntriesOf(rows: seq<Revocation>): (r: seq<Entry>)
    requires forall row | row in rows :: row.reason.Valid()
    ensures |r| == |rows| && forall i | 0 <= i < |r| :: r[i] == EntryOf(rows[i])
  {
    seq(|rows|, i requires 0 <= i < |rows| => EntryOf(rows[i]))
  }

  /** The loop of revokedEntries over rows already sorted, from row `i` on. */
  function Scan(rows: seq<Revocation>, i: nat, s: Snapshot): SignResult<seq<Entry>>
    requires i <= |rows|
    decreases |rows| - i
  {
    if i == |rows| then Signed([])
    else if !RowBelongs(rows[i], s) then Refused(ForeignRow)
    else if i > 0 && rows[i - 1].serial.hex == rows[i].serial.hex then Refused(DuplicateSerial)
    else if ReasonCode(rows[i].reason) == None then Refused(UnsupportedReason)
    else
      match Scan(rows, i + 1, s)
      case Signed(rest) => Signed([EntryOf(rows[i])] + rest)
      case Refused(e) => Refused(e)
  }

  function RevokedEntriesSpec(s: Snapshot): SignResult<seq<Entry>> {
    Scan(Sort(s.revoked, SerialLe), 0, s)
  }

  method RevokedEntries(s: Snapshot) returns (r: SignResult<seq<Entry>>)
    ensures r == RevokedEntriesSpec(s)
    ensures r.Signed? <==> ListsSnapshot(s)
    ensures r.Signed? ==> StrictlyIncreasing(r.value) && ListsExactly(r.value, s.revoked)
  {
    RevokedEntriesExact(s);
    var revocations := Sort(s.revoked, SerialLe);
    var entries: seq<Entry> := [];
    var previous: Serial := SerialNumber("");
    assert forall rest: seq<Entry> :: entries + rest == rest;
    for i := 0 to |revocations|
      invariant i > 0 ==> previous == revocations[i - 1].serial
      invariant RevokedEntriesSpec(s) == (
        match Scan(revocations, i, s)
        case Signed(rest) => Signed(entries + rest)
        case Refused(e) => Refused(e))
    {
      var revocation := revocations[i];
      if !RowBelongs(revocation, s) { return Refused(ForeignRow); }
      if i > 0 && previous.hex == revocation.serial.hex { return Refused(DuplicateSerial); }
      var reason := ReasonCode(revocation.reason);
      if reason == None { return Refused(UnsupportedReason); }
      var entry := Entry(revocation.serial.Big(), TimeCeil(revocation.revokedAt), reason.value);
      assert forall rest: seq<Entry> :: (entries + [entry]) + rest == entries + ([entry] + rest);
      entries := entries + [entry];
      previous := revocation.serial;
    }
    assert entries + [] == entries;
    return Signed(entries);
  }

  ghost predicate StrictlyIncreasing(entries: seq<Entry>) {
    forall i, j | 0 <= i < j < |entries| :: entries[i].serialNumber < entries[j].serialNumber
  }

  ghost predicate DistinctSerials(rows: seq<Revocation>) {
    forall i, j | 0 <= i < j < |rows| :: rows[i].serial.hex != rows[j].serial.hex
  }

  /** When signing accepts a snapshot's rows. */
  ghost predicate ListsSnapshot(s: Snapshot) {
    (forall row | row in s.revoked :: RowBelongs(row, s)) && DistinctSerials(s.revoked)
  }

  lemma SerialOrder()
    ensures TotalPreorder(SerialLe)
  {
  }

  lemma RowBelongsReason(row: Revocation, s: Snapshot)
    ensures RowBelongs(row, s) ==> row.reason.Valid() && ReasonCode(row.reason) != None
  {
  }

  ghost predicate RowFits(rows: seq<Revocation>, k: nat, s: Snapshot)
    requires k < |rows|
  {
    RowBelongs(rows[k], s) && (k > 0 ==> rows[k - 1].serial.hex != rows[k].serial.hex)
  }

  lemma ScanOne(rows: seq<Revocation>, i: nat, s: Snapshot)
    requires i < |rows|
    ensures Scan(rows, i, s).Signed? <==> RowFits(rows, i, s) && Scan(rows, i + 1, s).Signed?
    ensures Scan(rows, i, s).Signed? ==> rows[i].reason.Valid()
    ensures Scan(rows, i, s).Signed? ==> Scan(rows, i, s).value == [EntryOf(rows[i])] + Scan(rows, i + 1, s).value
  {
    hide EntryOf;
    RowBelongsReason(rows[i], s);
  }

  /** The scan of rows i.. succeeds exactly when they belong and no neighbours collide; it then maps them in order. */
  lemma {:induction false} ScanExact(rows: seq<Revocation>, i: nat, s: Snapshot)
    requires i <= |rows|
    ensures Scan(rows, i, s).Signed? <==> forall k | i <= k < |rows| :: RowFits(rows, k, s)
    ensures Scan(rows, i, s).Signed? ==>
              (forall row | row in rows[i..] :: row.reason.Valid()) && Scan(rows, i, s).value == EntriesOf(rows[i..])
    decreases |rows| - i
  {
    hide EntryOf, RowFits;
    if i < |rows| {
      ScanExact(rows, i + 1, s);
      ScanOne(rows, i, s);
      hide Scan;
      assert rows[i..] == [rows[i]] + rows[i + 1..];
    }
  }

  /** In rows sorted by number, a repeated serial string shows up between neighbours. */
  lemma NeighboursSuffice(rows: seq<Revocation>)
    requires SortedBy(SerialLe, rows)
    ensures DistinctSerials(rows) <==> NoEqualNeighbours(rows)
    ensures DistinctSerials(rows) ==> forall i, j | 0 <= i < j < |rows| :: rows[i].serial.Big() < rows[j].serial.Big()
  {
    forall i, j | 0 <= i < j < |rows|
      ensures rows[i].serial.hex == rows[j].serial.hex <==> rows[i].serial.Big() == rows[j].serial.Big()
      ensures rows[i].serial.hex == rows[j].serial.hex ==> rows[j - 1].serial.hex == rows[j].serial.hex
    {
      SerialEqualIsCompare(rows[i].serial, rows[j].serial);
      SerialEqualIsCompare(rows[j - 1].serial, rows[j].serial);
      assert SerialLe(rows[j - 1], rows[j]);
      assert i < j - 1 ==> SerialLe(rows[i], rows[j - 1]);
    }
    if DistinctSerials(rows) {
      forall k | 0 < k < |rows| ensures rows[k - 1].serial.hex != rows[k].serial.hex {
        var i := k - 1;
        assert rows[i].serial.hex != rows[k].serial.hex;
      }
      forall i, j | 0 <= i < j < |rows| ensures rows[i].serial.Big() < rows[j].serial.Big() {
        assert SerialLe(rows[i], rows[j]);
      }
    }
    if NoEqualNeighbours(rows) {
      forall i, j | 0 <= i < j < |rows| ensures rows[i].serial.hex != rows[j].serial.hex {
        assert rows[j - 1].serial.hex != rows[j].serial.hex;
      }
    }
  }

  ghost predicate NoEqualNeighbours(rows: seq<Revocation>) {
    forall k | 0 < k < |rows| :: rows[k - 1].serial.hex != rows[k].serial.hex
  }

  /** `entries` is one entry a row and nothing else. */
  ghost predicate ListsExactly(entries: seq<Entry>, rows: seq<Revocation>) {
    && |entries| == |rows|
    && (forall row | row in rows :: row.reason.Valid() && EntryOf(row) in entries)
    && (forall e | e in entries :: exists row :: row in rows && row.reason.Valid() && e == EntryOf(row))
  }

  lemma EntriesOfListsExactly(sorted: seq<Revocation>, rows: seq<Revocation>)
    requires multiset(sorted) == multiset(rows)
    requires forall row | row in sorted :: row.reason.Valid()
    ensures ListsExactly(EntriesOf(sorted), rows)
  {
    SameMembers(sorted, rows);
    var entries := EntriesOf(sorted);
    forall row | row in rows ensures row.reason.Valid() && EntryOf(row) in entries {
      assert row in sorted;
      var k :| 0 <= k < |sorted| && sorted[k] == row;
      assert entries[k] == EntryOf(row);
    }
    forall e | e in entries ensures exists row :: row in rows && row.reason.Valid() && e == EntryOf(row) {
      var k :| 0 <= k < |entries| && entries[k] == e;
      assert sorted[k] in rows;
    }
  }

  /** Distinctness does not depend on the arrangement of the rows. */
  lemma DistinctSerialsPermute(a: seq<Revocation>, b: seq<Revocation>)
    requires multiset(a) == multiset(b) && DistinctSerials(a)
    ensures DistinctSerials(b)
  {
    SameMembers(a, b);
    DistinctMultiplicity(a);
    forall x | x in b ensures multiset(b)[x] == 1 { assert x in a; }
    MultiplicityDistinct(b);
    forall i, j | 0 <= i < j < |b| ensures b[i].serial.hex != b[j].serial.hex {
      assert b[i] in b && b[j] in b;
      var p :| 0 <= p < |a| && a[p] == b[i];
      var q :| 0 <= q < |a| && a[q] == b[j];
      assert p != q;
    }
  }

  /** The whole contract, for any arrangement `sorted` that a sort may return. */
  lemma AnySortExact(s: Snapshot, sorted: seq<Revocation>)
    requires multiset(sorted) == multiset(s.revoked) && SortedBy(SerialLe, sorted)
    ensures Scan(sorted, 0, s).Signed? <==> ListsSnapshot(s)
    ensures ListsSnapshot(s) ==>
              && StrictlyIncreasing(Scan(sorted, 0, s).value)
              && ListsExactly(Scan(sorted, 0, s).value, s.revoked)
  {
    hide RowFits, RowBelongs, NoEqualNeighbours, DistinctSerials, Scan, StrictlyIncreasing, ListsExactly, EntriesOf;
    ScanExact(sorted, 0, s);
    FitsExactly(sorted, s);
    NeighboursSuffice(sorted);
    assert sorted[0..] == sorted;
    if DistinctSerials(sorted) { DistinctSerialsPermute(sorted, s.revoked); }
    if DistinctSerials(s.revoked) { DistinctSerialsPermute(s.revoked, sorted); }
    RowsBelongPermute(s, sorted);
    if ListsSnapshot(s) {
      EntriesOfListsExactly(sorted, s.revoked);
      EntriesIncrease(sorted);
    }
  }

  lemma EntriesIncrease(rows: seq<Revocation>)
    requires forall row | row in rows :: row.reason.Valid()
    requires forall i, j | 0 <= i < j < |rows| :: rows[i].serial.Big() < rows[j].serial.Big()
    ensures StrictlyIncreasing(EntriesOf(rows))
  {
  }

  lemma FitsExactly(rows: seq<Revocation>, s: Snapshot)
    ensures (forall k | 0 <= k < |rows| :: RowFits(rows, k, s)) <==>
              (forall k | 0 <= k < |rows| :: RowBelongs(rows[k], s)) && NoEqualNeighbours(rows)
  {
    hide RowBelongs;
    if forall k | 0 <= k < |rows| :: RowFits(rows, k, s) {
      forall k | 0 <= k < |rows| ensures RowBelongs(rows[k], s) { assert RowFits(rows, k, s); }
      forall k | 0 < k < |rows| ensures rows[k - 1].serial.hex != rows[k].serial.hex { assert RowFits(rows, k, s); }
    }
  }

  lemma RowsBelongPermute(s: Snapshot, sorted: seq<Revocation>)
    requires multiset(sorted) == multiset(s.revoked)
    ensures (forall row | row in s.revoked :: RowBelongs(row, s)) <==>
              (forall k | 0 <= k < |sorted| :: RowBelongs(sorted[k], s))
  {
    SameMembers(sorted, s.revoked);
    assert forall k | 0 <= k < |sorted| :: sorted[k] in s.revoked;
  }

  lemma RevokedEntriesExact(s: Snapshot)
    ensures RevokedEntriesSpec(s).Signed? <==> ListsSnapshot(s)
    ensures ListsSnapshot(s) ==>
              && StrictlyIncreasing(RevokedEntriesSpec(s).value)
              && ListsExactly(RevokedEntriesSpec(s).value, s.revoked)
  {
    SerialOrder();
    SortSorted(s.revoked, SerialLe);
    AnySortExact(s, Sort(s.revoked, SerialLe));
  }

  /** Strictly increasing lists with the same entries are the same list, so no choice of sort shows. */
  lemma {:induction false} IncreasingUnique(a: seq<Entry>, b: seq<Entry>)
    requires StrictlyIncreasing(a) && StrictlyIncreasing(b)
    requires |a| == |b| && forall e :: e in a <==> e in b
    ensures a == b
  {
    if a != [] {
      assert a[0] in b && b[0] in a;
      var p :| 0 <= p < |b| && b[p] == a[0];
      var q :| 0 <= q < |a| && a[q] == b[0];
      assert a[0] == b[0];
      forall e ensures e in a[1..] <==> e in b[1..] {
        TailMembers(a, e);
        TailMembers(b, e);
      }
      IncreasingUnique(a[1..], b[1..]);
      assert a == [a[0]] + a[1..] && b == [b[0]] + b[1..];
    }
  }

  lemma TailMembers(a: seq<Entry>, e: Entry)
    requires a != [] && StrictlyIncreasing(a)
    ensures e in a[1..] <==> e in a && e != a[0]
  {
    assert a == [a[0]] + a[1..];
    assert forall k | 0 < k < |a| :: a[0].serialNumber < a[k].serialNumber;
  }

  lemma SortChoiceInvisible(s: Snapshot, sorted: seq<Revocation>)
    requires multiset(sorted) == multiset(s.revoked) && SortedBy(SerialLe, sorted)
    requires ListsSnapshot(s)
    ensures Scan(sorted, 0, s) == RevokedEntriesSpec(s)
  {
    AnySortExact(s, sorted);
    RevokedEntriesExact(s);
    IncreasingUnique(Scan(sorted, 0, s).value, RevokedEntriesSpec(s).value);
  }

  /** A signed document's content: everything the CRL says except its signature. */
  datatype SignedCRL = SignedCRL(number: CRLNumber, thisUpdate: Instant, nextUpdate: Instant, entries: seq<Entry>)

  /** 0000-01-01, 0001-01-01 (Go's zero time) and 10000-01-01 in microseconds. */
  const YEAR_0: int := -719_528 * MICROS_PER_DAY
  const YEAR_1: int := -719_162 * MICROS_PER_DAY
  const YEAR_10000: int := 2_932_897 * MICROS_PER_DAY

  /** A time that fits GeneralizedTime. */
  predicate WritableTime(t: Instant) { YEAR_0 <= t < YEAR_10000 }

  /**
   * What Go's x509.CreateRevocationList is able to write: a number of at most 20 DER octets, times in four-digit
   * years, and no entry at Go's zero time.
   */
  predicate Writable(s: Snapshot) {
    && s.number.Big() < 8 * Pow16(MAX_HEX_LENGTH - 1)
    && WritableTime(s.thisUpdate) && WritableTime(s.nextUpdate)
    && forall row | row in s.revoked :: WritableTime(TimeCeil(row.revokedAt)) && TimeCeil(row.revokedAt) != YEAR_1
  }

  /** The bounds are those of the calendar. */
  lemma WritableYears(t: Instant)
    ensures WritableTime(t) <==> 0 <= Calendar.DateOf(t).year <= 9999
  {
    hide Calendar.CivilOf, Calendar.DayNumber, Calendar.MonthIndex;
    var first, past, d := Calendar.Date(0, 1, 1), Calendar.Date(10000, 1, 1), Calendar.DateOf(t);
    YearNumbers();
    Calendar.InstantParts(t);
    Calendar.DayOrder(d, first);
    Calendar.DayOrder(d, past);
    YearIndex(d);
  }

  lemma YearNumbers()
    ensures Calendar.DayNumber(Calendar.Date(0, 1, 1)) == -719_528
    ensures Calendar.DayNumber(Calendar.Date(1, 1, 1)) == -719_162
    ensures Calendar.DayNumber(Calendar.Date(10000, 1, 1)) == 2_932_897
  {
  }

  lemma YearIndex(d: Calendar.Date)
    requires d.Valid()
    ensures Calendar.MonthIndex(d) < Calendar.MonthIndex(Calendar.Date(0, 1, 1)) <==> d.year < 0
    ensures Calendar.MonthIndex(d) < Calendar.MonthIndex(Calendar.Date(10000, 1, 1)) <==> d.year < 10000
  {
  }

  function SignCRL(s: Snapshot): SignResult<SignedCRL> {
    if !SnapshotTimesValid(s) then Refused(BadSnapshot)
    else
      match RevokedEntriesSpec(s)
      case Signed(entries) =>
        if Writable(s) then Signed(SignedCRL(s.number, s.thisUpdate, s.nextUpdate, entries)) else Refused(Unwritable)
      case Refused(e) => Refused(e)
  }

  // ---- what is signed ----

  /** A row the list may hold, from its fields: of this key, known, timed, covered, and with a listed reason. */
  predicate RowListable(row: Revocation, issuer: string, coveredGeneration: int) {
    && row.issuerId == issuer && row.serial.hex != "" && row.revokedAt != 0
    && row.changeGeneration <= coveredGeneration && !row.reason.OtherReason?
  }

  /** A time in a four-digit year. */
  ghost predicate FourDigitYear(t: Instant) { 0 <= Calendar.DateOf(t).year <= 9999 }

  ghost predicate Signable(s: Snapshot) {
    && s.number.hex != "" && s.number.Big() < 8 * Pow16(39) && s.coveredGeneration >= 0
    && s.thisUpdate != 0 && s.nextUpdate != 0 && s.thisUpdate < s.nextUpdate
    && s.thisUpdate % 1_000_000 == 0 && s.nextUpdate % 1_000_000 == 0
    && FourDigitYear(s.thisUpdate) && FourDigitYear(s.nextUpdate)
    && (s.issuerNotBefore != 0 || s.issuerNotAfter != 0) && s.issuerNotBefore <= s.thisUpdate < s.issuerNotAfter
    && (forall row | row in s.revoked ::
          && RowListable(row, s.caKeyGenerationId, s.coveredGeneration)
          && FourDigitYear(TimeCeil(row.revokedAt)) && TimeCeil(row.revokedAt) != -62_135_596_800_000_000)
    && (forall i, j | 0 <= i < j < |s.revoked| :: s.revoked[i].serial.hex != s.revoked[j].serial.hex)
  }

  /** When a snapshot is signed, and what the list then says. */
  lemma SignedExactly(s: Snapshot)
    ensures SignCRL(s).Signed? <==> Signable(s)
    ensures SignCRL(s).Signed? ==>
              var crl := SignCRL(s).value;
              && crl.number == s.number && crl.thisUpdate == s.thisUpdate && crl.nextUpdate == s.nextUpdate
              && StrictlyIncreasing(crl.entries) && ListsExactly(crl.entries, s.revoked)
  {
    hide WritableTime, FourDigitYear, RevokedEntriesSpec, ListsExactly, StrictlyIncreasing, Pow16, Value, TimeCeil;
    RevokedEntriesExact(s);
    WritableYears(s.thisUpdate);
    WritableYears(s.nextUpdate);
    YearsIff(s.thisUpdate);
    YearsIff(s.nextUpdate);
    forall row | row in s.revoked ensures WritableTime(TimeCeil(row.revokedAt)) <==>
        FourDigitYear(TimeCeil(row.revokedAt)) {
      YearsIff(TimeCeil(row.revokedAt));
    }
  }

  lemma YearsIff(t: Instant)
    ensures WritableTime(t) <==> FourDigitYear(t)
  {
    WritableYears(t);
    hide Calendar.CivilOf, WritableTime;
  }
}
