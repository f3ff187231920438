/** Certificate periods and key rotation of a leaf series (internal/domain/series.go). */
module Renewals {
  import opened Outcomes
  import opened HexNumbers
  import opened Calendar

  datatype ValidityUnit = Years | Months | Days

  /** A period that its constructor accepts. */
  datatype CalendarValidity = CalendarValidity(value: int, unit: ValidityUnit) {
    predicate Valid() { NewCalendarValidity(value, unit) == Ok(this) }
  }

  datatype ValidityWindow = ValidityWindow(notBefore: Instant, notAfter: Instant) {
    predicate Covers(inner: ValidityWindow) { inner.notBefore >= notBefore && inner.notAfter <= notAfter }

    predicate IsZero() { notBefore == 0 && notAfter == 0 }
  }

  function NewCalendarValidity(value: int, unit: ValidityUnit): Result<CalendarValidity> {
    if value <= 0 then Err(InvalidValue) else Ok(CalendarValidity(value, unit))
  }

  /** A period counts at least one unit. */
  lemma PeriodUnits(value: int, unit: ValidityUnit)
    ensures NewCalendarValidity(value, unit) ==
            if 1 <= value then Ok(CalendarValidity(value, unit)) else Err(InvalidValue)
  {
  }

  function NewValidityWindow(notBefore: Instant, notAfter: Instant): Result<ValidityWindow> {
    if notAfter <= notBefore then Err(InvalidValue) else Ok(ValidityWindow(notBefore, notAfter))
  }

  const MAX_INT64: int := 0x7FFF_FFFF_FFFF_FFFF
  const TWO_TO_64: int := 0x1_0000_0000_0000_0000

  predicate IsInt64(n: int) { -MAX_INT64 - 1 <= n <= MAX_INT64 }

  function Wrap64(n: int): (r: int)
    ensures IsInt64(r) && (r == n <==> IsInt64(n))
  {
    (n + MAX_INT64 + 1) % TWO_TO_64 - MAX_INT64 - 1
  }

  /** time.Time's zero value, 0001-01-01T00:00:00Z, in microseconds. */
  const YEAR_ONE: int := -719_162 * MICROS_PER_DAY

  lemma YearOneDate()
    ensures DayNumber(Date(1, 1, 1)) * MICROS_PER_DAY == YEAR_ONE
  {
  }

  /** NewInstant: Go's zero time reads as unset, and microseconds wrap at 64 bits. */
  function NewInstant(t: int): Instant { if t == YEAR_ONE then 0 else Wrap64(t) }

  /** The calendar end of a period, before it is stored. */
  function PeriodEnd(v: CalendarValidity, notBefore: Instant): int {
    match v.unit
    case Years => AddCalendarMonths(notBefore, v.value * 12)
    case Months => AddCalendarMonths(notBefore, v.value)
    case Days => notBefore + v.value * MICROS_PER_DAY
  }

  function Window(v: CalendarValidity, notBefore: Instant): Result<ValidityWindow> {
    NewValidityWindow(notBefore, NewInstant(PeriodEnd(v, notBefore)))
  }

  /**
   * A positive period ends after it begins, later for a larger count; v years are 12v months; days keep the time of
   * day.
   */
  lemma PeriodsRise(v: CalendarValidity, w: CalendarValidity, notBefore: Instant)
    requires 0 < v.value < w.value && v.unit == w.unit
    ensures notBefore < PeriodEnd(v, notBefore) < PeriodEnd(w, notBefore)
    ensures PeriodEnd(CalendarValidity(v.value, Years), notBefore) ==
              PeriodEnd(CalendarValidity(12 * v.value, Months), notBefore)
    ensures DayOf(PeriodEnd(CalendarValidity(v.value, Days), notBefore)) == DayOf(notBefore) + v.value
    ensures TimeOfDay(PeriodEnd(CalendarValidity(v.value, Days), notBefore)) == TimeOfDay(notBefore)
  {
    hide AddCalendarMonths;
    AddMonthsRises(notBefore, v.value * 12, w.value * 12);
    AddMonthsRises(notBefore, v.value, w.value);
    AddMonthsRises(notBefore, 0, v.value);
    AddMonthsRises(notBefore, 0, v.value * 12);
  }

  lemma PeriodForward(v: CalendarValidity, notBefore: Instant)
    requires v.value > 0
    ensures PeriodEnd(v, notBefore) > notBefore
  {
    hide AddCalendarMonths;
    PeriodsRise(v, CalendarValidity(v.value + 1, v.unit), notBefore);
  }

  /**
   * The stored window is the calendar period exactly when its end fits the stored integer and is not Go's zero time.
   */
  lemma WindowExact(v: CalendarValidity, notBefore: Instant)
    requires v.value > 0 && IsInt64(notBefore)
    ensures Window(v, notBefore) == Ok(ValidityWindow(notBefore, PeriodEnd(v, notBefore))) <==>
            PeriodEnd(v, notBefore) <= MAX_INT64 && PeriodEnd(v, notBefore) != YEAR_ONE
  {
    hide PeriodEnd, Wrap64;
    PeriodForward(v, notBefore);
    assert Wrap64(PeriodEnd(v, notBefore)) == PeriodEnd(v, notBefore) <==> IsInt64(PeriodEnd(v, notBefore));
  }

  /** In year 0 a one-year period ends at Go's zero time and is stored as ending in 1970. */
  lemma YearZeroExample()
    ensures var start := DayNumber(Date(0, 1, 1)) * MICROS_PER_DAY;
            && PeriodEnd(CalendarValidity(1, Years), start) == YEAR_ONE
            && Window(CalendarValidity(1, Years), start) == Ok(ValidityWindow(start, 0))
  {
    hide AddCalendarMonths, CivilOf, DayNumber, PeriodEnd;
    var start := DayNumber(Date(0, 1, 1)) * MICROS_PER_DAY;
    CivilBijection(Date(0, 1, 1), 0);
    InstantParts(start);
    AddMonthsExact(start, 12);
    var end := AddCalendarMonths(start, 12);
    SameMonth(DateOf(end), Date(1, 1, 1));
    InstantParts(end);
    YearOneDate();
    PeriodYears(1, start);
    PeriodForward(CalendarValidity(1, Years), start);
  }

  lemma PeriodYears(value: int, start: Instant)
    ensures PeriodEnd(CalendarValidity(value, Years), start) == AddCalendarMonths(start, 12 * value)
  {
    hide AddCalendarMonths;
  }

  /**
   * The end of a period in closed form: years and months move the month and clamp the day, days move the day number,
   * and the time of day stays.
   */
  lemma PeriodClosed(v: CalendarValidity, notBefore: Instant)
    ensures
      var n := PeriodEnd(v, notBefore);
      var d, r := CivilOf(notBefore / 86_400_000_000), CivilOf(n / 86_400_000_000);
      && n % 86_400_000_000 == notBefore % 86_400_000_000
      && (v.unit == Days ==> n / 86_400_000_000 == notBefore / 86_400_000_000 + v.value)
      && (v.unit != Days ==>
            && CivilDays(d.year, d.month, d.day) == notBefore / 86_400_000_000
            && CivilDays(r.year, r.month, r.day) == n / 86_400_000_000
            && 12 * r.year + r.month == 12 * d.year + d.month + (if v.unit == Years then 12 * v.value else v.value)
            && r.day == Least(d.day, NextFirst(r.year, r.month) - CivilDays(r.year, r.month, 1)))
  {
    hide AddCalendarMonths, CivilOf, CivilDays, NextFirst;
    AddMonthsClosed(notBefore, if v.unit == Years then v.value * 12 else v.value);
  }

  // ---- renewal plans ----

  const MIN_ROTATE_EVERY: int := 1
  const MAX_ROTATE_EVERY: int := 100

  datatype SeriesPolicy = SeriesPolicy(rotateEvery: int, certificateValidity: CalendarValidity) {
    predicate Valid() { MIN_ROTATE_EVERY <= rotateEvery <= MAX_ROTATE_EVERY && certificateValidity.Valid() }
  }

  datatype KeyGeneration = KeyGeneration(id: string, seriesId: string, generationNo: int, renewalCount: int)

  datatype RenewalFacts = RenewalFacts(
    current: KeyGeneration,
    targetIssuerId: string,
    targetIssuerWindow: ValidityWindow,
    requestedWindow: ValidityWindow,
    keyReady: bool,
    isEmergency: bool,
    nextKeyGenerationNo: int)

  datatype RenewalPlan =
    | ReuseKey(nextRenewalCount: int, keyGenerationId: string, window: ValidityWindow)
    | RotateKey(nextRenewalCount: int, nextKeyGenerationNo: int, window: ValidityWindow)

  datatype LeafSeries = LeafSeries(id: string, currentKeyGenerationId: string, policy: SeriesPolicy, version: nat,
      archivedAt: Instant) {
    function ChangePolicy(next: SeriesPolicy): Result<LeafSeries> {
      if archivedAt != 0 then Err(InvalidTransition)
      else if !next.Valid() then Err(InvalidValue)
      else Ok(this.(policy := next, version := version + 1))
    }

    function PlanRenewal(f: RenewalFacts): Result<RenewalPlan> {
      if archivedAt != 0 then Err(InvalidTransition)
      else if f.current.seriesId != id then Err(InvalidValue)
      else if f.current.id != currentKeyGenerationId then Err(PolicyViolation)
      else if !IsUuid(f.targetIssuerId) then Err(InvalidValue)
      else if f.requestedWindow.IsZero() then Err(InvalidValue)
      else
        var policyWindow :- Window(policy.certificateValidity, f.requestedWindow.notBefore);
        if f.requestedWindow.notAfter != policyWindow.notAfter then Err(PolicyViolation)
        else if !f.targetIssuerWindow.IsZero() && !f.targetIssuerWindow.Covers(policyWindow) then Err(PolicyViolation)
        else if f.isEmergency then Rotation(f, policyWindow)
        else if !f.keyReady then Err(NotPermitted)
        else if f.current.renewalCount + 1 >= policy.rotateEvery then Rotation(f, policyWindow)
        else Ok(ReuseKey(f.current.renewalCount + 1, f.current.id, policyWindow))
    }

    function Rotation(f: RenewalFacts, window: ValidityWindow): Result<RenewalPlan> {
      if f.nextKeyGenerationNo <= f.current.generationNo then Err(InvalidValue)
      else Ok(RotateKey(0, f.nextKeyGenerationNo, window))
    }
  }

  /** A renewal needs a new key in an emergency, and when the renewal count reaches the policy's cadence. */
  predicate NeedsNewKey(s: LeafSeries, f: RenewalFacts) {
    f.isEmergency || f.current.renewalCount + 1 >= s.policy.rotateEvery
  }

  /** The requested period is the policy's, and inside the issuer's when that one is given. */
  predicate PeriodAllowed(s: LeafSeries, f: RenewalFacts) {
    var requested, issuer := f.requestedWindow, f.targetIssuerWindow;
    && !(requested.notBefore == 0 && requested.notAfter == 0)
    && requested.notAfter == NewInstant(PeriodEnd(s.policy.certificateValidity, requested.notBefore))
    && requested.notBefore < requested.notAfter
    && ((issuer.notBefore == 0 && issuer.notAfter == 0)
        || (issuer.notBefore <= requested.notBefore && requested.notAfter <= issuer.notAfter))
  }

  /** A period is requested, and the policy gives one that begins with it. */
  predicate PeriodSet(s: LeafSeries, f: RenewalFacts) {
    var requested := f.requestedWindow;
    && !(requested.notBefore == 0 && requested.notAfter == 0)
    && requested.notBefore < NewInstant(PeriodEnd(s.policy.certificateValidity, requested.notBefore))
  }

  /** When a renewal may be planned, what is then planned, and which refusal means what. */
  lemma PlanExactly(s: LeafSeries, f: RenewalFacts)
    ensures s.PlanRenewal(f).Ok? <==>
              && s.archivedAt == 0
              && f.current.seriesId == s.id && f.current.id == s.currentKeyGenerationId && IsUuid(f.targetIssuerId)
              && PeriodAllowed(s, f)
              && (f.isEmergency || f.keyReady)
              && (NeedsNewKey(s, f) ==> f.current.generationNo < f.nextKeyGenerationNo)
    ensures s.PlanRenewal(f).Ok? ==>
              s.PlanRenewal(f).value ==
              if NeedsNewKey(s, f) then RotateKey(0, f.nextKeyGenerationNo, f.requestedWindow)
              else ReuseKey(f.current.renewalCount + 1, f.current.id, f.requestedWindow)
    ensures s.PlanRenewal(f) == Err(InvalidTransition) <==> s.archivedAt != 0
    ensures s.PlanRenewal(f) == Err(NotPermitted) <==>
              && s.archivedAt == 0
              && f.current.seriesId == s.id && f.current.id == s.currentKeyGenerationId && IsUuid(f.targetIssuerId)
              && PeriodAllowed(s, f)
              && !f.isEmergency && !f.keyReady
    ensures s.PlanRenewal(f) == Err(PolicyViolation) <==>
              && s.archivedAt == 0 && f.current.seriesId == s.id
              && (f.current.id != s.currentKeyGenerationId
                  || (IsUuid(f.targetIssuerId) && PeriodSet(s, f) && !PeriodAllowed(s, f)))
    ensures s.PlanRenewal(f).Err? ==>
              s.PlanRenewal(f).error in {InvalidTransition, InvalidValue, PolicyViolation, NotPermitted}
  {
    hide PeriodEnd, NewInstant, IsUuid;
  }

  /** A policy change is refused for an archived series and outside 1 to 100 renewals or for an empty period. */
  lemma PolicyExactly(s: LeafSeries, next: SeriesPolicy)
    ensures s.ChangePolicy(next) == (
              if s.archivedAt != 0 then Err(InvalidTransition)
              else if 1 <= next.rotateEvery <= 100 && next.certificateValidity.value > 0
              then Ok(s.(policy := next, version := s.version + 1))
              else Err(InvalidValue))
  {
  }

  // ---- runs ----

  /** A certificate as issued: its key, and the policy, issuer window and kind of renewal behind it. */
  datatype Certificate = Certificate(
    generationNo: int,
    renewalCount: int,
    policy: SeriesPolicy,
    issuerWindow: ValidityWindow,
    window: ValidityWindow,
    emergency: bool)

  datatype Snapshot = Snapshot(series: LeafSeries, generation: KeyGeneration)

  datatype Node = Node(series: LeafSeries, generation: KeyGeneration, snapshots: seq<Snapshot>,
      issued: seq<Certificate>)

  datatype Action =
    | Open
    | CommitRenewal(snapshot: nat, facts: RenewalFacts, newGenerationId: string)
    | CommitPolicy(snapshot: nat, policy: SeriesPolicy)

  /** A freshly issued series: one certificate on key generation 1. */
  predicate Fresh(n: Node) {
    && n.series.policy.Valid() && n.snapshots == [] && |n.issued| == 1
    && n.generation == KeyGeneration(n.series.currentKeyGenerationId, n.series.id, 1, 0)
    && n.issued[0].generationNo == 1 && n.issued[0].renewalCount == 0 && n.issued[0].policy == n.series.policy
  }

  function Apply(n: Node, a: Action): Node {
    match a
    case Open => n.(snapshots := n.snapshots + [Snapshot(n.series, n.generation)])
    case CommitRenewal(i, facts, newId) => if i < |n.snapshots| then Renewed(n, n.snapshots[i], facts, newId) else n
    case CommitPolicy(i, policy) =>
      if i < |n.snapshots| && n.snapshots[i].series.version == n.series.version &&
          n.snapshots[i].series.ChangePolicy(policy).Ok? then
        n.(series := n.snapshots[i].series.ChangePolicy(policy).value)
      else n
  }

  /** Planned on the snapshot, committed only while the series row has the version that was read. */
  function Renewed(n: Node, s: Snapshot, facts: RenewalFacts, newId: string): Node {
    var plan := s.series.PlanRenewal(facts.(current := s.generation));
    if plan.Err? || s.series.version != n.series.version then n
    else
      var generation :=
        match plan.value
        case ReuseKey(count, _, _) => s.generation.(renewalCount := count)
        case RotateKey(count, no, _) => KeyGeneration(newId, s.series.id, no, count);
      Node(s.series.(currentKeyGenerationId := generation.id, version := s.series.version + 1), generation, n.snapshots,
           n.issued + [Certificate(generation.generationNo, generation.renewalCount, s.series.policy,
                                   facts.targetIssuerWindow, plan.value.window, facts.isEmergency)])
  }

  function Run(n: Node, actions: seq<Action>): Node {
    if actions == [] then n else Apply(Run(n, actions[..|actions| - 1]), actions[|actions| - 1])
  }

  /** A longer run takes the shorter one and then one more step. */
  lemma RunMore(n: Node, actions: seq<Action>, a: Action)
    ensures Run(n, actions + [a]) == Apply(Run(n, actions), a)
  {
    assert (actions + [a])[..|actions|] == actions;
  }

  /** How many certificates a key generation signed. */
  function Uses(issued: seq<Certificate>, generationNo: int): nat {
    if issued == [] then 0
    else Uses(issued[..|issued| - 1], generationNo) + if issued[|issued| - 1].generationNo == generationNo then 1 else 0
  }

  ghost predicate SnapshotsSound(n: Node) {
    forall s | s in n.snapshots ::
      && s.series.version <= n.series.version
      && (s.series.version == n.series.version ==> s.series == n.series && s.generation == n.generation)
  }

  /** A certificate's period is its policy's, inside its issuer's. */
  predicate PeriodOk(c: Certificate) {
    && Window(c.policy.certificateValidity, c.window.notBefore) == Ok(c.window)
    && (c.issuerWindow.IsZero() || c.issuerWindow.Covers(c.window))
  }

  /**
   * Between neighbours the key is kept with the next count, below the rotate_every then in force, or replaced by a
   * higher generation starting at count 0, and without an emergency only once that cadence is reached.
   */
  predicate Follows(b: Certificate, c: Certificate) {
    if c.generationNo == b.generationNo then
      !c.emergency && c.renewalCount == b.renewalCount + 1 && c.renewalCount < c.policy.rotateEvery
    else
      c.generationNo > b.generationNo && c.renewalCount == 0 &&
          (c.emergency || b.renewalCount + 1 >= c.policy.rotateEvery)
  }

  ghost predicate KeysOk(issued: seq<Certificate>) {
    && issued != [] && issued[0].renewalCount == 0
    && (forall i | 0 <= i < |issued| :: issued[i].policy.Valid())
    && (forall i | 0 < i < |issued| :: Follows(issued[i - 1], issued[i]))
  }

  /** The first period is the issuance's; every renewal's is its policy's, inside its issuer's. */
  ghost predicate PeriodsOk(issued: seq<Certificate>) {
    forall i | 0 < i < |issued| :: PeriodOk(issued[i])
  }

  ghost predicate Inv(n: Node) {
    && SnapshotsSound(n) && KeysOk(n.issued) && PeriodsOk(n.issued) && n.series.policy.Valid()
    && n.generation.generationNo == n.issued[|n.issued| - 1].generationNo
    && n.generation.renewalCount == n.issued[|n.issued| - 1].renewalCount
    && n.generation.seriesId == n.series.id && n.generation.id == n.series.currentKeyGenerationId
  }

  lemma WindowStart(v: CalendarValidity, notBefore: Instant)
    ensures Window(v, notBefore).Ok? ==>
              Window(v, notBefore).value.notBefore == notBefore < Window(v, notBefore).value.notAfter
  {
    hide PeriodEnd;
  }

  lemma RenewKeeps(n: Node, s: Snapshot, facts: RenewalFacts, newId: string)
    requires Inv(n) && s in n.snapshots
    ensures Inv(Renewed(n, s, facts, newId))
  {
    hide Window;
    var v := n.series.policy.certificateValidity;
    WindowStart(v, facts.requestedWindow.notBefore);
    var n' := Renewed(n, s, facts, newId);
    if n' != n {
      assert s.series == n.series && s.generation == n.generation;
      var last := n.issued[|n.issued| - 1];
      assert Follows(last, n'.issued[|n.issued|]);
    }
  }

  lemma StepKeeps(n: Node, a: Action)
    requires Inv(n)
    ensures Inv(Apply(n, a))
  {
    hide Window, Renewed, KeysOk, PeriodsOk;
    match a
    case Open =>
    case CommitRenewal(i, facts, newId) => if i < |n.snapshots| { RenewKeeps(n, n.snapshots[i], facts, newId); }
    case CommitPolicy(i, policy) => if i < |n.snapshots| { assert n.snapshots[i] in n.snapshots; }
  }

  lemma {:induction false} Reachable(n: Node, actions: seq<Action>)
    requires Fresh(n)
    ensures Inv(Run(n, actions))
  {
    hide Apply, Window;
    if actions != [] {
      Reachable(n, actions[..|actions| - 1]);
      StepKeeps(Run(n, actions[..|actions| - 1]), actions[|actions| - 1]);
    }
  }

  /** Later certificates never have a lower generation, and a generation once left does not come back. */
  lemma {:induction false} GenerationsRise(issued: seq<Certificate>, i: nat, j: nat)
    requires KeysOk(issued) && i <= j < |issued|
    ensures issued[i].generationNo <= issued[j].generationNo
    decreases j
  {
    hide SeriesPolicy.Valid;
    if i < j {
      GenerationsRise(issued, i, j - 1);
      assert Follows(issued[j - 1], issued[j]);
    }
  }

  /** A key has signed one more certificate than its count says. */
  lemma {:induction false} UsesCount(issued: seq<Certificate>)
    requires KeysOk(issued)
    ensures Uses(issued, issued[|issued| - 1].generationNo) == issued[|issued| - 1].renewalCount + 1
    ensures forall g | g > issued[|issued| - 1].generationNo :: Uses(issued, g) == 0
  {
    hide SeriesPolicy.Valid;
    var m := |issued| - 1;
    var before := issued[..m];
    if m == 0 {
      assert before == [];
    } else {
      assert forall i | 0 <= i < m :: before[i] == issued[i];
      UsesCount(before);
      assert Follows(issued[m - 1], issued[m]);
    }
  }

  /** While rotate_every never exceeds R, no key signs more than R certificates. */
  lemma {:induction false} KeyUseBounded(issued: seq<Certificate>, R: int, generationNo: int)
    requires KeysOk(issued) && R >= 1 && forall c | c in issued :: c.policy.rotateEvery <= R
    ensures Uses(issued, generationNo) <= R
  {
    hide SeriesPolicy.Valid;
    var m := |issued| - 1;
    var before := issued[..m];
    if m == 0 {
      assert before == [];
    } else {
      assert forall i | 0 <= i < m :: before[i] == issued[i];
      KeyUseBounded(before, R, generationNo);
      UsesCount(issued);
      UsesCount(before);
      assert Follows(issued[m - 1], issued[m]) && issued[m] in issued;
    }
  }

  /** Under a constant R a key that a routine renewal replaced has signed exactly R certificates. */
  lemma RoutineRotationExact(issued: seq<Certificate>, R: int, i: nat)
    requires KeysOk(issued) && forall c | c in issued :: c.policy.rotateEvery == R
    requires i + 1 < |issued| && issued[i + 1].generationNo != issued[i].generationNo && !issued[i + 1].emergency
    ensures Uses(issued, issued[i].generationNo) == R
  {
    var upto := issued[..i + 1];
    PrefixOk(issued, i + 1);
    UsesCount(upto);
    assert issued[0] in issued && issued[0].policy.Valid();
    KeyUseBounded(upto, R, issued[i].generationNo);
    assert Follows(issued[i], issued[i + 1]) && issued[i + 1] in issued;
    NoLaterUse(issued, i);
  }

  lemma PrefixOk(issued: seq<Certificate>, k: nat)
    requires KeysOk(issued) && 0 < k <= |issued|
    ensures KeysOk(issued[..k])
  {
    hide SeriesPolicy.Valid, Follows;
    assert forall i | 0 <= i < k :: issued[..k][i] == issued[i];
  }

  lemma {:induction false} NoLaterUse(issued: seq<Certificate>, i: nat)
    requires KeysOk(issued) && i + 1 < |issued| && issued[i + 1].generationNo > issued[i].generationNo
    ensures Uses(issued, issued[i].generationNo) == Uses(issued[..i + 1], issued[i].generationNo)
    decreases |issued|
  {
    hide SeriesPolicy.Valid, Follows;
    var m := |issued| - 1;
    var before := issued[..m];
    GenerationsRise(issued, i + 1, m);
    if i + 1 < m {
      PrefixOk(issued, m);
      NoLaterUse(before, i);
      assert before[..i + 1] == issued[..i + 1];
    }
  }

  /**
   * Over any run of races between renewals, emergencies and policy changes: every period is its policy's and inside
   * its issuer's, generations never go back, and rotate_every bounds how often a key signs.
   */
  lemma RenewalRuns(n: Node, actions: seq<Action>, R: int)
    requires Fresh(n)
    ensures KeysOk(Run(n, actions).issued) && PeriodsOk(Run(n, actions).issued)
    ensures var issued := Run(n, actions).issued;
            R >= 1 && (forall c | c in issued :: c.policy.rotateEvery <= R) ==> forall g :: Uses(issued, g) <= R
  {
    hide Run, PeriodOk, Follows, SeriesPolicy.Valid, Fresh;
    Reachable(n, actions);
    var issued := Run(n, actions).issued;
    if R >= 1 && (forall c | c in issued :: c.policy.rotateEvery <= R) {
      forall g ensures Uses(issued, g) <= R { KeyUseBounded(issued, R, g); }
    }
  }

  // ---- renewals that nothing disturbs ----

  /** A renewal planned on the rows as they are takes effect exactly when it can be planned, and issues that plan. */
  lemma RenewalCommits(n: Node, f: RenewalFacts, newId: string)
    requires f.current == n.generation
    ensures
      var begun := Apply(n, Open);
      var n' := Apply(begun, CommitRenewal(|n.snapshots|, f, newId));
      && begun == n.(snapshots := n.snapshots + [Snapshot(n.series, n.generation)])
      && (n' != begun <==> n.series.PlanRenewal(f).Ok?)
      && (n' != begun ==>
            && n'.issued == n.issued + [Certificate(n'.generation.generationNo, n'.generation.renewalCount,
                n.series.policy,
                                                    f.targetIssuerWindow, f.requestedWindow, f.isEmergency)]
            && n'.generation == (if NeedsNewKey(n.series, f)
                                 then KeyGeneration(newId, n.series.id, f.nextKeyGenerationNo, 0)
                                 else n.generation.(renewalCount := n.generation.renewalCount + 1))
            && n'.series == n.series.(currentKeyGenerationId := n'.generation.id, version := n.series.version + 1))
  {
    hide LeafSeries.PlanRenewal, NeedsNewKey;
    PlanExactly(n.series, f);
    assert f.(current := n.generation) == f;
  }

  /** A policy change on the row as it is. */
  lemma PolicyCommits(n: Node, policy: SeriesPolicy)
    ensures
      Apply(Apply(n, Open), CommitPolicy(|n.snapshots|, policy)).series ==
      if n.series.archivedAt == 0 && 1 <= policy.rotateEvery <= 100 && policy.certificateValidity.value > 0
      then n.series.(policy := policy, version := n.series.version + 1) else n.series
  {
    PolicyExactly(n.series, policy);
    hide LeafSeries.ChangePolicy;
  }
}
