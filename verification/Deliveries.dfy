/** The one-shot private key handoff and its download links (internal/domain/delivery.go). */
module Deliveries {
  import opened Outcomes
  import opened HexNumbers

  datatype DeliveryState = Pending | Transferring | ServerCompleted | Failed | Expired

  datatype Delivery = Delivery(
    id: string,
    leafKeyGenerationId: string,
    certificateId: string,
    expiresAt: Instant,
    state: DeliveryState,
    consumedAt: Instant,
    finishedAt: Instant,
    failureCode: string,
    version: nat)
  {
    function CanConsume(now: Instant): Result<()> {
      if state != Pending then Err(InvalidTransition)
      else if IsExpiredAt(expiresAt, now) then Err(Error.Expired)
      else Ok(())
    }

    function Consume(now: Instant): Result<Delivery> {
      var _ :- CanConsume(now);
      Ok(this.(state := Transferring, consumedAt := now, version := version + 1))
    }

    function Complete(now: Instant): Result<Delivery> {
      if state != Transferring then Err(InvalidTransition)
      else Ok(this.(state := ServerCompleted, finishedAt := now, version := version + 1))
    }

    function Fail(code: string, now: Instant): Result<Delivery> {
      if state == Failed || state == DeliveryState.Expired then Err(InvalidTransition)
      else if code == "" then Err(InvalidValue)
      else Ok(this.(state := Failed, failureCode := code, finishedAt := now, version := version + 1))
    }

    function Expire(now: Instant): Result<Delivery> {
      if state != Pending then Err(InvalidTransition)
      else if !IsExpiredAt(expiresAt, now) then Err(InvalidTransition)
      else Ok(this.(state := DeliveryState.Expired, finishedAt := now, version := version + 1))
    }
  }

  function NewDelivery(d: Delivery): Result<Delivery> {
    if !IsUuid(d.id) || !IsUuid(d.leafKeyGenerationId) || !IsUuid(d.certificateId) ||
        d.expiresAt == 0 then Err(InvalidValue)
    else Ok(d)
  }

  /** The CHECK constraints on key_deliveries; an unset instant is stored as NULL. */
  predicate SqlChecks(d: Delivery) {
    && (d.state == Pending ==> d.consumedAt == 0)
    && (d.state == Transferring || d.state == ServerCompleted ==> d.consumedAt != 0)
  }

  datatype GrantPurpose = LeafPublic | LeafPrivate

  datatype Grant = Grant(
    id: string,
    tokenHash: string,
    purpose: GrantPurpose,
    certificateId: string,
    deliveryId: string,
    createdBy: string,
    expiresAt: Instant,
    consumedAt: Instant,
    invalidatedAt: Instant,
    version: nat)
  {
    predicate IsConsumed() { consumedAt != 0 }

    predicate IsInvalidated() { invalidatedAt != 0 }

    predicate Spent() { IsConsumed() || IsInvalidated() }

    function Validate(forPurpose: GrantPurpose, forCertificate: string, forDelivery: string, now: Instant): Result<()> {
      if IsInvalidated() then Err(AlreadyConsumed)
      else if IsConsumed() then Err(AlreadyConsumed)
      else if IsExpiredAt(expiresAt, now) then Err(Error.Expired)
      else if purpose != forPurpose then Err(PolicyViolation)
      else if certificateId != forCertificate then Err(PolicyViolation)
      else if purpose == LeafPrivate && deliveryId != forDelivery then Err(PolicyViolation)
      else Ok(())
    }

    function Consume(now: Instant): Result<Grant> {
      var _ :- Validate(purpose, certificateId, deliveryId, now);
      Ok(this.(consumedAt := now, version := version + 1))
    }

    function Invalidate(now: Instant): Result<Grant> {
      if IsConsumed() then Err(AlreadyConsumed)
      else if IsInvalidated() then Ok(this)
      else Ok(this.(invalidatedAt := now, version := version + 1))
    }

    /** How the repository applies Invalidate: a refusal leaves the row alone. */
    function Killed(now: Instant): Grant {
      var next := Invalidate(now);
      if next.Ok? then next.value else this
    }
  }

  function NewDownloadGrant(g: Grant): Result<Grant> {
    if !IsUuid(g.id) || g.tokenHash == "" || !IsUuid(g.certificateId) || !IsUuid(g.createdBy) then Err(InvalidValue)
    else if g.purpose == LeafPrivate && !IsUuid(g.deliveryId) then Err(InvalidValue)
    else if g.purpose == LeafPublic && g.deliveryId != "" then Err(InvalidValue)
    else if g.expiresAt == 0 then Err(InvalidValue)
    else Ok(g)
  }

  // ---- stored rows ----

  datatype Store = Store(deliveries: map<string, Delivery>, grants: map<string, Grant>, byHash: map<string, string>) {
    /** The hash index agrees with a scan of the grants. */
    ghost predicate Valid() {
      && (forall id | id in deliveries :: deliveries[id].id == id)
      && (forall id | id in grants :: grants[id].id == id)
      && (forall hash | hash in byHash :: byHash[hash] in grants && grants[byHash[hash]].tokenHash == hash)
      && (forall id | id in grants :: grants[id].tokenHash in byHash && byHash[grants[id].tokenHash] == id)
    }
  }

  function InsertDelivery(s: Store, d: Delivery): Result<Store> {
    if d.id in s.deliveries then Err(Duplicate) else Ok(s.(deliveries := s.deliveries[d.id := d]))
  }

  function InsertGrant(s: Store, g: Grant): Result<Store> {
    if g.id in s.grants || g.tokenHash in s.byHash then Err(Duplicate)
    else Ok(s.(grants := s.grants[g.id := g], byHash := s.byHash[g.tokenHash := g.id]))
  }

  function SaveDelivery(s: Store, d: Delivery, expectedVersion: nat): Result<Store> {
    if d.id !in s.deliveries then Err(NotFound)
    else if s.deliveries[d.id].version != expectedVersion then Err(VersionConflict)
    else Ok(s.(deliveries := s.deliveries[d.id := d]))
  }

  function SaveGrant(s: Store, g: Grant, expectedVersion: nat): Result<Store> {
    if g.id !in s.grants then Err(NotFound)
    else if s.grants[g.id].version != expectedVersion then Err(VersionConflict)
    else Ok(s.(grants := s.grants[g.id := g]))
  }

  datatype Target = PrivateOf(deliveryId: string) | PublicOf(certificateId: string) | AllPublic

  predicate Hits(g: Grant, t: Target) {
    match t
    case PrivateOf(deliveryId) => g.deliveryId == deliveryId && g.purpose == LeafPrivate
    case PublicOf(certificateId) => g.certificateId == certificateId && g.purpose == LeafPublic
    case AllPublic => g.purpose == LeafPublic
  }

  function InvalidateGrants(s: Store, t: Target, now: Instant): Store {
    s.(grants := map id | id in s.grants :: if Hits(s.grants[id], t) then s.grants[id].Killed(now) else s.grants[id])
  }

  /** The store steps of a private consumption, all or nothing. */
  function StoreConsumption(s: Store, grant: Grant, grantVersion: nat, delivery: Delivery, deliveryVersion: nat,
      now: Instant): Result<Store> {
    var a :- SaveGrant(s, grant, grantVersion);
    var b :- SaveDelivery(a, delivery, deliveryVersion);
    Ok(InvalidateGrants(b, PrivateOf(delivery.id), now))
  }

  // ---- what the transitions promise ----

  /** Terminal states are the highest; no transition leads back or sideways. */
  function Rank(state: DeliveryState): nat {
    match state
    case Pending => 0
    case Transferring => 1
    case ServerCompleted => 2
    case Failed => 3
    case Expired => 3
  }

  // ---- the transitions in terms of fields ----

  /** The row after a transition to a state that the transition reaches at a time. */
  function Entered(d: Delivery, state: DeliveryState, at: Instant): Delivery {
    if state == Transferring then d.(state := state, consumedAt := at, version := d.version + 1)
    else d.(state := state, finishedAt := at, version := d.version + 1)
  }

  /** When each transition is allowed, and that it changes no other field. */
  lemma TransitionsExactly(d: Delivery, code: string, now: Instant)
    ensures d.Consume(now) == (if d.state != Pending then Err(InvalidTransition)
                               else if now >= d.expiresAt then Err(Error.Expired)
                               else Ok(Entered(d, Transferring, now)))
    ensures d.Complete(now) == if d.state == Transferring then Ok(Entered(d, ServerCompleted, now))
              else Err(InvalidTransition)
    ensures d.Fail(code, now) == (if d.state == Failed || d.state == DeliveryState.Expired then Err(InvalidTransition)
                                  else if code == "" then Err(InvalidValue)
                                  else Ok(Entered(d, Failed, now).(failureCode := code)))
    ensures d.Expire(now) == (if d.state == Pending &&
              d.expiresAt <= now then Ok(Entered(d, DeliveryState.Expired, now))
                              else Err(InvalidTransition))
  {
  }

  /**
   * A link is accepted exactly unspent, before its deadline and for what it was made for; the first failing rule is
   * told.
   */
  lemma ValidateExactly(g: Grant, purpose: GrantPurpose, certificateId: string, deliveryId: string, now: Instant)
    ensures g.Validate(purpose, certificateId, deliveryId, now) == (
              if g.consumedAt != 0 || g.invalidatedAt != 0 then Err(AlreadyConsumed)
              else if now >= g.expiresAt then Err(Error.Expired)
              else if g.purpose == purpose && g.certificateId == certificateId
                      && (purpose == LeafPublic || g.deliveryId == deliveryId) then Ok(())
              else Err(PolicyViolation))
  {
  }

  lemma ConsumeExactly(g: Grant, now: Instant)
    ensures g.Consume(now) == (
              if g.consumedAt != 0 || g.invalidatedAt != 0 then Err(AlreadyConsumed)
              else if now >= g.expiresAt then Err(Error.Expired)
              else Ok(g.(consumedAt := now, version := g.version + 1)))
  {
    ValidateExactly(g, g.purpose, g.certificateId, g.deliveryId, now);
  }

  /** Invalidation marks exactly an unspent link, refuses a consumed one and passes over an invalidated one. */
  lemma KilledExactly(g: Grant, now: Instant)
    ensures g.Killed(now) == if g.consumedAt == 0 && g.invalidatedAt == 0
                             then g.(invalidatedAt := now, version := g.version + 1) else g
    ensures g.Invalidate(now) == if g.consumedAt != 0 then Err(AlreadyConsumed) else Ok(g.Killed(now))
  {
  }

  /** The links one invalidation is about. */
  lemma HitsExactly(g: Grant, deliveryId: string, certificateId: string)
    ensures Hits(g, PrivateOf(deliveryId)) <==> g.purpose == LeafPrivate && g.deliveryId == deliveryId
    ensures Hits(g, PublicOf(certificateId)) <==> g.purpose == LeafPublic && g.certificateId == certificateId
    ensures Hits(g, AllPublic) <==> g.purpose == LeafPublic
  {
  }

  /** What a new delivery and a new link need. */
  lemma NewRowsExactly(d: Delivery, g: Grant)
    ensures NewDelivery(d) == (if IsUuid(d.id) && IsUuid(d.leafKeyGenerationId) && IsUuid(d.certificateId) &&
              d.expiresAt != 0
                               then Ok(d) else Err(InvalidValue))
    ensures NewDownloadGrant(g) == (
              if IsUuid(g.id) && g.tokenHash != "" && IsUuid(g.certificateId) && IsUuid(g.createdBy) && g.expiresAt != 0
                 && (if g.purpose == LeafPrivate then IsUuid(g.deliveryId) else g.deliveryId == "")
              then Ok(g) else Err(InvalidValue))
  {
    hide IsUuid;
  }
}
