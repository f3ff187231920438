/** The delivery repository with its hash index, and the consumption that runs inside one transaction. */
module DeliveryStore {
  import opened Outcomes
  import opened Deliveries

  lemma SaveDeliveryKeeps(s: Store, d: Delivery, expectedVersion: nat)
    requires s.Valid() && SaveDelivery(s, d, expectedVersion).Ok?
    ensures SaveDelivery(s, d, expectedVersion).value.Valid()
  {
  }

  /** Saving a grant keeps the hash index exactly when its hash is the stored one. */
  lemma SaveGrantKeepsExactly(s: Store, g: Grant, expectedVersion: nat)
    requires s.Valid() && SaveGrant(s, g, expectedVersion).Ok?
    ensures SaveGrant(s, g, expectedVersion).value.Valid() <==> g.tokenHash == s.grants[g.id].tokenHash
  {
    var t := SaveGrant(s, g, expectedVersion).value;
    var prior := s.grants[g.id];
    assert t.grants[g.id] == g && t.byHash == s.byHash && s.byHash[prior.tokenHash] == g.id;
  }

  lemma InvalidateKeeps(s: Store, t: Target, now: Instant)
    requires s.Valid()
    ensures InvalidateGrants(s, t, now).Valid()
  {
    var n := InvalidateGrants(s, t, now);
    assert forall id | id in s.grants ::
        n.grants[id].id == s.grants[id].id && n.grants[id].tokenHash == s.grants[id].tokenHash;
  }

  lemma InvalidateRows(s: Store, t: Target, now: Instant)
    ensures var n := InvalidateGrants(s, t, now);
            && n == s.(grants := n.grants) && n.grants.Keys == s.grants.Keys
            && forall id | id in s.grants ::
                n.grants[id] == if Hits(s.grants[id], t) then s.grants[id].Killed(now) else s.grants[id]
  {
  }

  lemma KilledStep(g: Grant, now: Instant)
    ensures g.Killed(now) == if g.Invalidate(now).Ok? then g.Invalidate(now).value else g
  {
  }

  lemma InsertGrantKeeps(s: Store, g: Grant)
    requires s.Valid() && InsertGrant(s, g).Ok?
    ensures InsertGrant(s, g).value.Valid()
  {
  }

  class DeliveryRepository {
    var deliveries: map<string, Delivery>
    var grants: map<string, Grant>
    var grantsByHash: map<string, string>
    /** The keys whose delivery ciphertext is stored; the secret repository of the same transaction. */
    var deliverySecrets: set<string>

    function View(): Store
      reads this
    {
      Store(deliveries, grants, grantsByHash)
    }

    constructor ()
      ensures View() == Store(map[], map[], map[]) && View().Valid()
    {
      deliveries, grants, grantsByHash, deliverySecrets := map[], map[], map[], {};
    }

    method GetDeliveryForUpdate(deliveryId: string) returns (r: Result<Delivery>)
      requires View().Valid()
      ensures r == if deliveryId in deliveries then Ok(deliveries[deliveryId]) else Err(NotFound)
    {
      if deliveryId !in deliveries { return Err(NotFound); }
      return Ok(deliveries[deliveryId]);
    }

    /** The index answers as a scan of all grants would. */
    method GetGrantForUpdate(tokenHash: string) returns (r: Result<Grant>)
      requires View().Valid()
      ensures r.Ok? <==> exists id :: id in grants && grants[id].tokenHash == tokenHash
      ensures r.Ok? ==> forall id | id in grants :: grants[id].tokenHash == tokenHash <==> grants[id] == r.value
      ensures r.Err? ==> r.error == NotFound
    {
      if tokenHash !in grantsByHash { return Err(NotFound); }
      return Ok(grants[grantsByHash[tokenHash]]);
    }

    method InsertDelivery(d: Delivery) returns (r: Result<()>)
      requires View().Valid()
      modifies this`deliveries
      ensures View().Valid()
      ensures r == if d.id in old(deliveries) then Err(Duplicate) else Ok(())
      ensures r.Ok? <==> Deliveries.InsertDelivery(old(View()), d).Ok?
      ensures r.Err? ==> Deliveries.InsertDelivery(old(View()), d) == Err(r.error)
      ensures View() == if r.Ok? then Deliveries.InsertDelivery(old(View()), d).value else old(View())
    {
      if d.id in deliveries { return Err(Duplicate); }
      deliveries := deliveries[d.id := d];
      return Ok(());
    }

    method InsertGrant(g: Grant) returns (r: Result<()>)
      requires View().Valid()
      modifies this`grants, this`grantsByHash
      ensures View().Valid()
      ensures r == if g.id in old(grants) || TokenTaken(old(grants), g.tokenHash) then Err(Duplicate) else Ok(())
      ensures r.Ok? <==> Deliveries.InsertGrant(old(View()), g).Ok?
      ensures r.Err? ==> Deliveries.InsertGrant(old(View()), g) == Err(r.error)
      ensures View() == if r.Ok? then Deliveries.InsertGrant(old(View()), g).value else old(View())
    {
      if g.id in grants || g.tokenHash in grantsByHash { return Err(Duplicate); }
      InsertGrantKeeps(View(), g);
      grants := grants[g.id := g];
      grantsByHash := grantsByHash[g.tokenHash := g.id];
      return Ok(());
    }

    method SaveDelivery(d: Delivery, expectedVersion: nat) returns (r: Result<()>)
      requires View().Valid()
      modifies this`deliveries
      ensures View().Valid()
      ensures r.Err? <==> Deliveries.SaveDelivery(old(View()), d, expectedVersion).Err?
      ensures r.Err? ==> r.error == Deliveries.SaveDelivery(old(View()), d, expectedVersion).error
      ensures View() == if r.Ok? then Deliveries.SaveDelivery(old(View()), d, expectedVersion).value else old(View())
    {
      if d.id !in deliveries { return Err(NotFound); }
      if deliveries[d.id].version != expectedVersion { return Err(VersionConflict); }
      SaveDeliveryKeeps(View(), d, expectedVersion);
      deliveries := deliveries[d.id := d];
      return Ok(());
    }

    method SaveGrant(g: Grant, expectedVersion: nat) returns (r: Result<()>)
      requires View().Valid()
      modifies this`grants
      ensures r.Err? <==> Deliveries.SaveGrant(old(View()), g, expectedVersion).Err?
      ensures View().Valid() <==> r.Err? || (g.id in old(grants) && g.tokenHash == old(grants)[g.id].tokenHash)
      ensures r.Err? ==> r.error == Deliveries.SaveGrant(old(View()), g, expectedVersion).error
      ensures View() == if r.Ok? then Deliveries.SaveGrant(old(View()), g, expectedVersion).value else old(View())
    {
      if g.id !in grants { return Err(NotFound); }
      if grants[g.id].version != expectedVersion { return Err(VersionConflict); }
      SaveGrantKeepsExactly(View(), g, expectedVersion);
      grants := grants[g.id := g];
      return Ok(());
    }

    /** The three invalidation loops differ only in the grants they pick. */
    method InvalidateGrants(t: Target, now: Instant)
      requires View().Valid()
      modifies this`grants
      ensures View() == Deliveries.InvalidateGrants(old(View()), t, now) && View().Valid()
      ensures grants.Keys == old(grants.Keys)
      ensures forall id | id in grants :: grants[id] == AfterInvalidation(old(grants[id]), t, now)
    {
      hide Store.Valid, Hits, Grant.Invalidate, Grant.Killed, Deliveries.InvalidateGrants;
      ghost var start := grants;
      ghost var after := Deliveries.InvalidateGrants(View(), t, now).grants;
      InvalidateKeeps(View(), t, now);
      InvalidateRows(View(), t, now);
      var left := grants.Keys;
      while left != {}
        invariant left <= grants.Keys == start.Keys
        invariant forall id | id in grants :: grants[id] == if id in left then start[id] else after[id]
        decreases left
      {
        var id :| id in left;
        left := left - {id};
        var g := grants[id];
        KilledStep(g, now);
        if !Hits(g, t) { continue; }
        var next := g.Invalidate(now);
        if next.Err? { continue; }
        grants := grants[id := next.value];
      }
      assert grants == after;
      forall id | id in grants ensures grants[id] == AfterInvalidation(start[id], t, now) {
        InvalidationExactly(start[id], t, now);
      }
    }

    /** The private branch: the link is consumed, the delivery starts, the stored ciphertext and the other links go. */
    method ReleaseKey(g: Grant, keyMaterialId: string, now: Instant) returns (r: Result<Delivery>)
      requires View().Valid() && g.id in grants && grants[g.id] == g
      requires g.consumedAt == 0 && g.invalidatedAt == 0 && now < g.expiresAt
      modifies this
      ensures View().Valid()
      ensures r.Err? ==> View() == old(View()) && deliverySecrets == old(deliverySecrets)
      ensures r.Ok? <==> Startable(old(View()), g.deliveryId, now)
      ensures r.Err? ==> r.error == DeliveryRefusal(old(View()), g.deliveryId)
      ensures r.Ok? ==> Released(old(View()), View(), g, r.value, now)
      ensures r.Ok? ==> deliverySecrets == old(deliverySecrets) - {keyMaterialId}
    {
      hide Store.Valid, Deliveries.InvalidateGrants, Grant.Consume, Delivery.CanConsume, AfterInvalidation, Released;
      ghost var before := View();
      ConsumeExactly(g, now);
      OwnIds(View());
      var held := GetDeliveryForUpdate(g.deliveryId);
      if held.Err? { return Err(held.error); }
      TransitionsExactly(held.value, "", now);
      var released := held.value.Consume(now);
      if released.Err? { return Err(released.error); }
      var savedGrant := SaveGrant(g.Consume(now).value, g.version);
      assert savedGrant.Ok?;
      var savedDelivery := SaveDelivery(released.value, held.value.version);
      assert savedDelivery.Ok?;
      deliverySecrets := deliverySecrets - {keyMaterialId};
      ReleasedRows(before, g, now);
      InvalidateGrants(PrivateOf(released.value.id), now);
      return Ok(released.value);
    }

    /**
     * The consumption of one link inside a transaction that holds the row locks; on an error the transaction is
     * discarded. `scope` is what the lookup of the managing authority answers. Ok(Some(d)) released the private key of
     * delivery d.
     */
    method CommitConsumption(
      tokenHash: string, purpose: GrantPurpose, certificateId: string, keyMaterialId: string, scope: Result<()>,
          now: Instant)
      returns (r: Result<Option<Delivery>>)
      requires View().Valid()
      modifies this
      ensures View().Valid()
      ensures r.Err? ==> View() == old(View()) && deliverySecrets == old(deliverySecrets)
      ensures r.Ok? ==>
                exists g | Redeemed(old(View()), g, tokenHash, purpose, certificateId, now) ::
                  if purpose == LeafPublic then
                    && r.value == None
                    && View() == old(View()).(grants :=
                        old(grants)[g.id := g.(consumedAt := now, version := g.version + 1)])
                    && deliverySecrets == old(deliverySecrets)
                  else
                    && r.value.Some? && Released(old(View()), View(), g, r.value.value, now)
                    && deliverySecrets == old(deliverySecrets) - {keyMaterialId}
      ensures r.Err? ==> r.error == Refusal(old(View()), tokenHash, purpose, certificateId, scope, now)
      ensures r.Ok? <==>
                && scope.Ok?
                && exists g | Redeemed(old(View()), g, tokenHash, purpose, certificateId, now) ::
                     purpose == LeafPublic || Startable(old(View()), g.deliveryId, now)
    {
      hide Store.Valid, Released, Grant.Consume, Grant.Validate, Delivery.CanConsume, DeliveryRefusal, Refusal;
      ghost var before := View();
      NoLink(View(), tokenHash, purpose, certificateId, scope, now);
      var found := GetGrantForUpdate(tokenHash);
      if found.Err? { return Err(found.error); }
      var g := found.value;
      OwnIds(View());
      OnlyLink(View(), g, purpose, certificateId, now);
      RefusalOf(View(), g, purpose, certificateId, scope, now);
      ValidateExactly(g, g.purpose, g.certificateId, g.deliveryId, now);
      var usable := g.Validate(g.purpose, g.certificateId, g.deliveryId, now);
      if usable.Err? { return Err(usable.error); }
      if g.purpose != purpose || g.certificateId != certificateId { return Err(Conflict); }
      assert Redeemed(before, g, tokenHash, purpose, certificateId, now);
      if scope.Err? { return Err(scope.error); }
      if g.purpose != LeafPrivate {
        ConsumeExactly(g, now);
        var saved := SaveGrant(g.Consume(now).value, g.version);
        assert saved.Ok?;
        return Ok(None);
      }
      var released := ReleaseKey(g, keyMaterialId, now);
      if released.Err? { return Err(released.error); }
      return Ok(Some(released.value));
    }
  }

  /** A link after an invalidation: marked exactly when it is one of those meant and unspent. */
  function AfterInvalidation(g: Grant, t: Target, now: Instant): Grant {
    var meant := match t
      case PrivateOf(deliveryId) => g.purpose == LeafPrivate && g.deliveryId == deliveryId
      case PublicOf(certificateId) => g.purpose == LeafPublic && g.certificateId == certificateId
      case AllPublic => g.purpose == LeafPublic;
    if meant && g.consumedAt == 0 && g.invalidatedAt == 0 then g.(invalidatedAt := now, version := g.version + 1) else g
  }

  lemma InvalidationExactly(g: Grant, t: Target, now: Instant)
    ensures AfterInvalidation(g, t, now) == if Hits(g, t) then g.Killed(now) else g
  {
    KilledExactly(g, now);
  }

  /**
   * The key of the link's delivery left the store: the delivery was waiting and within its deadline, it is in transfer
   * since `now`, the link is consumed, and every other unspent private link of the delivery is invalidated.
   */
  ghost predicate Released(s: Store, t: Store, g: Grant, d: Delivery, now: Instant) {
    && Startable(s, g.deliveryId, now) && g.id in s.grants
    && d == s.deliveries[g.deliveryId].(state := Transferring, consumedAt := now,
                                        version := s.deliveries[g.deliveryId].version + 1)
    && t.deliveries == s.deliveries[g.deliveryId := d] && t.byHash == s.byHash && t.grants.Keys == s.grants.Keys
    && t.grants[g.id] == AfterInvalidation(g.(consumedAt := now, version := g.version + 1),
        PrivateOf(g.deliveryId), now)
    && forall id | id in s.grants && id != g.id ::
         t.grants[id] == AfterInvalidation(s.grants[id], PrivateOf(g.deliveryId), now)
  }

  lemma ReleasedRows(s: Store, g: Grant, now: Instant)
    requires g.id in s.grants && Startable(s, g.deliveryId, now) && s.deliveries[g.deliveryId].id == g.deliveryId
    ensures
      var held := s.deliveries[g.deliveryId];
      var d := held.(state := Transferring, consumedAt := now, version := held.version + 1);
      var mid := s.(grants := s.grants[g.id := g.(consumedAt := now, version := g.version + 1)],
                    deliveries := s.deliveries[g.deliveryId := d]);
      Released(s, Deliveries.InvalidateGrants(mid, PrivateOf(g.deliveryId), now), g, d, now)
  {
    hide AfterInvalidation, Grant.Killed, Hits;
    var held := s.deliveries[g.deliveryId];
    var d := held.(state := Transferring, consumedAt := now, version := held.version + 1);
    var mid := s.(grants := s.grants[g.id := g.(consumedAt := now, version := g.version + 1)],
                  deliveries := s.deliveries[g.deliveryId := d]);
    InvalidateRows(mid, PrivateOf(g.deliveryId), now);
    forall id | id in mid.grants
      ensures Deliveries.InvalidateGrants(mid, PrivateOf(g.deliveryId), now).grants[id] ==
              AfterInvalidation(mid.grants[id], PrivateOf(g.deliveryId), now)
    {
      InvalidationExactly(mid.grants[id], PrivateOf(g.deliveryId), now);
    }
  }

  /** Why a delivery that cannot start does not: it is missing, not waiting, or past its deadline. */
  function DeliveryRefusal(s: Store, deliveryId: string): Error {
    if deliveryId !in s.deliveries then NotFound
    else if s.deliveries[deliveryId].state != Pending then InvalidTransition
    else Error.Expired
  }

  /** Why a consumption that fails does so, by the first failing rule. */
  ghost function Refusal(
    s: Store, tokenHash: string, purpose: GrantPurpose, certificateId: string, scope: Result<()>, now: Instant): Error
  {
    if !exists id :: id in s.grants && s.grants[id].tokenHash == tokenHash then NotFound
    else
      var id :| id in s.grants && s.grants[id].tokenHash == tokenHash;
      var g := s.grants[id];
      if g.consumedAt != 0 || g.invalidatedAt != 0 then AlreadyConsumed
      else if now >= g.expiresAt then Error.Expired
      else if g.purpose != purpose || g.certificateId != certificateId then Conflict
      else if scope.Err? then scope.error
      else DeliveryRefusal(s, g.deliveryId)
  }

  lemma NoLink(s: Store, tokenHash: string, purpose: GrantPurpose, certificateId: string, scope: Result<()>,
      now: Instant)
    ensures (forall id | id in s.grants :: s.grants[id].tokenHash != tokenHash) ==>
              Refusal(s, tokenHash, purpose, certificateId, scope, now) == NotFound
  {
    hide DeliveryRefusal;
  }

  lemma RefusalOf(s: Store, g: Grant, purpose: GrantPurpose, certificateId: string, scope: Result<()>, now: Instant)
    requires s.Valid() && g.id in s.grants && s.grants[g.id] == g
    ensures
      Refusal(s, g.tokenHash, purpose, certificateId, scope, now) ==
      if g.consumedAt != 0 || g.invalidatedAt != 0 then AlreadyConsumed
      else if now >= g.expiresAt then Error.Expired
      else if g.purpose != purpose || g.certificateId != certificateId then Conflict
      else if scope.Err? then scope.error
      else DeliveryRefusal(s, g.deliveryId)
  {
    hide DeliveryRefusal;
  }

  predicate Startable(s: Store, deliveryId: string, now: Instant) {
    deliveryId in s.deliveries && s.deliveries[deliveryId].state == Pending && now < s.deliveries[deliveryId].expiresAt
  }

  /** No other link has the hash of a stored one. */
  lemma OnlyLink(s: Store, g: Grant, purpose: GrantPurpose, certificateId: string, now: Instant)
    requires s.Valid() && g.id in s.grants && s.grants[g.id] == g
    ensures forall other | Redeemed(s, other, g.tokenHash, purpose, certificateId, now) :: other == g
  {
  }

  lemma OwnIds(s: Store)
    requires s.Valid()
    ensures forall id | id in s.grants :: s.grants[id].id == id
    ensures forall id | id in s.deliveries :: s.deliveries[id].id == id
  {
  }

  /** The unique index on the token hash, as a scan. */
  predicate TokenTaken(grants: map<string, Grant>, tokenHash: string) {
    exists id :: id in grants && grants[id].tokenHash == tokenHash
  }

  /** The link with this hash is unspent, within its deadline, and matches what was prepared. */
  ghost predicate Redeemed(s: Store, g: Grant, tokenHash: string, purpose: GrantPurpose, certificateId: string,
      now: Instant) {
    && g.id in s.grants && s.grants[g.id] == g && g.tokenHash == tokenHash
    && g.consumedAt == 0 && g.invalidatedAt == 0 && now < g.expiresAt
    && g.purpose == purpose && g.certificateId == certificateId
  }
}
