/**
 * One-shot delivery under any interleaving: transactions read a link and a delivery row, commit later under the
 * version check, and race with each other, with new links and with the maintenance sweeps.
 */
module DeliveryProtocol {
  import opened Outcomes
  import opened HexNumbers
  import opened Deliveries
  import DeliveryStore

  datatype Txn = Txn(grant: Option<Grant>, delivery: Option<Delivery>)

  /** A private key left the store, or a delivery moved to another state. */
  datatype Event =
    | Released(deliveryId: string, grantId: string, at: Instant)
    | Moved(deliveryId: string, to: DeliveryState, at: Instant)
  {
    function To(): DeliveryState { if Released? then Transferring else to }
  }

  datatype Node = Node(store: Store, txns: seq<Txn>, history: seq<Event>)

  /** The ways a delivery row is finished, with the state each service insists on first. */
  datatype Move = Completion | TransferFailure(code: string) | ExpirySweep | RestartRecovery | RestoreCleanup | Expiry {
    function Result(d: Delivery, now: Instant): Result<Delivery> {
      match this
      case Completion => d.Complete(now)
      case TransferFailure(code) => d.Fail(code, now)
      case ExpirySweep =>
        if d.state != Pending || !IsExpiredAt(d.expiresAt, now) then Err(NotPermitted)
            else d.Fail("delivery_expired", now)
      case RestartRecovery => if d.state != Transferring then Err(NotPermitted) else d.Fail("interrupted_transfer", now)
      case RestoreCleanup =>
        if d.state != Pending && d.state != Transferring then Err(NotPermitted) else d.Fail("restore_pending", now)
      case Expiry => d.Expire(now)
    }

    predicate KillsLinks() { ExpirySweep? || RestartRecovery? || RestoreCleanup? }
  }

  datatype Action =
    | AddDelivery(delivery: Delivery)
    | AddGrant(grant: Grant)
    | OpenLink(tokenHash: string)
    | OpenDelivery(deliveryId: string)
    | ReadDelivery(txn: nat)
    | CommitConsume(txn: nat, purpose: GrantPurpose, certificateId: string, now: Instant)
    | CommitMove(txn: nat, move: Move, now: Instant)
    | KillPublicLinks(target: Target, now: Instant)

  function Initial(): Node { Node(Store(map[], map[], map[]), [], []) }

  predicate FreshDelivery(d: Delivery) {
    NewDelivery(d).Ok? && d.state == Pending && d.consumedAt == 0 && d.finishedAt == 0 && d.failureCode == "" &&
        d.version == 0
  }

  predicate FreshGrant(g: Grant) { NewDownloadGrant(g).Ok? && !g.Spent() && g.version == 0 }

  function Apply(n: Node, a: Action): Node {
    match a
    case AddDelivery(d) => if FreshDelivery(d) then Stored(n, InsertDelivery(n.store, d)) else n
    case AddGrant(g) => if FreshGrant(g) then Stored(n, InsertGrant(n.store, g)) else n
    case OpenLink(hash) => Linked(n, hash)
    case OpenDelivery(id) =>
      if id in n.store.deliveries then n.(txns := n.txns + [Txn(None, Some(n.store.deliveries[id]))]) else n
    case ReadDelivery(i) => Joined(n, i)
    case CommitConsume(i, purpose, certificateId, now) => Consumed(n, i, purpose, certificateId, now)
    case CommitMove(i, move, now) => Finished(n, i, move, now)
    case KillPublicLinks(t, now) => if t.PrivateOf? then n else n.(store := InvalidateGrants(n.store, t, now))
  }

  function Stored(n: Node, s: Result<Store>): Node { if s.Ok? then n.(store := s.value) else n }

  function Linked(n: Node, hash: string): Node {
    if hash in n.store.byHash && n.store.byHash[hash] in n.store.grants then
      n.(txns := n.txns + [Txn(Some(n.store.grants[n.store.byHash[hash]]), None)])
    else n
  }

  function Joined(n: Node, i: nat): Node {
    if i < |n.txns| && n.txns[i].grant.Some? && n.txns[i].grant.value.deliveryId in n.store.deliveries then
      n.(txns := n.txns[i := n.txns[i].(delivery := Some(n.store.deliveries[n.txns[i].grant.value.deliveryId]))])
    else n
  }

  /** commitConsumption on the rows the transaction read. */
  function Consumed(n: Node, i: nat, purpose: GrantPurpose, certificateId: string, now: Instant): Node {
    if i >= |n.txns| || n.txns[i].grant == None then n
    else
      var g := n.txns[i].grant.value;
      if g.Consume(now).Err? || g.purpose != purpose || g.certificateId != certificateId then n
      else if g.purpose == LeafPublic then Stored(n, SaveGrant(n.store, g.Consume(now).value, g.version))
      else if n.txns[i].delivery == None then n
      else ReleasedKey(n, g, n.txns[i].delivery.value, now)
  }

  function ReleasedKey(n: Node, g: Grant, d: Delivery, now: Instant): Node
    requires g.Consume(now).Ok?
  {
    if d.id != g.deliveryId || d.Consume(now).Err? then n
    else
      var s := StoreConsumption(n.store, g.Consume(now).value, g.version, d.Consume(now).value, d.version, now);
      if s.Err? then n else n.(store := s.value, history := n.history + [Released(d.id, g.id, now)])
  }

  function Finished(n: Node, i: nat, move: Move, now: Instant): Node {
    if i >= |n.txns| || n.txns[i].delivery == None then n
    else
      var d := n.txns[i].delivery.value;
      var next := move.Result(d, now);
      if next.Err? then n
      else
        var s := SaveDelivery(n.store, next.value, d.version);
        if s.Err? then n
        else
          Node(if move.KillsLinks() then InvalidateGrants(s.value, PrivateOf(d.id), now) else s.value,
               n.txns, n.history + [Moved(d.id, next.value.state, now)])
  }

  function Run(n: Node, actions: seq<Action>): Node {
    if actions == [] then n else Apply(Run(n, actions[..|actions| - 1]), actions[|actions| - 1])
  }

  // ---- invariants ----

  function Moves(h: seq<Event>, id: string): nat {
    if h == [] then 0
    else Moves(h[..|h| - 1], id) + if h[|h| - 1].deliveryId == id then 1 else 0
  }

  /** What a transaction read is still the row, or the row's version has moved on. */
  ghost predicate GrantRead(s: Store, g: Grant) {
    g.id in s.grants && g.version <= s.grants[g.id].version &&
        (g.version == s.grants[g.id].version ==> g == s.grants[g.id])
  }

  ghost predicate DeliveryRead(s: Store, d: Delivery) {
    && d.id in s.deliveries && d.version <= s.deliveries[d.id].version
    && (d.version == s.deliveries[d.id].version ==> d == s.deliveries[d.id])
  }

  ghost predicate TxnsInv(s: Store, txns: seq<Txn>) {
    forall t | t in txns ::
      && (t.grant.Some? ==> GrantRead(s, t.grant.value))
      && (t.delivery.Some? ==> DeliveryRead(s, t.delivery.value))
  }

  /** The row reflects its events: one version each, ranks rising to the present state, the release it remembers. */
  ghost predicate RowOk(h: seq<Event>, id: string, d: Delivery) {
    && d.version == Moves(h, id) && d.version <= Rank(d.state)
    && (forall e | e in h && e.deliveryId == id :: 0 < Rank(e.To()) <= Rank(d.state))
    && (forall e | e in h && e.deliveryId == id && e.Released? :: e.at == d.consumedAt && e.at < d.expiresAt)
    && (d.state == Transferring || d.state == ServerCompleted || d.consumedAt != 0 ==> HasRelease(h, id))
    && (Rank(d.state) > 1 ==> Moved(id, d.state, d.finishedAt) in h)
    && (d.state == Failed <==> d.failureCode != "")
    && (d.state == DeliveryState.Expired ==> d.expiresAt <= d.finishedAt)
  }

  ghost predicate HasRelease(h: seq<Event>, id: string) { exists e :: e in h && e.deliveryId == id && e.Released? }

  ghost predicate RowsInv(n: Node) {
    && (forall id | id in n.store.deliveries :: RowOk(n.history, id, n.store.deliveries[id]))
    && (forall e | e in n.history :: e.deliveryId in n.store.deliveries)
  }

  ghost predicate RanksRise(h: seq<Event>) {
    forall i, j | 0 <= i < j < |h| && h[i].deliveryId == h[j].deliveryId :: Rank(h[i].To()) < Rank(h[j].To())
  }

  /** A release was made through a private link of its delivery, before the link's deadline. */
  ghost predicate LinkOf(s: Store, e: Event) {
    e.Released? ==>
      && e.grantId in s.grants
      && s.grants[e.grantId].purpose == LeafPrivate && s.grants[e.grantId].deliveryId == e.deliveryId
      && e.at < s.grants[e.grantId].expiresAt
      && (e.at != 0 ==> s.grants[e.grantId].consumedAt == e.at)
  }

  /**
   * A private link reads consumed only if it was the one that released its key, any link only before its deadline, and
   * every release has its link.
   */
  ghost predicate GrantsInv(n: Node) {
    && (forall id | id in n.store.grants && n.store.grants[id].IsConsumed() ::
          n.store.grants[id].consumedAt < n.store.grants[id].expiresAt)
    && (forall e | e in n.history :: LinkOf(n.store, e))
    && ConsumersReleased(n)
  }

  ghost predicate ConsumersReleased(n: Node) {
    forall id | id in n.store.grants && n.store.grants[id].purpose == LeafPrivate && n.store.grants[id].IsConsumed() ::
      Released(n.store.grants[id].deliveryId, id, n.store.grants[id].consumedAt) in n.history
  }

  ghost predicate Inv(n: Node) {
    n.store.Valid() && TxnsInv(n.store, n.txns) && RowsInv(n) && RanksRise(n.history) && GrantsInv(n)
  }

  // ---- each kind of step ----

  /** Every change of a grant row advances its version; an unchanged version is an unchanged row. */
  ghost predicate GrantsMoveOn(s: Store, t: Store) {
    forall id | id in s.grants ::
      && id in t.grants
      && s.grants[id].version <= t.grants[id].version
      && (s.grants[id].version == t.grants[id].version ==> s.grants[id] == t.grants[id])
  }

  ghost predicate DeliveriesMoveOn(s: Store, t: Store) {
    forall id | id in s.deliveries ::
      && id in t.deliveries
      && s.deliveries[id].version <= t.deliveries[id].version
      && (s.deliveries[id].version == t.deliveries[id].version ==> s.deliveries[id] == t.deliveries[id])
  }

  lemma TxnsKeep(s: Store, t: Store, txns: seq<Txn>)
    requires TxnsInv(s, txns) && GrantsMoveOn(s, t) && DeliveriesMoveOn(s, t)
    ensures TxnsInv(t, txns)
  {
  }

  /** A delivery row replaced by its next state, with the event that says so. */
  ghost predicate Steps(n: Node, d: Delivery, next: Delivery, e: Event) {
    && d.id in n.store.deliveries && n.store.deliveries[d.id] == d
    && next.id == d.id && next.version == d.version + 1 && Rank(d.state) < Rank(next.state)
    && next.expiresAt == d.expiresAt
    && e.deliveryId == d.id && e.To() == next.state
    && (if e.Released? then next.consumedAt == e.at && e.at < d.expiresAt && d.state == Pending
        else
          && next.finishedAt == e.at && Rank(next.state) > 1 && next.consumedAt == d.consumedAt
          && next.state != Transferring && (next.state == ServerCompleted ==> d.state == Transferring))
    && (next.state == DeliveryState.Expired ==> next.expiresAt <= next.finishedAt)
    && (if next.state == Failed then next.failureCode != "" else next.failureCode == d.failureCode && d.state != Failed)
  }

  lemma OneMore(h: seq<Event>, e: Event, id: string)
    ensures Moves(h + [e], id) == Moves(h, id) + if e.deliveryId == id then 1 else 0
    ensures HasRelease(h + [e], id) <==> HasRelease(h, id) || (e.deliveryId == id && e.Released?)
  {
    var l := h + [e];
    assert l[..|l| - 1] == h;
    assert e in l && forall r | r in h :: r in l;
  }

  lemma StepRow(n: Node, d: Delivery, next: Delivery, e: Event)
    requires RowsInv(n) && Steps(n, d, next, e)
    ensures RowOk(n.history + [e], d.id, next)
  {
    hide Moves, HasRelease;
    OneMore(n.history, e, d.id);
    assert RowOk(n.history, d.id, d);
    assert e in n.history + [e];
  }

  lemma StepOthers(n: Node, d: Delivery, next: Delivery, e: Event, id: string)
    requires RowsInv(n) && Steps(n, d, next, e) && id in n.store.deliveries && id != d.id
    ensures RowOk(n.history + [e], id, n.store.deliveries[id])
  {
    hide Moves, HasRelease;
    OneMore(n.history, e, id);
    assert RowOk(n.history, id, n.store.deliveries[id]);
  }

  lemma StepRanks(n: Node, d: Delivery, next: Delivery, e: Event)
    requires RowsInv(n) && RanksRise(n.history) && Steps(n, d, next, e)
    ensures RanksRise(n.history + [e])
  {
    assert RowOk(n.history, d.id, d);
    forall i | 0 <= i < |n.history| && n.history[i].deliveryId == d.id ensures Rank(n.history[i].To()) < Rank(e.To()) {
      assert n.history[i] in n.history;
    }
  }

  lemma StepMoveOn(s: Store, d: Delivery, next: Delivery, t: Store)
    requires d.id in s.deliveries && s.deliveries[d.id] == d && next.version == d.version + 1
    requires t.deliveries == s.deliveries[d.id := next]
    ensures DeliveriesMoveOn(s, t)
  {
  }

  lemma StepRows(n: Node, d: Delivery, next: Delivery, e: Event, n': Node)
    requires RowsInv(n) && RanksRise(n.history) && Steps(n, d, next, e)
    requires n'.store.deliveries == n.store.deliveries[d.id := next] && n'.history == n.history + [e]
    ensures RowsInv(n') && RanksRise(n'.history) && DeliveriesMoveOn(n.store, n'.store)
  {
    hide RowOk, RanksRise, DeliveriesMoveOn;
    StepRow(n, d, next, e);
    StepRanks(n, d, next, e);
    StepMoveOn(n.store, d, next, n'.store);
    forall id | id in n'.store.deliveries ensures RowOk(n'.history, id, n'.store.deliveries[id]) {
      if id != d.id { StepOthers(n, d, next, e, id); }
    }
  }

  /** A kill touches only the version and the invalidation mark, and a spent link not at all. */
  predicate OnlyKilled(g: Grant, k: Grant) {
    && k.(invalidatedAt := g.invalidatedAt, version := g.version) == g
    && g.version <= k.version && (g.version == k.version ==> k == g) && (g.Spent() ==> k == g)
  }

  lemma KilledShape(g: Grant, now: Instant)
    ensures OnlyKilled(g, g.Killed(now))
  {
  }

  lemma KillsMoveOn(s: Store, target: Target, now: Instant)
    ensures GrantsMoveOn(s, InvalidateGrants(s, target, now))
    ensures InvalidateGrants(s, target, now).deliveries == s.deliveries
    ensures forall id | id in s.grants ::
              var k := InvalidateGrants(s, target, now).grants[id];
              && k.purpose == s.grants[id].purpose && k.deliveryId == s.grants[id].deliveryId
              && k.consumedAt == s.grants[id].consumedAt && k.expiresAt == s.grants[id].expiresAt
  {
    hide Grant.Killed, Hits;
    var t := InvalidateGrants(s, target, now);
    forall id | id in s.grants ensures OnlyKilled(s.grants[id], t.grants[id]) { KilledShape(s.grants[id], now); }
  }

  lemma SameDeliveries(s: Store, t: Store)
    requires s.deliveries == t.deliveries
    ensures DeliveriesMoveOn(s, t)
  {
  }

  lemma KillGrantsInv(n: Node, target: Target, now: Instant, history: seq<Event>)
    requires GrantsInv(Node(n.store, n.txns, history))
    ensures GrantsInv(Node(InvalidateGrants(n.store, target, now), n.txns, history))
  {
    hide InvalidateGrants, GrantsMoveOn;
    KillsMoveOn(n.store, target, now);
    KillKeys(n.store, target, now);
  }

  lemma KillKeys(s: Store, target: Target, now: Instant)
    ensures InvalidateGrants(s, target, now).grants.Keys == s.grants.Keys
  {
  }

  lemma KillPublicKeeps(n: Node, target: Target, now: Instant)
    requires Inv(n)
    ensures Inv(n.(store := InvalidateGrants(n.store, target, now)))
  {
    hide InvalidateGrants, TxnsInv, RowOk, RanksRise, Store.Valid, GrantsInv, GrantsMoveOn, DeliveriesMoveOn;
    var t := InvalidateGrants(n.store, target, now);
    DeliveryStore.InvalidateKeeps(n.store, target, now);
    KillsMoveOn(n.store, target, now);
    SameDeliveries(n.store, t);
    TxnsKeep(n.store, t, n.txns);
    KillGrantsInv(n, target, now, n.history);
  }

  // ---- releasing a key ----

  predicate Releases(n: Node, g: Grant, d: Delivery, now: Instant)
  {
    && g.Consume(now).Ok? && d.id == g.deliveryId && d.Consume(now).Ok? && g.purpose == LeafPrivate
    && StoreConsumption(n.store, g.Consume(now).value, g.version, d.Consume(now).value, d.version, now).Ok?
  }

  /** A release that lands worked on the current rows. */
  lemma ReleaseShape(n: Node, g: Grant, d: Delivery, now: Instant)
    requires GrantRead(n.store, g) && DeliveryRead(n.store, d) && Releases(n, g, d, now)
    ensures g.id in n.store.grants && n.store.grants[g.id] == g
    ensures d.id in n.store.deliveries && n.store.deliveries[d.id] == d
    ensures Steps(n, d, d.Consume(now).value, Released(d.id, g.id, now))
    ensures ReleasedKey(n, g, d, now).history == n.history + [Released(d.id, g.id, now)]
    ensures var mid := n.store.(grants := n.store.grants[g.id := g.Consume(now).value],
                                deliveries := n.store.deliveries[d.id := d.Consume(now).value]);
            ReleasedKey(n, g, d, now) == Node(InvalidateGrants(mid, PrivateOf(d.id), now), n.txns,
                n.history + [Released(d.id, g.id, now)])
  {
    hide InvalidateGrants;
  }

  lemma ConsumedMoveOn(s: Store, g: Grant, now: Instant)
    requires g.id in s.grants && s.grants[g.id] == g && g.Consume(now).Ok?
    ensures GrantsMoveOn(s, s.(grants := s.grants[g.id := g.Consume(now).value]))
  {
  }

  lemma MoveOnTwice(s: Store, t: Store, u: Store)
    requires GrantsMoveOn(s, t) && GrantsMoveOn(t, u)
    ensures GrantsMoveOn(s, u)
  {
  }

  lemma GrantsOnly(s: Store, t: Store, u: Store)
    requires GrantsMoveOn(s, t) && t.grants == u.grants
    ensures GrantsMoveOn(s, u)
  {
  }

  lemma ConsumedValid(s: Store, g: Grant, now: Instant)
    requires s.Valid() && g.id in s.grants && s.grants[g.id] == g && g.Consume(now).Ok?
    ensures s.(grants := s.grants[g.id := g.Consume(now).value]).Valid()
  {
    DeliveryStore.SaveGrantKeepsExactly(s, g.Consume(now).value, g.version);
  }

  lemma ConsumedGrantsInv(n: Node, g: Grant, now: Instant, s: Store, history: seq<Event>)
    requires GrantsInv(n) && g.id in n.store.grants && n.store.grants[g.id] == g && g.Consume(now).Ok?
    requires s.grants == n.store.grants[g.id := g.Consume(now).value]
    requires if g.purpose == LeafPrivate then history == n.history + [Released(g.deliveryId, g.id, now)]
               else history == n.history
    ensures GrantsInv(Node(s, n.txns, history))
  {
    ConsumeExactly(g, now);
    hide Grant.Consume;
    forall e | e in history ensures LinkOf(s, e) {
      if e in n.history { assert LinkOf(n.store, e); }
    }
  }

  lemma ReleaseKeeps(n: Node, g: Grant, d: Delivery, now: Instant)
    requires Inv(n) && GrantRead(n.store, g) && DeliveryRead(n.store, d) && Releases(n, g, d, now)
    ensures Inv(ReleasedKey(n, g, d, now))
  {
    hide *;
    InvParts(n);
    ReleaseNeeds(n, g, d, now);
    ReleaseShape(n, g, d, now);
    var e := Released(d.id, g.id, now);
    var history := n.history + [e];
    var next := d.Consume(now).value;
    var consumed := n.store.(grants := n.store.grants[g.id := g.Consume(now).value]);
    var mid := consumed.(deliveries := n.store.deliveries[d.id := next]);
    var t := InvalidateGrants(mid, PrivateOf(d.id), now);
    var n' := ReleasedKey(n, g, d, now);
    ConsumedValid(n.store, g, now);
    DeliveryReplaced(consumed, d, next);
    DeliveryStore.InvalidateKeeps(mid, PrivateOf(d.id), now);
    KillsMoveOn(mid, PrivateOf(d.id), now);
    StepRows(n, d, next, e, n');
    ConsumedMoveOn(n.store, g, now);
    GrantsOnly(n.store, consumed, mid);
    MoveOnTwice(n.store, mid, t);
    TxnsKeep(n.store, t, n.txns);
    ConsumedGrantsInv(n, g, now, mid, history);
    KillGrantsInv(Node(mid, n.txns, history), PrivateOf(d.id), now, history);
    InvParts(n');
  }

  lemma ReleaseNeeds(n: Node, g: Grant, d: Delivery, now: Instant)
    requires Releases(n, g, d, now)
    ensures g.Consume(now).Ok? && d.Consume(now).Ok? && d.id == g.deliveryId && d.Consume(now).value.id == d.id
    ensures g.purpose == LeafPrivate
  {
  }

  lemma DeliveryReplaced(s: Store, d: Delivery, next: Delivery)
    requires s.Valid() && next.id == d.id
    ensures s.(deliveries := s.deliveries[d.id := next]).Valid()
  {
  }

  lemma InvParts(n: Node)
    ensures Inv(n) <==>
              n.store.Valid() && TxnsInv(n.store, n.txns) && RowsInv(n) && RanksRise(n.history) && GrantsInv(n)
  {
  }

  // ---- finishing a delivery ----

  predicate Finishes(n: Node, d: Delivery, move: Move, now: Instant) {
    move.Result(d, now).Ok? && SaveDelivery(n.store, move.Result(d, now).value, d.version).Ok?
  }

  lemma FinishShape(n: Node, i: nat, d: Delivery, move: Move, now: Instant)
    requires i < |n.txns| && n.txns[i].delivery == Some(d) && DeliveryRead(n.store, d) && Finishes(n, d, move, now)
    ensures move.Result(d, now).Ok?
    ensures var next := move.Result(d, now).value;
            var saved := n.store.(deliveries := n.store.deliveries[d.id := next]);
            && next.id == d.id
            && Steps(n, d, next, Moved(d.id, next.state, now))
            && Finished(n, i, move, now) ==
               Node(if move.KillsLinks() then InvalidateGrants(saved, PrivateOf(d.id), now) else saved,
                    n.txns, n.history + [Moved(d.id, next.state, now)])
  {
    hide InvalidateGrants;
  }

  lemma SameGrantsInv(n: Node, s: Store, history: seq<Event>)
    requires GrantsInv(n) && s.grants == n.store.grants && n.history <= history
    requires forall e | e in history :: e in n.history || e.Moved?
    ensures GrantsInv(Node(s, n.txns, history)) && GrantsMoveOn(n.store, s)
  {
  }

  lemma FinishKeeps(n: Node, i: nat, d: Delivery, move: Move, now: Instant)
    requires Inv(n) && i < |n.txns| && n.txns[i].delivery == Some(d) && DeliveryRead(n.store, d) &&
               Finishes(n, d, move, now)
    ensures Inv(Finished(n, i, move, now))
  {
    hide *;
    InvParts(n);
    FinishShape(n, i, d, move, now);
    var next := move.Result(d, now).value;
    var e := Moved(d.id, next.state, now);
    var history := n.history + [e];
    var saved := n.store.(deliveries := n.store.deliveries[d.id := next]);
    var n' := Finished(n, i, move, now);
    DeliveryReplaced(n.store, d, next);
    SameGrantsInv(n, saved, history);
    if move.KillsLinks() {
      DeliveryStore.InvalidateKeeps(saved, PrivateOf(d.id), now);
      KillsMoveOn(saved, PrivateOf(d.id), now);
      MoveOnTwice(n.store, saved, n'.store);
      KillGrantsInv(Node(saved, n.txns, history), PrivateOf(d.id), now, history);
    }
    StepRows(n, d, next, e, n');
    TxnsKeep(n.store, n'.store, n.txns);
    InvParts(n');
  }

  // ---- the remaining steps ----

  lemma PublicKeeps(n: Node, g: Grant, now: Instant)
    requires Inv(n) && GrantRead(n.store, g) && g.Consume(now).Ok? && g.purpose == LeafPublic
    ensures Inv(Stored(n, SaveGrant(n.store, g.Consume(now).value, g.version)))
  {
    hide TxnsInv, RowOk, RanksRise, Store.Valid, GrantsInv, GrantsMoveOn, DeliveriesMoveOn;
    var saved := SaveGrant(n.store, g.Consume(now).value, g.version);
    if saved.Ok? {
      ConsumedValid(n.store, g, now);
      ConsumedMoveOn(n.store, g, now);
      SameDeliveries(n.store, saved.value);
      TxnsKeep(n.store, saved.value, n.txns);
      ConsumedGrantsInv(n, g, now, saved.value, n.history);
    }
  }

  lemma ConsumeKeeps(n: Node, i: nat, purpose: GrantPurpose, certificateId: string, now: Instant)
    requires Inv(n)
    ensures Inv(Consumed(n, i, purpose, certificateId, now))
  {
    hide Inv, GrantRead, DeliveryRead, TxnsInv;
    if i < |n.txns| && n.txns[i].grant.Some? {
      var g := n.txns[i].grant.value;
      TxnReads(n, i);
      if g.Consume(now).Ok? {
        PublicOrNot(n, g, now);
        if n.txns[i].delivery.Some? && Releases(n, g, n.txns[i].delivery.value, now) {
          ReleaseKeeps(n, g, n.txns[i].delivery.value, now);
        }
      }
    }
  }

  lemma PublicOrNot(n: Node, g: Grant, now: Instant)
    requires Inv(n) && GrantRead(n.store, g) && g.Consume(now).Ok?
    ensures g.purpose == LeafPublic ==> Inv(Stored(n, SaveGrant(n.store, g.Consume(now).value, g.version)))
  {
    if g.purpose == LeafPublic { PublicKeeps(n, g, now); }
  }

  lemma TxnReads(n: Node, i: nat)
    requires Inv(n) && i < |n.txns|
    ensures n.txns[i].grant.Some? ==> GrantRead(n.store, n.txns[i].grant.value)
    ensures n.txns[i].delivery.Some? ==> DeliveryRead(n.store, n.txns[i].delivery.value)
  {
    assert n.txns[i] in n.txns;
  }

  lemma MoveKeeps(n: Node, i: nat, move: Move, now: Instant)
    requires Inv(n)
    ensures Inv(Finished(n, i, move, now))
  {
    hide Inv, GrantRead, DeliveryRead, Move.Result;
    if i < |n.txns| && n.txns[i].delivery.Some? {
      TxnReads(n, i);
      if Finishes(n, n.txns[i].delivery.value, move, now) { FinishKeeps(n, i, n.txns[i].delivery.value, move, now); }
    }
  }

  lemma OpenKeeps(n: Node, a: Action)
    requires Inv(n) && (a.OpenLink? || a.OpenDelivery? || a.ReadDelivery?)
    ensures Inv(Apply(n, a))
  {
    hide RowOk, RanksRise, LinkOf, FreshDelivery, FreshGrant;
    forall t | t in Apply(n, a).txns
      ensures t.grant.Some? ==> GrantRead(n.store, t.grant.value)
      ensures t.delivery.Some? ==> DeliveryRead(n.store, t.delivery.value)
    {
      if a.ReadDelivery? && t !in n.txns {
        assert n.txns[a.txn] in n.txns;
      }
    }
  }

  lemma {:induction false} NoMoves(h: seq<Event>, id: string)
    requires forall e | e in h :: e.deliveryId != id
    ensures Moves(h, id) == 0
  {
    if h != [] {
      assert h[|h| - 1] in h;
      NoMoves(h[..|h| - 1], id);
    }
  }

  lemma FreshRow(h: seq<Event>, d: Delivery)
    requires FreshDelivery(d) && forall e | e in h :: e.deliveryId != d.id
    ensures RowOk(h, d.id, d)
  {
    NoMoves(h, d.id);
  }

  lemma AddDeliveryKeeps(n: Node, d: Delivery)
    requires Inv(n) && FreshDelivery(d)
    ensures Inv(Stored(n, InsertDelivery(n.store, d)))
  {
    hide NewDelivery, FreshDelivery, TxnsInv, GrantsInv, GrantsMoveOn, RowOk, Store.Valid, RanksRise;
    if d.id !in n.store.deliveries {
      FreshRow(n.history, d);
      var t := InsertDelivery(n.store, d).value;
      DeliveryReplaced(n.store, d, d);
      SameGrantsInv(n, t, n.history);
      TxnsKeep(n.store, t, n.txns);
    }
  }

  lemma AddedGrantsInv(n: Node, g: Grant, s: Store)
    requires GrantsInv(n) && !g.IsConsumed() && g.id !in n.store.grants && s.grants == n.store.grants[g.id := g]
    ensures GrantsInv(Node(s, n.txns, n.history))
  {
  }

  lemma AddGrantKeeps(n: Node, g: Grant)
    requires Inv(n) && FreshGrant(g)
    ensures Inv(Stored(n, InsertGrant(n.store, g)))
  {
    hide NewDownloadGrant, TxnsInv, RowOk, Store.Valid, GrantsInv, RanksRise;
    var s := InsertGrant(n.store, g);
    if s.Ok? {
      DeliveryStore.InsertGrantKeeps(n.store, g);
      AddedGrantsInv(n, g, s.value);
      TxnsKeep(n.store, s.value, n.txns);
    }
  }

  lemma StepKeeps(n: Node, a: Action)
    requires Inv(n)
    ensures Inv(Apply(n, a))
  {
    hide Inv, Consumed, Finished, Stored, Linked, Joined, InvalidateGrants, InsertDelivery, InsertGrant;
    match a
    case AddDelivery(d) => if FreshDelivery(d) { AddDeliveryKeeps(n, d); }
    case AddGrant(g) => if FreshGrant(g) { AddGrantKeeps(n, g); }
    case OpenLink(_) => OpenKeeps(n, a);
    case OpenDelivery(_) => OpenKeeps(n, a);
    case ReadDelivery(_) => OpenKeeps(n, a);
    case CommitConsume(i, purpose, certificateId, now) => ConsumeKeeps(n, i, purpose, certificateId, now);
    case CommitMove(i, move, now) => MoveKeeps(n, i, move, now);
    case KillPublicLinks(t, now) => if !t.PrivateOf? { KillPublicKeeps(n, t, now); }
  }

  lemma {:induction false} Reachable(actions: seq<Action>)
    ensures Inv(Run(Initial(), actions))
  {
    hide Apply, Inv;
    if actions == [] {
      InitialInv();
    } else {
      Reachable(actions[..|actions| - 1]);
      StepKeeps(Run(Initial(), actions[..|actions| - 1]), actions[|actions| - 1]);
    }
  }

  lemma InitialInv()
    ensures Inv(Initial())
  {
  }

  // ---- what every run promises ----

  /** A private key leaves the store at most once, whatever links, requests and clocks there are. */
  lemma OneRelease(actions: seq<Action>, i: nat, j: nat)
    requires var h := Run(Initial(), actions).history;
             i < |h| && j < |h| && h[i].Released? && h[j].Released? && h[i].deliveryId == h[j].deliveryId
    ensures i == j
  {
    hide Run, TxnsInv, RowsInv, GrantsInv;
    Reachable(actions);
    var h := Run(Initial(), actions).history;
    assert RanksRise(h);
  }

  /** No delivery returns to pending, moves only forward, and makes at most three moves, one version each. */
  lemma ForwardOnly(actions: seq<Action>, id: string)
    requires id in Run(Initial(), actions).store.deliveries
    ensures var n := Run(Initial(), actions);
            && n.store.deliveries[id].version == Moves(n.history, id) <= 3
            && (forall e | e in n.history && e.deliveryId == id :: e.To() != Pending)
            && RanksRise(n.history)
  {
    hide Run, TxnsInv, GrantsInv, RanksRise, HasRelease;
    Reachable(actions);
    var n := Run(Initial(), actions);
    assert RowOk(n.history, id, n.store.deliveries[id]);
  }

  /**
   * A finished delivery remembers the time of the move that finished it, and exactly a failed one has a failure code.
   */
  lemma FinishRecorded(actions: seq<Action>, id: string)
    requires id in Run(Initial(), actions).store.deliveries
    ensures var n := Run(Initial(), actions);
            var d := n.store.deliveries[id];
            && (d.state == ServerCompleted || d.state == Failed || d.state == DeliveryState.Expired ==>
                Moved(id, d.state, d.finishedAt) in n.history)
            && (d.state == Failed <==> d.failureCode != "")
  {
    hide Run, TxnsInv, GrantsInv, RanksRise, HasRelease, Moves;
    Reachable(actions);
    var n := Run(Initial(), actions);
    assert RowOk(n.history, id, n.store.deliveries[id]);
  }

  /** Reachable rows meet the database's rules, but for a key released while the clock read the unset instant. */
  lemma ReachableChecksExactly(actions: seq<Action>, id: string)
    requires id in Run(Initial(), actions).store.deliveries
    ensures var n := Run(Initial(), actions);
            var d := n.store.deliveries[id];
            && (SqlChecks(d) <==>
                !((d.state == Transferring || d.state == ServerCompleted) && ReleasedUnset(n.history, id)))
            && (d.consumedAt != 0 ==> d.consumedAt < d.expiresAt)
  {
    hide Run, TxnsInv, GrantsInv, RanksRise;
    Reachable(actions);
    var n := Run(Initial(), actions);
    var d := n.store.deliveries[id];
    assert RowOk(n.history, id, d);
    if HasRelease(n.history, id) {
      var e :| e in n.history && e.deliveryId == id && e.Released?;
      assert d.consumedAt == 0 ==> ReleasedUnset(n.history, id);
    }
  }

  ghost predicate ReleasedUnset(h: seq<Event>, id: string) {
    exists e :: e in h && e.deliveryId == id && e.Released? && e.at == 0
  }

  /** Of all the private links of a delivery, at most one ever reads consumed. */
  lemma OneConsumedLink(actions: seq<Action>, a: string, b: string)
    requires var s := Run(Initial(), actions).store;
             && a in s.grants && b in s.grants && s.grants[a].deliveryId == s.grants[b].deliveryId
             && s.grants[a].purpose == LeafPrivate == s.grants[b].purpose
             && s.grants[a].IsConsumed() && s.grants[b].IsConsumed()
    ensures a == b
  {
    hide Run, TxnsInv, RowsInv;
    Reachable(actions);
    var n := Run(Initial(), actions);
    var first := Released(n.store.grants[a].deliveryId, a, n.store.grants[a].consumedAt);
    var second := Released(n.store.grants[b].deliveryId, b, n.store.grants[b].consumedAt);
    var i :| 0 <= i < |n.history| && n.history[i] == first;
    var j :| 0 <= j < |n.history| && n.history[j] == second;
    OneRelease(actions, i, j);
  }

  ghost predicate LinksSpent(s: Store, deliveryId: string) {
    forall id | id in s.grants && Hits(s.grants[id], PrivateOf(deliveryId)) :: s.grants[id].Spent()
  }

  lemma KilledIsSpent(g: Grant, now: Instant)
    ensures now != 0 ==> g.Killed(now).Spent()
  {
  }

  /** A release spends every private link of its delivery exactly when the clock does not read the unset instant. */
  lemma ReleaseSpendsExactly(n: Node, g: Grant, d: Delivery, now: Instant)
    requires GrantRead(n.store, g) && DeliveryRead(n.store, d) && Releases(n, g, d, now)
    ensures LinksSpent(ReleasedKey(n, g, d, now).store, d.id) <==> now != 0
  {
    ReleaseShape(n, g, d, now);
    var s := ReleasedKey(n, g, d, now).store;
    hide ReleasedKey, StoreConsumption, Releases, GrantRead, DeliveryRead, Steps;
    if now != 0 {
      forall id | id in s.grants && Hits(s.grants[id], PrivateOf(d.id)) ensures s.grants[id].Spent() {
        var prior := if id == g.id then g.Consume(now).value else n.store.grants[id];
        KilledIsSpent(prior, now);
        KilledShape(prior, now);
      }
    } else {
      assert !s.grants[g.id].Spent() && Hits(s.grants[g.id], PrivateOf(d.id));
    }
  }

  // ---- a spent link never revives ----

  predicate Same(s: Store, t: Store, id: string) {
    id in s.grants && id in t.grants && t.grants[id] == s.grants[id]
  }

  lemma SpentKill(s: Store, target: Target, now: Instant, id: string)
    requires id in s.grants && s.grants[id].Spent()
    ensures Same(s, InvalidateGrants(s, target, now), id)
  {
    KilledShape(s.grants[id], now);
    hide Grant.Killed, Hits;
  }

  lemma SpentConsume(n: Node, i: nat, purpose: GrantPurpose, certificateId: string, now: Instant, id: string)
    requires Inv(n) && id in n.store.grants && n.store.grants[id].Spent()
    ensures Same(n.store, Consumed(n, i, purpose, certificateId, now).store, id)
  {
    hide Inv, InvalidateGrants, DeliveryRead, Delivery.Consume;
    if i < |n.txns| && n.txns[i].grant.Some? {
      TxnReads(n, i);
      var g := n.txns[i].grant.value;
      assert g.Consume(now).Ok? && g.id == id ==> g.version != n.store.grants[id].version;
      if Consumed(n, i, purpose, certificateId, now) != n && g.purpose == LeafPrivate {
        var d := n.txns[i].delivery.value;
        var mid := SaveDelivery(SaveGrant(n.store, g.Consume(now).value, g.version).value, d.Consume(now).value,
            d.version).value;
        SpentKill(mid, PrivateOf(d.Consume(now).value.id), now, id);
      }
    }
  }

  lemma SpentMove(n: Node, i: nat, move: Move, now: Instant, id: string)
    requires id in n.store.grants && n.store.grants[id].Spent()
    ensures Same(n.store, Finished(n, i, move, now).store, id)
  {
    hide InvalidateGrants, Move.Result;
    if i < |n.txns| && n.txns[i].delivery.Some? {
      var d := n.txns[i].delivery.value;
      var next := move.Result(d, now);
      if next.Ok? && SaveDelivery(n.store, next.value, d.version).Ok? {
        SpentKill(SaveDelivery(n.store, next.value, d.version).value, PrivateOf(d.id), now, id);
      }
    }
  }

  lemma SpentStep(n: Node, a: Action, id: string)
    requires Inv(n) && id in n.store.grants && n.store.grants[id].Spent()
    ensures id in Apply(n, a).store.grants && Apply(n, a).store.grants[id] == n.store.grants[id]
  {
    hide Inv, Consumed, Finished, InvalidateGrants, FreshDelivery, FreshGrant;
    match a
    case CommitConsume(i, purpose, certificateId, now) => SpentConsume(n, i, purpose, certificateId, now, id);
    case CommitMove(i, move, now) => SpentMove(n, i, move, now, id);
    case KillPublicLinks(t, now) => SpentKill(n.store, t, now, id);
    case _ =>
  }

  lemma {:induction false} SpentForever(actions: seq<Action>, k: nat, id: string)
    requires k <= |actions|
    requires var s := Run(Initial(), actions[..k]).store; id in s.grants && s.grants[id].Spent()
    ensures var s := Run(Initial(), actions[..k]).store;
            var t := Run(Initial(), actions).store;
            id in t.grants && t.grants[id] == s.grants[id]
    decreases |actions|
  {
    hide Apply, Inv;
    if k == |actions| {
      assert actions[..k] == actions;
    } else {
      var before := actions[..|actions| - 1];
      assert before[..k] == actions[..k];
      SpentForever(before, k, id);
      Reachable(before);
      SpentStep(Run(Initial(), before), actions[|actions| - 1], id);
    }
  }

  /**
   * Every private link that existed when the key was released, at a time other than the unset instant, is spent ever
   * after.
   */
  lemma LinksSpentForever(actions: seq<Action>, k: nat, g: Grant, d: Delivery, now: Instant, id: string)
    requires k < |actions| && now != 0
    requires var n := Run(Initial(), actions[..k]);
             && GrantRead(n.store, g) && DeliveryRead(n.store, d) && Releases(n, g, d, now)
             && Apply(n, actions[k]) == ReleasedKey(n, g, d, now)
             && id in n.store.grants && Hits(n.store.grants[id], PrivateOf(d.id))
    ensures id in Run(Initial(), actions).store.grants && Run(Initial(), actions).store.grants[id].Spent()
  {
    hide Apply, Inv, ReleasedKey, Releases, GrantRead, DeliveryRead;
    var n := Run(Initial(), actions[..k]);
    ReleaseNeeds(n, g, d, now);
    assert actions[..k + 1][..k] == actions[..k];
    var after := ReleasedKey(n, g, d, now);
    assert Run(Initial(), actions[..k + 1]) == after;
    ReleaseSpendsExactly(n, g, d, now);
    StillThere(n, g, d, now, id);
    SpentForever(actions, k + 1, id);
  }

  lemma StillThere(n: Node, g: Grant, d: Delivery, now: Instant, id: string)
    requires GrantRead(n.store, g) && DeliveryRead(n.store, d) && Releases(n, g, d, now)
    requires id in n.store.grants && Hits(n.store.grants[id], PrivateOf(d.id))
    ensures id in ReleasedKey(n, g, d, now).store.grants &&
              Hits(ReleasedKey(n, g, d, now).store.grants[id], PrivateOf(d.id))
  {
    ReleaseShape(n, g, d, now);
    hide ReleasedKey, Releases;
    KilledShape(n.store.grants[id], now);
    KilledShape(g.Consume(now).value, now);
    hide Grant.Killed;
  }

  // ---- a release at the unset instant ----

  const SOME_UUID := "00000000-0000-4000-8000-000000000001"

  function SomeDelivery(): Delivery {
    Delivery(SOME_UUID, SOME_UUID, SOME_UUID, 100, Pending, 0, 0, "", 0)
  }

  function SomeGrant(): Grant {
    Grant(SOME_UUID, "hash", LeafPrivate, SOME_UUID, SOME_UUID, SOME_UUID, 100, 0, 0, 0)
  }

  function SomeStore(): Store {
    Store(map[SOME_UUID := SomeDelivery()], map[SOME_UUID := SomeGrant()], map["hash" := SOME_UUID])
  }

  function OneDelivery(): Node { Node(Store(map[SOME_UUID := SomeDelivery()], map[], map[]), [], []) }

  function BeforeRelease(): Node { Node(SomeStore(), [Txn(Some(SomeGrant()), Some(SomeDelivery()))], []) }

  lemma RunMore(actions: seq<Action>, a: Action)
    ensures Run(Initial(), actions + [a]) == Apply(Run(Initial(), actions), a)
  {
    assert (actions + [a])[..|actions|] == actions;
  }

  lemma FreshRows()
    ensures FreshDelivery(SomeDelivery()) && FreshGrant(SomeGrant())
  {
    hide IsUuid;
    SomeUuid();
  }

  lemma SomeUuid()
    ensures IsUuid(SOME_UUID)
  {
  }

  lemma DeliveryAdded()
    ensures Apply(Initial(), AddDelivery(SomeDelivery())) == OneDelivery()
  {
    hide FreshDelivery, FreshGrant;
    FreshRows();
  }

  lemma LinkAdded()
    ensures Apply(OneDelivery(), AddGrant(SomeGrant())) == Node(SomeStore(), [], [])
  {
    hide FreshDelivery, FreshGrant;
    FreshRows();
  }

  lemma RowsRead()
    ensures Apply(Apply(Node(SomeStore(), [], []), OpenLink("hash")), ReadDelivery(0)) == BeforeRelease()
  {
  }

  lemma RunFour(a: Action, b: Action, c: Action, e: Action)
    ensures Run(Initial(), [a, b, c, e]) == Apply(Apply(Apply(Apply(Initial(), a), b), c), e)
  {
    hide Apply;
    RunMore([], a);
    RunMore([a], b);
    RunMore([a, b], c);
    RunMore([a, b, c], e);
    assert [] + [a] == [a] && [a] + [b] == [a, b] && [a, b] + [c] == [a, b, c] && [a, b, c] + [e] == [a, b, c, e];
  }

  lemma ReachBeforeRelease()
    ensures Run(Initial(), [AddDelivery(SomeDelivery()), AddGrant(SomeGrant()), OpenLink("hash"), ReadDelivery(0)]) ==
              BeforeRelease()
  {
    hide *;
    RunFour(AddDelivery(SomeDelivery()), AddGrant(SomeGrant()), OpenLink("hash"), ReadDelivery(0));
    DeliveryAdded();
    LinkAdded();
    RowsRead();
  }

  lemma ReleaseUnset()
    ensures
      var n := Apply(BeforeRelease(), CommitConsume(0, LeafPrivate, SOME_UUID, 0));
      && n.history == [Released(SOME_UUID, SOME_UUID, 0)]
      && SOME_UUID in n.store.deliveries && !SqlChecks(n.store.deliveries[SOME_UUID])
      && SOME_UUID in n.store.grants && !n.store.grants[SOME_UUID].Spent()
  {
  }

  /**
   * A run whose clock reads the unset instant at the release: the row breaks the database's rules and its link stays
   * unspent.
   */
  lemma UnsetReleaseExample()
    ensures
      var n := Run(Initial(), [AddDelivery(SomeDelivery()), AddGrant(SomeGrant()), OpenLink("hash"), ReadDelivery(0),
                               CommitConsume(0, LeafPrivate, SOME_UUID, 0)]);
      && n.history == [Released(SOME_UUID, SOME_UUID, 0)]
      && SOME_UUID in n.store.deliveries && !SqlChecks(n.store.deliveries[SOME_UUID])
      && SOME_UUID in n.store.grants && !n.store.grants[SOME_UUID].Spent()
  {
    hide *;
    var before := [AddDelivery(SomeDelivery()), AddGrant(SomeGrant()), OpenLink("hash"), ReadDelivery(0)];
    var commit := CommitConsume(0, LeafPrivate, SOME_UUID, 0);
    ReachBeforeRelease();
    ReleaseUnset();
    RunMore(before, commit);
    assert before + [commit] == [AddDelivery(SomeDelivery()), AddGrant(SomeGrant()), OpenLink("hash"),
        ReadDelivery(0), commit];
  }

  // ---- deadlines ----

  /** In every run a link that reads consumed was consumed before its deadline. */
  lemma LinkDeadline(actions: seq<Action>, id: string)
    requires id in Run(Initial(), actions).store.grants
    ensures var g := Run(Initial(), actions).store.grants[id]; g.consumedAt != 0 ==> g.consumedAt < g.expiresAt
  {
    hide Run, TxnsInv, RowsInv, RanksRise;
    Reachable(actions);
  }

  /** Every release used a private link made for its delivery, before the deadlines of the link and of the delivery. */
  lemma ReleaseDeadlines(actions: seq<Action>, e: Event)
    requires e in Run(Initial(), actions).history && e.Released?
    ensures
      var s := Run(Initial(), actions).store;
      && e.grantId in s.grants && e.deliveryId in s.deliveries
      && s.grants[e.grantId].purpose == LeafPrivate && s.grants[e.grantId].deliveryId == e.deliveryId
      && e.at < s.grants[e.grantId].expiresAt && e.at < s.deliveries[e.deliveryId].expiresAt
      && s.deliveries[e.deliveryId].consumedAt == e.at
      && (e.at != 0 ==> s.grants[e.grantId].consumedAt == e.at)
  {
    hide Run, TxnsInv, RanksRise, Moves, HasRelease;
    Reachable(actions);
    var n := Run(Initial(), actions);
    assert LinkOf(n.store, e);
    assert RowOk(n.history, e.deliveryId, n.store.deliveries[e.deliveryId]);
  }

  /** A delivery expires only at or after its deadline. */
  lemma ExpiryWaits(actions: seq<Action>, id: string)
    requires id in Run(Initial(), actions).store.deliveries
    ensures var d := Run(Initial(), actions).store.deliveries[id]; d.state == DeliveryState.Expired ==>
              d.expiresAt <= d.finishedAt
  {
    hide Run, TxnsInv, GrantsInv, RanksRise, Moves, HasRelease;
    Reachable(actions);
    var n := Run(Initial(), actions);
    assert RowOk(n.history, id, n.store.deliveries[id]);
  }

  /**
   * When the consumption of a private link releases a key: both rows read are still current, the link is unspent,
   * within its deadline and as prepared, and the delivery waits within its own.
   */
  lemma ReleaseExactly(n: Node, i: nat, certificateId: string, now: Instant)
    requires Inv(n) && i < |n.txns| && n.txns[i].grant.Some? && n.txns[i].delivery.Some?
    requires n.txns[i].grant.value.purpose == LeafPrivate &&
               n.txns[i].delivery.value.id == n.txns[i].grant.value.deliveryId
    ensures
      var g, d := n.txns[i].grant.value, n.txns[i].delivery.value;
      var n' := Consumed(n, i, LeafPrivate, certificateId, now);
      && (n' != n <==>
            && n.store.grants[g.id] == g && n.store.deliveries[d.id] == d
            && g.consumedAt == 0 && g.invalidatedAt == 0 && now < g.expiresAt && g.certificateId == certificateId
            && d.state == Pending && now < d.expiresAt)
      && (n' != n ==> n'.history == n.history + [Released(d.id, g.id, now)])
  {
    hide Inv, Grant.Consume, Delivery.Consume, InvalidateGrants, Move.Result;
    TxnReads(n, i);
    var g, d := n.txns[i].grant.value, n.txns[i].delivery.value;
    ConsumeExactly(g, now);
    TransitionsExactly(d, "", now);
    StoredReads(n, g, d);
  }

  /** A link is consumed only for the purpose and certificate the payload was prepared for. */
  lemma PreparedOnly(n: Node, i: nat, purpose: GrantPurpose, certificateId: string, now: Instant)
    requires i < |n.txns| && n.txns[i].grant.Some?
    requires n.txns[i].grant.value.purpose != purpose || n.txns[i].grant.value.certificateId != certificateId
    ensures Consumed(n, i, purpose, certificateId, now) == n
  {
    hide Grant.Consume;
  }

  /** When a public link is consumed. */
  lemma PublicExactly(n: Node, i: nat, certificateId: string, now: Instant)
    requires Inv(n) && i < |n.txns| && n.txns[i].grant.Some? && n.txns[i].grant.value.purpose == LeafPublic
    ensures
      var g := n.txns[i].grant.value;
      var n' := Consumed(n, i, LeafPublic, certificateId, now);
      && (n' != n <==>
            && n.store.grants[g.id] == g && g.consumedAt == 0 && g.invalidatedAt == 0 && now < g.expiresAt
            && g.certificateId == certificateId)
      && (n' != n ==> n'.store == n.store.(grants :=
          n.store.grants[g.id := g.(consumedAt := now, version := g.version + 1)]))
  {
    TxnReads(n, i);
    var g := n.txns[i].grant.value;
    ConsumeExactly(g, now);
    hide Inv, Grant.Consume;
    if n.store.grants[g.id] == g {
      assert n.store.grants[g.id := g.(consumedAt := now, version := g.version + 1)][g.id] != g;
    }
  }

  lemma StoredReads(n: Node, g: Grant, d: Delivery)
    requires GrantRead(n.store, g) && DeliveryRead(n.store, d)
    ensures n.store.grants[g.id].version == g.version <==> n.store.grants[g.id] == g
    ensures n.store.deliveries[d.id].version == d.version <==> n.store.deliveries[d.id] == d
  {
  }

  /** When each move takes effect on a delivery, in terms of its fields. */
  lemma MoveExactly(d: Delivery, move: Move, now: Instant)
    ensures
      move.Result(d, now).Ok? <==>
        match move
        case Completion => d.state == Transferring
        case TransferFailure(code) => code != "" && d.state != Failed && d.state != DeliveryState.Expired
        case ExpirySweep => d.state == Pending && d.expiresAt <= now
        case RestartRecovery => d.state == Transferring
        case RestoreCleanup => d.state == Pending || d.state == Transferring
        case Expiry => d.state == Pending && d.expiresAt <= now
    ensures
      move.Result(d, now).Ok? ==>
        move.Result(d, now).value ==
        match move
        case Completion => Entered(d, ServerCompleted, now)
        case TransferFailure(code) => Entered(d, Failed, now).(failureCode := code)
        case ExpirySweep => Entered(d, Failed, now).(failureCode := "delivery_expired")
        case RestartRecovery => Entered(d, Failed, now).(failureCode := "interrupted_transfer")
        case RestoreCleanup => Entered(d, Failed, now).(failureCode := "restore_pending")
        case Expiry => Entered(d, DeliveryState.Expired, now)
  {
  }

  /** The three sweeps pass over a delivery in any other state. */
  lemma SweepRefusals(d: Delivery, move: Move, now: Instant)
    requires move.ExpirySweep? || move.RestartRecovery? || move.RestoreCleanup?
    ensures move.Result(d, now).Err? ==> move.Result(d, now).error == NotPermitted
  {
  }

  /** A move lands exactly on the row it read, and the sweeps also invalidate the delivery's private links. */
  lemma MoveLands(n: Node, i: nat, move: Move, now: Instant)
    requires Inv(n) && i < |n.txns| && n.txns[i].delivery.Some?
    ensures
      var d := n.txns[i].delivery.value;
      var n' := Finished(n, i, move, now);
      && (n' != n <==> n.store.deliveries[d.id] == d && move.Result(d, now).Ok?)
      && (n' != n ==>
            && move.Result(d, now).Ok?
            && n'.store.deliveries == n.store.deliveries[d.id := move.Result(d, now).value]
            && n'.history == n.history + [Moved(d.id, move.Result(d, now).value.state, now)]
            && n'.store.grants.Keys == n.store.grants.Keys
            && forall id | id in n.store.grants ::
                 n'.store.grants[id] ==
                 if move.ExpirySweep? || move.RestartRecovery? || move.RestoreCleanup?
                 then DeliveryStore.AfterInvalidation(n.store.grants[id], PrivateOf(d.id), now) else n.store.grants[id])
  {
    TxnReads(n, i);
    var d := n.txns[i].delivery.value;
    MoveSameId(d, move, now);
    hide Inv, Move.Result, InvalidateGrants, DeliveryStore.AfterInvalidation, Hits, Grant.Killed;
    DeliveryStore.InvalidateRows(n.store, PrivateOf(d.id), now);
    if Finished(n, i, move, now) != n {
      var saved := n.store.(deliveries := n.store.deliveries[d.id := move.Result(d, now).value]);
      DeliveryStore.InvalidateRows(saved, PrivateOf(d.id), now);
      forall id | id in n.store.grants
        ensures DeliveryStore.AfterInvalidation(n.store.grants[id], PrivateOf(d.id), now) ==
                if Hits(n.store.grants[id], PrivateOf(d.id)) then n.store.grants[id].Killed(now) else n.store.grants[id]
      {
        DeliveryStore.InvalidationExactly(n.store.grants[id], PrivateOf(d.id), now);
      }
    }
  }

  lemma MoveSameId(d: Delivery, move: Move, now: Instant)
    ensures move.Result(d, now).Ok? ==>
              move.Result(d, now).value.id == d.id && move.Result(d, now).value.version == d.version + 1
  {
  }

  // ---- transactions that nothing disturbs ----

  /** New rows are stored exactly when their fields are in order and fresh, and their id and hash are free. */
  lemma RowsAdded(n: Node, d: Delivery, g: Grant)
    ensures
      Apply(n, AddDelivery(d)) ==
      if NewDelivery(d).Ok? && d.state == Pending && d.consumedAt == 0 && d.finishedAt == 0 && d.failureCode == ""
         && d.version == 0 && d.id !in n.store.deliveries
      then n.(store := n.store.(deliveries := n.store.deliveries[d.id := d])) else n
    ensures
      Apply(n, AddGrant(g)) ==
      if NewDownloadGrant(g).Ok? && g.consumedAt == 0 && g.invalidatedAt == 0 && g.version == 0
         && g.id !in n.store.grants && g.tokenHash !in n.store.byHash
      then n.(store := n.store.(grants := n.store.grants[g.id := g],
          byHash := n.store.byHash[g.tokenHash := g.id])) else n
  {
    hide NewDelivery, NewDownloadGrant;
  }

  /** A delivery read and moved without interference is moved exactly when the move is allowed. */
  lemma MoveCommits(n: Node, id: string, move: Move, now: Instant)
    requires Inv(n) && id in n.store.deliveries
    ensures
      var n' := Apply(Apply(n, OpenDelivery(id)), CommitMove(|n.txns|, move, now));
      n'.store.deliveries ==
      if move.Result(n.store.deliveries[id], now).Ok?
      then n.store.deliveries[id := move.Result(n.store.deliveries[id], now).value] else n.store.deliveries
  {
    hide Inv, Move.Result, InvalidateGrants;
    OpenKeeps(n, OpenDelivery(id));
    MoveLands(Apply(n, OpenDelivery(id)), |n.txns|, move, now);
    OwnDelivery(n, id);
    var begun := Apply(n, OpenDelivery(id));
    assert begun.txns[|n.txns|] == Txn(None, Some(n.store.deliveries[id]));
  }

  lemma OwnDelivery(n: Node, id: string)
    requires Inv(n) && id in n.store.deliveries
    ensures n.store.deliveries[id].id == id
  {
  }

  /**
   * A private link begun and redeemed without interference releases its key exactly when link and delivery allow it.
   */
  lemma LinkReleases(n: Node, g: Grant, now: Instant)
    requires Inv(n) && g.id in n.store.grants && n.store.grants[g.id] == g
    requires g.purpose == LeafPrivate && g.deliveryId in n.store.deliveries
    ensures
      var k := |n.txns|;
      var n' := Apply(Apply(Apply(n, OpenLink(g.tokenHash)), ReadDelivery(k)),
          CommitConsume(k, LeafPrivate, g.certificateId, now));
      var d := n.store.deliveries[g.deliveryId];
      n'.history ==
      if g.consumedAt == 0 && g.invalidatedAt == 0 && now < g.expiresAt && d.state == Pending && now < d.expiresAt
      then n.history + [Released(d.id, g.id, now)] else n.history
  {
    hide Inv, Consumed;
    var k, d := |n.txns|, n.store.deliveries[g.deliveryId];
    LinkFound(n, g);
    OwnDelivery(n, g.deliveryId);
    var linked := Apply(n, OpenLink(g.tokenHash));
    assert linked == n.(txns := n.txns + [Txn(Some(g), None)]);
    var read := Apply(linked, ReadDelivery(k));
    assert read == n.(txns := n.txns + [Txn(Some(g), Some(d))]);
    OpenKeeps(n, OpenLink(g.tokenHash));
    OpenKeeps(linked, ReadDelivery(k));
    ReleaseExactly(read, k, g.certificateId, now);
  }

  lemma LinkFound(n: Node, g: Grant)
    requires Inv(n) && g.id in n.store.grants && n.store.grants[g.id] == g
    ensures g.tokenHash in n.store.byHash && n.store.byHash[g.tokenHash] == g.id
  {
  }

  /** A kill of public links marks exactly the unspent ones it is about; private links are not killed this way. */
  lemma PublicKills(n: Node, target: Target, now: Instant)
    ensures
      var n' := Apply(n, KillPublicLinks(target, now));
      && n' == n.(store := n'.store) && n'.store == n.store.(grants := n'.store.grants)
      && n'.store.grants.Keys == n.store.grants.Keys
      && forall id | id in n.store.grants ::
           n'.store.grants[id] ==
           if target.PrivateOf? then n.store.grants[id]
               else DeliveryStore.AfterInvalidation(n.store.grants[id], target, now)
  {
    hide InvalidateGrants, Hits, Grant.Killed, DeliveryStore.AfterInvalidation;
    DeliveryStore.InvalidateRows(n.store, target, now);
    forall id | id in n.store.grants
      ensures DeliveryStore.AfterInvalidation(n.store.grants[id], target, now) ==
              if Hits(n.store.grants[id], target) then n.store.grants[id].Killed(now) else n.store.grants[id]
    {
      DeliveryStore.InvalidationExactly(n.store.grants[id], target, now);
    }
  }
}
