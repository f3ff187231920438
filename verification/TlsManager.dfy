/** Prepared TLS configurations that are applied at most once (internal/tlsruntime/manager.go). */
module TlsManager {
  import opened Outcomes

  datatype ApplyResult = Applied | ForeignHandle | HandleConsumed | ContextMissing | Cancelled | ManagerClosed

  datatype Context = NilContext | LiveContext | DoneContext

  /** Installer tokens and handles wrap freshly allocated bytes: only their identity matters. */
  class Identity {
    constructor () {}
  }

  /** Holds a private key until cleared. */
  class Snapshot {
    var cleared: bool

    constructor ()
      ensures !cleared
    {
      cleared := false;
    }

    method Clear()
      modifies this
      ensures cleared
    {
      cleared := true;
    }
  }

  datatype Prepared = Prepared(token: Identity, handle: Identity)

  /**
   * The manager itself. `known` and `minted` number the snapshots and their handles as the state machine below does,
   * `wiped` are the cleared ones, and `view` is the machine's state: each method takes one or two of its steps.
   */
  class ConfigManager {
    const token: Identity
    var pending: map<Identity, Snapshot>
    var active: Snapshot?
    var closed: bool
    ghost var known: seq<Snapshot>
    ghost var minted: seq<Identity?>
    ghost var wiped: set<Snapshot>
    ghost var view: Node

    ghost predicate Valid()
      reads this, known
    {
      && Inv(view) && closed == view.closed
      && Ties(view, known, minted, pending, active, wiped)
      && (forall s | s in known :: s.cleared <==> s in wiped)
    }

    constructor ()
      ensures Valid() && view == Initial() && known == [] && fresh(token)
    {
      token := new Identity();
      pending, active, closed := map[], null, false;
      known, minted, wiped, view := [], [], {}, Initial();
    }

    /** The last critical section of Prepare, on a snapshot built outside the lock. */
    method Register(snapshot: Snapshot, ctx: Context) returns (prepared: Result<Prepared>)
      requires Valid() && !snapshot.cleared && snapshot !in known && ctx != NilContext
      modifies this, snapshot
      ensures Valid() && known == old(known) + [snapshot]
      ensures view == Registered(Step(old(view), Build), |old(known)|, ctx)
      ensures prepared.Ok? <==> !old(closed) && ctx == LiveContext
      ensures prepared.Ok? ==> prepared.value.token == token && minted == old(minted) + [prepared.value.handle]
      ensures prepared.Err? ==> prepared.error == NotPermitted && minted == old(minted) + [null] && snapshot.cleared
    {
      hide Ties, Inv, Registered, Step;
      ghost var built := Step(view, Build);
      StepKeeps(view, Build);
      StepKeeps(built, RegisterBuilt(|known|, ctx));
      if closed || ctx == DoneContext {
        RefusedTies(view, known, minted, pending, active, wiped, snapshot, ctx);
        view := Step(built, RegisterBuilt(|known|, ctx));
        known, minted, wiped := known + [snapshot], minted + [null], wiped + {snapshot};
        snapshot.Clear();
        return Err(NotPermitted);
      }
      var handle := new Identity();
      RegisteredTies(view, known, minted, pending, active, wiped, snapshot, handle);
      view := Step(built, RegisterBuilt(|known|, ctx));
      known, minted := known + [snapshot], minted + [handle];
      pending := pending[handle := snapshot];
      return Ok(Prepared(token, handle));
    }
    /** The number of a handle; one past them all for a handle never minted here. */
    ghost function Number(handle: Identity): (s: nat)
      reads this
      ensures handle in minted ==> s < |minted| && minted[s] == handle
      ensures handle !in minted ==> s == |minted|
    {
      if handle in minted then NumberIn(minted, handle) else |minted|
    }

    /** Prepare: the loader runs outside the lock, and its own copy of the key is cleared on every way out. */
    method Prepare(ctx: Context, load: Load, afterLoad: Context, atLock: Context) returns (prepared: Result<Prepared>)
      requires Valid() && load.copy !in known && afterLoad != NilContext && atLock != NilContext
      modifies this, load.copy
      ensures Valid()
      ensures var called := ctx == LiveContext && !old(closed);
              var built := called && load.Loaded? && afterLoad == LiveContext && load.convertible;
              && (called ==> load.copy.cleared) && (!called ==> load.copy.cleared == old(load.copy.cleared))
              && view == (if built then Registered(Step(old(view), Build), |old(known)|, atLock) else old(view))
              && (prepared.Ok? <==> built && atLock == LiveContext)
              && (prepared.Err? ==> prepared.error == NotPermitted)
              && (prepared.Ok? ==> prepared.value.token == token && minted == old(minted) + [prepared.value.handle])
    {
      if ctx == NilContext || ctx == DoneContext || closed { return Err(NotPermitted); }
      if load.LoadFailed? || afterLoad == DoneContext || !load.convertible {
        load.copy.Clear();
        return Err(NotPermitted);
      }
      var snapshot := new Snapshot();
      load.copy.Clear();
      prepared := Register(snapshot, atLock);
    }

    /** Consumes an owned handle at most once; a candidate that is refused is cleared. */
    method Apply(ctx: Context, prepared: Prepared) returns (r: ApplyResult)
      requires Valid()
      modifies this, if prepared.handle in pending then {pending[prepared.handle]} else {}
      ensures Valid() && known == old(known) && minted == old(minted)
      ensures r == ResultOf(old(view), prepared.token == token, old(Number(prepared.handle)), ctx)
      ensures view == ApplyAndClear(old(view), prepared.token == token, old(Number(prepared.handle)), ctx)
      ensures r == Applied ==> active == old(pending)[prepared.handle] && !active.cleared
      ensures old(active) != null ==> !old(active).cleared
    {
      hide Ties, Inv, Step, Handled, ResultOf;
      ghost var number := Number(prepared.handle);
      ghost var ours := prepared.token == token;
      PendingNumber(view, known, minted, pending, active, wiped, prepared.handle, number);
      ApplyStepKeeps(view, ours, number, ctx);
      ResultCases(view, ours, number, ctx);
      ActiveClean(view, known, minted, pending, active, wiped);
      if prepared.token != token { return ForeignHandle; }
      if prepared.handle !in pending { return HandleConsumed; }
      var snapshot := pending[prepared.handle];
      if ctx == LiveContext {
        AppliedTies(view, known, minted, pending, active, wiped, prepared.handle, number);
      } else {
        TakenTies(view, known, minted, pending, active, wiped, prepared.handle, number);
      }
      view := ApplyAndClear(view, ours, number, ctx);
      pending := pending - {prepared.handle};
      if ctx == NilContext {
        wiped := wiped + {snapshot};
        snapshot.Clear();
        return ContextMissing;
      }
      if ctx == DoneContext {
        wiped := wiped + {snapshot};
        snapshot.Clear();
        return Cancelled;
      }
      if closed {
        assert false;
      }
      active := snapshot;
      return Applied;
    }

    /** Only an owned handle that is still pending is released. */
    method Discard(prepared: Prepared)
      requires Valid()
      modifies this, if prepared.handle in pending then {pending[prepared.handle]} else {}
      ensures Valid() && known == old(known) && minted == old(minted) && active == old(active)
      ensures view == DiscardAndClear(old(view), prepared.token == token, old(Number(prepared.handle)))
      ensures prepared.token == token && prepared.handle in old(pending) ==> old(pending)[prepared.handle].cleared
    {
      hide Ties, Inv, Step;
      ghost var number := Number(prepared.handle);
      PendingNumber(view, known, minted, pending, active, wiped, prepared.handle, number);
      DiscardStepKeeps(view, prepared.token == token, number);
      if prepared.token != token { return; }
      if prepared.handle in pending {
        TakenTies(view, known, minted, pending, active, wiped, prepared.handle, number);
        var snapshot := pending[prepared.handle];
        view := DiscardAndClear(view, true, number);
        pending := pending - {prepared.handle};
        wiped := wiped + {snapshot};
        snapshot.Clear();
      }
    }

    /** The callback of ServerConfig: a handshake keeps the snapshot it loaded. */
    method Handshake() returns (snapshot: Snapshot?)
      requires Valid()
      modifies this`view
      ensures Valid() && view == Step(old(view), Action.Handshake)
      ensures snapshot == active && (snapshot != null ==> !snapshot.cleared)
    {
      ActiveClean(view, known, minted, pending, active, wiped);
      StepKeeps(view, Action.Handshake);
      view := Step(view, Action.Handshake);
      return active;
    }

    /** Everything pending and the active snapshot are cleared, once. */
    method Close()
      requires Valid()
      modifies this, pending.Values, active
      ensures Valid() && closed && known == old(known) && minted == old(minted)
      ensures view == CloseAndClear(old(view))
      ensures !old(closed) ==> forall h | h in old(pending) :: old(pending)[h].cleared
      ensures !old(closed) && old(active) != null ==> old(active).cleared
    {
      hide Ties, Inv, Step, CloseAndClear;
      CloseStepKeeps(view);
      ActiveClean(view, known, minted, pending, active, wiped);
      if closed { return; }
      CloseTies(view, known, minted, pending, active, wiped);
      closed := true;
      ghost var before := pending;
      var taken := active;
      active := null;
      var released := Drain();
      ClearAll(released);
      ClearOld(taken);
      view := CloseAndClear(view);
      wiped := wiped + before.Values + (if taken != null then {taken} else {});
    }

    /** Close's loop under the lock: every pending snapshot leaves the registry. */
    method Drain() returns (released: seq<Snapshot>)
      modifies this`pending
      ensures pending == map[]
      ensures forall s :: s in released <==> s in old(pending).Values
    {
      ghost var before := pending;
      released := [];
      while pending != map[]
        invariant pending.Keys <= before.Keys && forall h | h in pending :: pending[h] == before[h]
        invariant forall h | h in before :: h in pending || before[h] in released
        invariant forall s | s in released :: s in before.Values
        decreases pending.Keys
      {
        var h :| h in pending;
        released := released + [pending[h]];
        pending := pending - {h};
      }
    }
  }

  method ClearOld(taken: Snapshot?)
    modifies taken
    ensures taken != null ==> taken.cleared
  {
    if taken != null { taken.Clear(); }
  }

  /** Close's loop outside the lock. */
  method ClearAll(released: seq<Snapshot>)
    modifies set s | s in released
    ensures forall s | s in released :: s.cleared
  {
    for i := 0 to |released|
      invariant forall j | 0 <= j < i :: released[j].cleared
    {
      released[i].Clear();
    }
  }

  /** What the loader came back with; `copy` is the loader's own private key. */
  datatype Load = LoadFailed(copy: Snapshot) | Loaded(copy: Snapshot, convertible: bool)

  /** The first place of a member. */
  ghost function NumberIn<T>(s: seq<T>, x: T): (k: nat)
    requires x in s
    ensures k < |s| && s[k] == x
  {
    var k :| 0 <= k < |s| && s[k] == x; k
  }

  /**
   * The numbering agrees with the registry, the pointer and the cleared snapshots; what is taken is cleared at once.
   */
  ghost predicate Ties(v: Node, known: seq<Snapshot>, minted: seq<Identity?>, pending: map<Identity, Snapshot>,
      active: Snapshot?, wiped: set<Snapshot>)
  {
    && |known| == |minted| == |v.life|
    && (forall s, t | 0 <= s < t < |known| :: known[s] != known[t])
    && (forall s, t | 0 <= s < t < |minted| && minted[s] != null :: minted[s] != minted[t])
    && (forall h | h in pending :: h in minted)
    && (forall s | 0 <= s < |minted| :: v.life[s] == Pending <==> minted[s] != null && minted[s] in pending)
    && (forall s | 0 <= s < |minted| && minted[s] != null && minted[s] in pending :: pending[minted[s]] == known[s])
    && (active != null ==> active in known)
    && (forall s | s in wiped :: s in known)
    && (forall s | 0 <= s < |known| :: known[s] == active <==> v.life[s] == Active)
    && (forall s | 0 <= s < |known| :: known[s] in wiped <==> v.life[s] == Cleared)
    && (forall s | 0 <= s < |known| :: v.life[s] != Built && v.life[s] != Taken)
  }

  lemma RefusedTies(v: Node, known: seq<Snapshot>, minted: seq<Identity?>, pending: map<Identity, Snapshot>,
      active: Snapshot?, wiped: set<Snapshot>, snapshot: Snapshot, ctx: Context)
    requires Ties(v, known, minted, pending, active, wiped) && snapshot !in known && (v.closed || ctx != LiveContext)
    ensures Ties(Step(Step(v, Build), RegisterBuilt(|known|, ctx)), known + [snapshot], minted + [null], pending,
              active, wiped + {snapshot})
    ensures Step(Step(v, Build), RegisterBuilt(|known|, ctx)) == Registered(Step(v, Build), |known|, ctx)
    ensures Step(Step(v, Build), RegisterBuilt(|known|, ctx)).closed == v.closed
  {
    hide Step, Registered;
    TiedLives(v, known, minted, pending, active, wiped);
    RefusedNode(v, ctx);
  }

  lemma TiedLives(v: Node, known: seq<Snapshot>, minted: seq<Identity?>, pending: map<Identity, Snapshot>,
      active: Snapshot?, wiped: set<Snapshot>)
    requires Ties(v, known, minted, pending, active, wiped)
    ensures |v.life| == |known|
  {
  }

  lemma RefusedNode(v: Node, ctx: Context)
    requires v.closed || ctx != LiveContext
    ensures Step(Step(v, Build), RegisterBuilt(|v.life|, ctx)) == v.(life := v.life + [Cleared])
    ensures Registered(Step(v, Build), |v.life|, ctx) == v.(life := v.life + [Cleared])
  {
    assert v.life + [Cleared] == (v.life + [Built])[|v.life| := Cleared];
  }

  lemma RegisteredTies(v: Node, known: seq<Snapshot>, minted: seq<Identity?>, pending: map<Identity, Snapshot>,
      active: Snapshot?, wiped: set<Snapshot>, snapshot: Snapshot, handle: Identity)
    requires Ties(v, known, minted, pending, active, wiped) && snapshot !in known && handle !in minted && !v.closed
    ensures Ties(Step(Step(v, Build), RegisterBuilt(|known|, LiveContext)), known + [snapshot], minted + [handle],
              pending[handle := snapshot], active, wiped)
    ensures Step(Step(v, Build), RegisterBuilt(|known|, LiveContext)) ==
              Registered(Step(v, Build), |known|, LiveContext)
    ensures Step(Step(v, Build), RegisterBuilt(|known|, LiveContext)).closed == v.closed && snapshot !in wiped
  {
    assert v.life + [Pending] == (v.life + [Built])[|known| := Pending];
  }

  /** Apply with the clearing of a refused candidate that follows it outside the lock. */
  function ApplyAndClear(n: Node, ours: bool, handle: nat, ctx: Context): Node {
    Step(Step(n, ApplyHandle(ours, handle, ctx)), ClearTaken(handle))
  }

  function DiscardAndClear(n: Node, ours: bool, handle: nat): Node {
    Step(Step(n, DiscardHandle(ours, handle)), ClearTaken(handle))
  }

  /** Close with the clearing of everything it took. */
  function CloseAndClear(n: Node): Node {
    var taken := Step(n, CloseManager);
    taken.(life := seq(|taken.life|, s requires 0 <= s < |taken.life| =>
      if taken.life[s] == Taken then Cleared else taken.life[s]))
  }

  lemma PendingNumber(v: Node, known: seq<Snapshot>, minted: seq<Identity?>, pending: map<Identity, Snapshot>,
      active: Snapshot?, wiped: set<Snapshot>, handle: Identity, number: nat)
    requires Inv(v) && Ties(v, known, minted, pending, active, wiped)
    requires handle in minted ==> number < |minted| && minted[number] == handle
    requires handle !in minted ==> number == |minted|
    ensures handle in pending <==> number in v.pending
    ensures handle in pending ==>
              && number < |minted| == |known| == |v.life| && minted[number] == handle
              && v.life[number] == Pending && pending[handle] == known[number]
              && pending[handle] in known && pending[handle] !in wiped
    ensures handle !in pending ==> number >= |v.life| || v.life[number] != Taken
  {
  }

  lemma ActiveClean(v: Node, known: seq<Snapshot>, minted: seq<Identity?>, pending: map<Identity, Snapshot>,
      active: Snapshot?, wiped: set<Snapshot>)
    requires Inv(v) && Ties(v, known, minted, pending, active, wiped)
    ensures active != null ==> active in known && active !in wiped && active !in pending.Values
    ensures forall s | 0 <= s < |v.life| :: v.life[s] != Taken
  {
    if active != null {
      var s :| 0 <= s < |known| && known[s] == active;
      forall h | h in pending ensures pending[h] != active {
        var t :| 0 <= t < |minted| && minted[t] == h;
      }
    }
  }

  lemma ResultCases(v: Node, ours: bool, number: nat, ctx: Context)
    requires Inv(v)
    ensures !ours ==> ResultOf(v, ours, number, ctx) == ForeignHandle
    ensures ours && number !in v.pending ==> ResultOf(v, ours, number, ctx) == HandleConsumed
    ensures ours && number in v.pending ==>
              && !v.closed
              && ResultOf(v, ours, number, ctx) == (match ctx
                                                    case NilContext => ContextMissing
                                                    case DoneContext => Cancelled
                                                    case LiveContext => Applied)
    ensures (!ours || number !in v.pending) && (number >= |v.life| || v.life[number] != Taken) ==>
              ApplyAndClear(v, ours, number, ctx) == v
  {
  }

  lemma ApplyStepKeeps(v: Node, ours: bool, number: nat, ctx: Context)
    requires Inv(v)
    ensures Inv(ApplyAndClear(v, ours, number, ctx)) && ApplyAndClear(v, ours, number, ctx).closed == v.closed
  {
    StepKeeps(v, ApplyHandle(ours, number, ctx));
    StepKeeps(Step(v, ApplyHandle(ours, number, ctx)), ClearTaken(number));
  }

  lemma DiscardStepKeeps(v: Node, ours: bool, number: nat)
    requires Inv(v)
    ensures Inv(DiscardAndClear(v, ours, number)) && DiscardAndClear(v, ours, number).closed == v.closed
    ensures (!ours || number !in v.pending) && (number >= |v.life| || v.life[number] != Taken) ==>
              DiscardAndClear(v, ours, number) == v
  {
    StepKeeps(v, DiscardHandle(ours, number));
    StepKeeps(Step(v, DiscardHandle(ours, number)), ClearTaken(number));
  }

  lemma CloseStepKeeps(v: Node)
    requires Inv(v)
    ensures Inv(CloseAndClear(v)) && CloseAndClear(v).closed
    ensures v.closed && (forall s | 0 <= s < |v.life| :: v.life[s] != Taken) ==> CloseAndClear(v) == v
  {
    StepKeeps(v, CloseManager);
  }

  lemma AppliedShape(v: Node, number: nat)
    requires Inv(v) && number in v.pending
    ensures var life := ApplyAndClear(v, true, number, LiveContext).life;
            |life| == |v.life| && number < |life|
            && forall s | 0 <= s < |life| ::
                 life[s] == if s == number then Active else if v.life[s] == Active then Superseded else v.life[s]
  {
  }

  lemma TakenShape(v: Node, number: nat)
    requires Inv(v) && number in v.pending
    ensures number < |v.life| && DiscardAndClear(v, true, number).life == v.life[number := Cleared]
    ensures forall ctx | ctx != LiveContext :: ApplyAndClear(v, true, number, ctx) == DiscardAndClear(v, true, number)
  {
  }

  lemma CloseShape(v: Node)
    requires !v.closed
    ensures var life := CloseAndClear(v).life;
            |life| == |v.life|
            && forall s | 0 <= s < |life| ::
                 life[s] == if v.life[s] == Pending || v.life[s] == Active || v.life[s] == Taken then Cleared
                     else v.life[s]
  {
  }

  lemma AppliedTies(v: Node, known: seq<Snapshot>, minted: seq<Identity?>, pending: map<Identity, Snapshot>,
      active: Snapshot?, wiped: set<Snapshot>, handle: Identity, number: nat)
    requires Inv(v) && Ties(v, known, minted, pending, active, wiped) && number in v.pending
    requires handle in pending && number < |minted| && minted[number] == handle
    ensures Ties(ApplyAndClear(v, true, number, LiveContext), known, minted, pending - {handle}, pending[handle], wiped)
  {
    hide Inv, ApplyAndClear;
    AppliedShape(v, number);
    ActiveClean(v, known, minted, pending, active, wiped);
  }

  /** A handle that leaves the registry without becoming active, by a refused Apply or by Discard. */
  lemma TakenTies(v: Node, known: seq<Snapshot>, minted: seq<Identity?>, pending: map<Identity, Snapshot>,
      active: Snapshot?, wiped: set<Snapshot>, handle: Identity, number: nat)
    requires Inv(v) && Ties(v, known, minted, pending, active, wiped) && number in v.pending
    requires handle in pending && number < |minted| && minted[number] == handle
    ensures Ties(DiscardAndClear(v, true, number), known, minted, pending - {handle}, active, wiped + {pending[handle]})
    ensures forall ctx | ctx != LiveContext :: ApplyAndClear(v, true, number, ctx) == DiscardAndClear(v, true, number)
  {
    hide Inv, ApplyAndClear, DiscardAndClear;
    TakenShape(v, number);
    ActiveClean(v, known, minted, pending, active, wiped);
  }

  lemma CloseTies(v: Node, known: seq<Snapshot>, minted: seq<Identity?>, pending: map<Identity, Snapshot>,
      active: Snapshot?, wiped: set<Snapshot>)
    requires Inv(v) && Ties(v, known, minted, pending, active, wiped) && !v.closed
    ensures Ties(CloseAndClear(v), known, minted, map[], null,
              wiped + pending.Values + (if active != null then {active} else {}))
    ensures forall h | h in pending :: pending[h] in known
  {
    hide Inv, CloseAndClear;
    CloseShape(v);
    PendingValues(v, known, minted, pending, active, wiped);
  }

  lemma PendingValues(v: Node, known: seq<Snapshot>, minted: seq<Identity?>, pending: map<Identity, Snapshot>,
      active: Snapshot?, wiped: set<Snapshot>)
    requires Ties(v, known, minted, pending, active, wiped)
    ensures forall s | 0 <= s < |known| :: known[s] in pending.Values <==> v.life[s] == Pending
    ensures forall h | h in pending :: pending[h] in known
  {
    forall s | 0 <= s < |known|
      ensures v.life[s] == Pending ==> known[s] in pending.Values
    {
      if v.life[s] == Pending { assert pending[minted[s]] == known[s]; }
    }
    forall h | h in pending
      ensures exists t :: 0 <= t < |minted| && minted[t] == h && v.life[t] == Pending && pending[h] == known[t]
    {
      var t :| 0 <= t < |minted| && minted[t] == h;
    }
  }

  // ---- all interleavings, with clearing outside the lock ----

  /** Where one built snapshot is in its life; `Taken` is out of the manager but not cleared yet. */
  datatype Status = Built | Pending | Active | Superseded | Taken | Cleared

  datatype Node = Node(
    pending: map<nat, nat>,
    active: Option<nat>,
    closed: bool,
    life: seq<Status>,
    handshakes: set<nat>)

  /** Handles and snapshots are numbered; a handle carries the number of the snapshot it was minted for. */
  datatype Action =
    | Build
    | RegisterBuilt(snapshot: nat, ctx: Context)
    | ApplyHandle(ours: bool, handle: nat, ctx: Context)
    | DiscardHandle(ours: bool, handle: nat)
    | ClearTaken(snapshot: nat)
    | CloseManager
    | Handshake

  function Initial(): Node { Node(map[], None, false, [], {}) }

  function Set(life: seq<Status>, s: nat, status: Status): seq<Status> {
    if s < |life| then life[s := status] else life
  }

  function ResultOf(n: Node, ours: bool, handle: nat, ctx: Context): ApplyResult {
    if !ours then ForeignHandle
    else if handle !in n.pending then HandleConsumed
    else if ctx == NilContext then ContextMissing
    else if ctx == DoneContext then Cancelled
    else if n.closed then ManagerClosed
    else Applied
  }

  function Step(n: Node, a: Action): Node {
    match a
    case Build => n.(life := n.life + [Built])
    case RegisterBuilt(s, ctx) => Registered(n, s, ctx)
    case ApplyHandle(ours, handle, ctx) => Handled(n, ours, handle, ctx)
    case DiscardHandle(ours, handle) => if ours && handle in n.pending then TakenOut(n, handle) else n
    case ClearTaken(s) => if s < |n.life| && n.life[s] == Taken then n.(life := n.life[s := Cleared]) else n
    case CloseManager =>
      if n.closed then n else n.(pending := map[], active := None, closed := true, life := TakeAll(n.life))
    case Handshake => if n.active.Some? then n.(handshakes := n.handshakes + {n.active.value}) else n
  }

  /** Prepare's last critical section clears under the lock what it does not register. */
  function Registered(n: Node, s: nat, ctx: Context): Node {
    if s >= |n.life| || n.life[s] != Built then n
    else if n.closed || ctx != LiveContext then n.(life := n.life[s := Cleared])
    else n.(pending := n.pending[s := s], life := n.life[s := Pending])
  }

  /** A pending snapshot leaves the registry to be cleared outside the lock. */
  function TakenOut(n: Node, handle: nat): Node
    requires handle in n.pending
  {
    n.(pending := n.pending - {handle}, life := Set(n.life, n.pending[handle], Taken))
  }

  function Handled(n: Node, ours: bool, handle: nat, ctx: Context): Node {
    var r := ResultOf(n, ours, handle, ctx);
    if r == ForeignHandle || r == HandleConsumed then n
    else if r != Applied then TakenOut(n, handle)
    else
      n.(pending := n.pending - {handle},
         active := Some(n.pending[handle]),
         life := Set(
           if n.active.Some? then Set(n.life, n.active.value, Superseded) else n.life,
           n.pending[handle], Active))
  }

  /** Close takes every pending snapshot and the active one. */
  function TakeAll(life: seq<Status>): (r: seq<Status>)
    ensures |r| == |life|
    ensures forall s | 0 <= s < |life| :: r[s] == if life[s] == Pending || life[s] == Active then Taken else life[s]
  {
    seq(|life|, s requires 0 <= s < |life| => if life[s] == Pending || life[s] == Active then Taken else life[s])
  }

  function Run(n: Node, actions: seq<Action>): Node {
    if actions == [] then n else Step(Run(n, actions[..|actions| - 1]), actions[|actions| - 1])
  }

  /** A longer run takes the shorter one and then one more step. */
  lemma RunMore(n: Node, actions: seq<Action>, a: Action)
    ensures Run(n, actions + [a]) == Step(Run(n, actions), a)
  {
    assert (actions + [a])[..|actions|] == actions;
  }

  /** The manager's own data and the snapshots' lives agree. */
  ghost predicate Inv(n: Node) {
    && (forall h | h in n.pending :: n.pending[h] == h)
    && (forall s | 0 <= s < |n.life| :: s in n.pending <==> n.life[s] == Pending)
    && (forall h | h in n.pending :: h < |n.life|)
    && (forall s | 0 <= s < |n.life| :: n.active == Some(s) <==> n.life[s] == Active)
    && (n.active.Some? ==> n.active.value < |n.life|)
    && (n.closed ==> n.pending == map[] && n.active == None)
    && (forall s | s in n.handshakes :: s < |n.life| && (n.life[s] == Active || n.life[s] == Superseded || n.closed))
  }

  /** The only ways a snapshot's life can go on. */
  predicate Moves(before: Status, after: Status) {
    match before
    case Built => after == Built || after == Pending || after == Cleared
    case Pending => after == Pending || after == Active || after == Taken
    case Active => after == Active || after == Superseded || after == Taken
    case Superseded => after == Superseded
    case Taken => after == Taken || after == Cleared
    case Cleared => after == Cleared
  }

  ghost predicate LivesMove(n: Node, n': Node) {
    |n.life| <= |n'.life| && forall s | 0 <= s < |n.life| :: Moves(n.life[s], n'.life[s])
  }

  lemma RegisterKeeps(n: Node, s: nat, ctx: Context)
    requires Inv(n)
    ensures Inv(Registered(n, s, ctx)) && LivesMove(n, Registered(n, s, ctx))
  {
    RegisterLives(n, s, ctx);
    hide LivesMove;
  }

  lemma RegisterLives(n: Node, s: nat, ctx: Context)
    ensures LivesMove(n, Registered(n, s, ctx))
  {
  }

  lemma TakeKeeps(n: Node, handle: nat)
    requires Inv(n) && handle in n.pending
    ensures Inv(TakenOut(n, handle)) && LivesMove(n, TakenOut(n, handle))
    ensures handle < |n.life| && TakenOut(n, handle).active == n.active &&
              TakenOut(n, handle).life == n.life[handle := Taken]
  {
  }

  lemma SwapKeeps(n: Node, handle: nat)
    requires Inv(n) && handle in n.pending
    ensures var n' := Handled(n, true, handle, LiveContext);
            Inv(n') && LivesMove(n, n') && handle < |n.life| && n'.life[handle] == Active
  {
    var n' := Handled(n, true, handle, LiveContext);
    SwapLives(n, handle);
    hide Handled, LivesMove;
  }

  /** A successful Apply changes two lives: the candidate's and the superseded one's. */
  lemma SwapLives(n: Node, handle: nat)
    requires Inv(n) && handle in n.pending
    ensures handle < |n.life| && !n.closed
    ensures var n' := Handled(n, true, handle, LiveContext);
            && n'.pending == n.pending - {handle} && n'.active == Some(handle)
            && n'.closed == n.closed && n'.handshakes == n.handshakes && |n'.life| == |n.life|
            && (forall s | 0 <= s < |n.life| ::
                  n'.life[s] == if s == handle then Active else if n.life[s] == Active then Superseded else n.life[s])
            && LivesMove(n, n')
  {
  }

  lemma HandleKeeps(n: Node, ours: bool, handle: nat, ctx: Context)
    requires Inv(n)
    ensures Inv(Handled(n, ours, handle, ctx)) && LivesMove(n, Handled(n, ours, handle, ctx))
    ensures Handled(n, ours, handle, ctx).active != n.active ==> ResultOf(n, ours, handle, ctx) == Applied
    ensures ours && handle in n.pending ==>
              var life := Handled(n, ours, handle, ctx).life;
              handle < |life| && life[handle] == if ctx == LiveContext then Active else Taken
  {
    hide Inv, TakenOut, LivesMove;
    NothingMoves(n);
    if ours && handle in n.pending {
      TakeKeeps(n, handle);
      SwapKeeps(n, handle);
      SwapLives(n, handle);
    }
  }

  lemma NothingMoves(n: Node)
    ensures LivesMove(n, n)
  {
  }

  lemma CloseKeeps(n: Node)
    requires Inv(n)
    ensures Inv(Step(n, CloseManager)) && LivesMove(n, Step(n, CloseManager))
  {
  }

  lemma OtherKeeps(n: Node, a: Action)
    requires Inv(n) && (a.Build? || a.ClearTaken? || a.Handshake?)
    ensures Inv(Step(n, a)) && LivesMove(n, Step(n, a)) && Step(n, a).active == n.active
  {
  }

  lemma StepKeeps(n: Node, a: Action)
    requires Inv(n)
    ensures Inv(Step(n, a)) && LivesMove(n, Step(n, a))
    ensures Step(n, a).active != n.active ==>
              a == CloseManager || (a.ApplyHandle? && ResultOf(n, a.ours, a.handle, a.ctx) == Applied)
  {
    hide Inv, LivesMove, Handled, TakenOut, TakeAll;
    NothingMoves(n);
    match a {
      case Build => OtherKeeps(n, a);
      case RegisterBuilt(s, ctx) => RegisterKeeps(n, s, ctx);
      case ApplyHandle(ours, handle, ctx) => HandleKeeps(n, ours, handle, ctx);
      case DiscardHandle(ours, handle) => if ours && handle in n.pending { TakeKeeps(n, handle); }
      case ClearTaken(s) => OtherKeeps(n, a);
      case CloseManager => CloseKeeps(n);
      case Handshake => OtherKeeps(n, a);
    }
  }

  lemma {:induction false} RunKeeps(n: Node, actions: seq<Action>)
    requires Inv(n)
    ensures Inv(Run(n, actions))
  {
    if actions != [] {
      RunKeeps(n, actions[..|actions| - 1]);
      StepKeeps(Run(n, actions[..|actions| - 1]), actions[|actions| - 1]);
    }
  }

  /** An active snapshot, once handed to a handshake, is counted as in use from then on. */
  lemma HandshakeCounted(n: Node, actions: seq<Action>)
    requires n.active.Some?
    ensures n.active.value in Run(Step(n, Action.Handshake), actions).handshakes
  {
    HandshakesStay(Step(n, Action.Handshake), actions);
  }

  lemma {:induction false} HandshakesStay(n: Node, actions: seq<Action>)
    ensures n.handshakes <= Run(n, actions).handshakes
  {
    if actions != [] { HandshakesStay(n, actions[..|actions| - 1]); }
  }

  /** Lives that can never be left once reached. */
  predicate Settled(before: Status, after: Status) {
    && (before == Superseded ==> after == Superseded)
    && (before == Cleared ==> after == Cleared)
    && (before == Taken ==> after == Taken || after == Cleared)
    && (before != Built && before != Pending ==> after != Built && after != Pending)
    && (before != Built && before != Pending && before != Active ==> after != Active)
  }

  lemma {:induction false} LivesSettle(n: Node, actions: seq<Action>, s: nat)
    requires Inv(n) && s < |n.life|
    ensures s < |Run(n, actions).life| && Settled(n.life[s], Run(n, actions).life[s])
  {
    if actions != [] {
      var before := Run(n, actions[..|actions| - 1]);
      LivesSettle(n, actions[..|actions| - 1], s);
      RunKeeps(n, actions[..|actions| - 1]);
      StepKeeps(before, actions[|actions| - 1]);
    }
  }

  /**
   * In every reachable state: what is pending or active is not cleared, the closed branch of Apply is dead code, and
   * until Close no handshake ever holds a snapshot that was cleared or taken away.
   */
  lemma ReachableSafe(actions: seq<Action>, ours: bool, handle: nat, ctx: Context)
    ensures
      var n := Run(Initial(), actions);
      && (forall h | h in n.pending :: n.pending[h] < |n.life| && n.life[n.pending[h]] == Pending)
      && (n.active.Some? ==> n.active.value < |n.life| && n.life[n.active.value] == Active)
      && ResultOf(n, ours, handle, ctx) != ManagerClosed
      && (!n.closed ==> forall s | s in n.handshakes :: s < |n.life| && n.life[s] != Cleared && n.life[s] != Taken)
  {
    RunKeeps(Initial(), actions);
  }

  /** Once a handle left the registry, every later Apply of it is refused. */
  lemma SpentHandleStaysSpent(n: Node, handle: nat, later: seq<Action>, ctx: Context)
    requires Inv(n) && handle < |n.life| && n.life[handle] != Pending && n.life[handle] != Built
    ensures ResultOf(Run(n, later), true, handle, ctx) == HandleConsumed
  {
    LivesSettle(n, later, handle);
    RunKeeps(n, later);
  }

  /** A handle that was applied, discarded or consumed by a failed Apply is refused for ever after. */
  lemma HandleAppliesOnce(actions: seq<Action>, handle: nat, ctx: Context, later: seq<Action>, ctx': Context)
    requires handle in Run(Initial(), actions).pending
    ensures
      var n := Run(Initial(), actions);
      && ResultOf(Run(Handled(n, true, handle, ctx), later), true, handle, ctx') == HandleConsumed
      && ResultOf(Run(TakenOut(n, handle), later), true, handle, ctx') == HandleConsumed
      && (ResultOf(n, true, handle, ctx) == Applied <==> ctx == LiveContext)
  {
    var n := Run(Initial(), actions);
    RunKeeps(Initial(), actions);
    HandleKeeps(n, true, handle, ctx);
    TakeKeeps(n, handle);
    SpentHandleStaysSpent(Handled(n, true, handle, ctx), handle, later, ctx');
    SpentHandleStaysSpent(TakenOut(n, handle), handle, later, ctx');
  }

  /** A superseded snapshot is never cleared, and a cleared one never becomes pending or active again. */
  lemma SupersededSurvives(actions: seq<Action>, later: seq<Action>, s: nat)
    requires s < |Run(Initial(), actions).life|
    ensures
      var n, n' := Run(Initial(), actions), Run(Run(Initial(), actions), later);
      && s < |n'.life|
      && (n.life[s] == Superseded ==> n'.life[s] == Superseded)
      && (n.life[s] == Cleared ==> s !in n'.pending && n'.active != Some(s))
  {
    RunKeeps(Initial(), actions);
    LivesSettle(Run(Initial(), actions), later, s);
    RunKeeps(Run(Initial(), actions), later);
  }
}
