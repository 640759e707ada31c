/** `ClusterManager`: the connection and reconnect tables of one node, and the periodic sync that connects
    to active nodes and cleans up after dead ones. Events are atomic: a connection attempt inside an event
    has its outcome as a parameter (the websocket, or nothing when it failed). */
module ClusterPeers {
  import opened Text
  import opened SessionRegistry
  import opened ClusterSessions
  import opened SessionServices

  /** `reconnecting` maps an endpoint to its reconnect manager; `finished` says which managers are done. */
  datatype Peers = Peers(connections: map<string, nat>, reconnecting: map<string, nat>, finished: seq<bool>)
  {
    function Tracked(): set<string> {
      connections.Keys + reconnecting.Keys
    }

    predicate Valid() {
      forall ep :: ep in reconnecting ==> reconnecting[ep] < |finished|
    }
  }

  type Peering = p: Peers | p.Valid() witness Peers(map[], map[], [])

  /** cluster_manager.js:289-296 */
  function Cancel(p: Peering, ep: string, isSuccess: bool): Peering {
    Peers(p.connections, p.reconnecting - {ep},
          if !isSuccess && ep in p.reconnecting then p.finished[p.reconnecting[ep] := true] else p.finished)
  }

  /** cluster_manager.js:260-273: the new manager's entry. */
  function StartReconnecting(p: Peering, ep: string, skipIfActive: bool): Peering {
    if skipIfActive && ep in p.reconnecting then p
    else
      var p' := Cancel(p, ep, false);
      p'.(reconnecting := p'.reconnecting[ep := |p'.finished|], finished := p'.finished + [false])
  }

  /** cluster_manager.js:187-213; the flag says that there is a connection to return, not an error. */
  function CreateOrRetrieve(p: Peering, ep: string, throwIfActive: bool, outcome: Option<nat>): (Peering, bool) {
    if ep in p.connections then (p, true)
    else if throwIfActive && ep in p.reconnecting then (p, false)
    else match outcome
      case None => (p, false)
      case Some(ws) =>
        var p' := Cancel(p, ep, false);
        (p'.(connections := p'.connections[ep := ws]), true)
  }

  /** cluster_manager.js:275-286, as one step: a manager's queue ends with a connection or with an error. */
  function RetryDone(p: Peering, ep: string, manager: nat, outcome: Option<nat>): Peering {
    var (p', ok) := CreateOrRetrieve(p, ep, false, outcome);
    if ok then Cancel(p', ep, true)
    else p.(finished := if manager < |p.finished| then p.finished[manager := true] else p.finished)
  }

  /** cluster_manager.js:364-371 */
  function CloseNode(p: Peering, ep: string, isDuplicate: bool): Peering {
    if isDuplicate then p else StartReconnecting(p.(connections := p.connections - {ep}), ep, true)
  }

  /** cluster_manager.js:382-383 */
  function Clean(p: Peering, ep: string): Peering {
    Cancel(p.(connections := p.connections - {ep}), ep, false)
  }

  /** cluster_manager.js:149-166 for one active node. */
  function ConnectTo(p: Peering, self: string, ep: string, outcome: Option<nat>): Peering {
    if ep == self then p
    else if ep in p.reconnecting && !p.finished[p.reconnecting[ep]] then p
    else
      var (p', ok) := CreateOrRetrieve(p, ep, true, outcome);
      if ok then p' else StartReconnecting(p', ep, false)
  }

  /** The loop over the active nodes, in the order they were read. */
  function ConnectAll(p: Peering, self: string, eps: seq<string>, outcomes: map<string, nat>): Peering {
    if eps == [] then p
    else
      var ep := eps[|eps| - 1];
      ConnectTo(ConnectAll(p, self, eps[..|eps| - 1], outcomes), self, ep, if ep in outcomes then Some(outcomes[ep]) else None)
  }

  function CleanAll(p: Peering, eps: seq<string>): Peering {
    if eps == [] then p else Clean(CleanAll(p, eps[..|eps| - 1]), eps[|eps| - 1])
  }

  /** cluster_manager.js:127-146: stored or tracked, and not active. */
  function Destroyed(p: Peering, active: set<string>, stored: set<string>): set<string> {
    stored + p.Tracked() - active
  }

  function Sync(p: Peering, self: string, active: seq<string>, destroyed: seq<string>,
                outcomes: map<string, nat>): Peering {
    CleanAll(ConnectAll(p, self, active, outcomes), destroyed)
  }

  datatype Event =
    | Handshake(ep: string, outcome: Option<nat>)
    | Closed(ep: string, isDuplicate: bool)
    | Retried(ep: string, manager: nat, outcome: Option<nat>)
    | Synced(active: seq<string>, stored: set<string>, destroyed: seq<string>, outcomes: map<string, nat>)

  function Apply(p: Peering, self: string, e: Event): Peering {
    match e
    case Handshake(ep, outcome) => CreateOrRetrieve(p, ep, true, outcome).0
    case Closed(ep, isDuplicate) => CloseNode(p, ep, isDuplicate)
    case Retried(ep, manager, outcome) => RetryDone(p, ep, manager, outcome)
    case Synced(active, stored, destroyed, outcomes) => Sync(p, self, active, destroyed, outcomes)
  }

  function Run(p: Peering, self: string, es: seq<Event>): Peering
    decreases |es|
  {
    if es == [] then p else Run(Apply(p, self, es[0]), self, es[1..])
  }

  /** A sync cleans, in some order, exactly the destroyed nodes of its own moment. */
  ghost predicate WellFormed(p: Peering, e: Event) {
    e.Synced? ==> SetOf(e.destroyed) == Destroyed(p, SetOf(e.active), e.stored)
  }

  ghost predicate WellFormedRun(p: Peering, self: string, es: seq<Event>)
    decreases |es|
  {
    es != [] ==> WellFormed(p, es[0]) && WellFormedRun(Apply(p, self, es[0]), self, es[1..])
  }

  // ---- tracking ----

  lemma ConnectToTracked(p: Peering, self: string, ep: string, outcome: Option<nat>)
    ensures ConnectTo(p, self, ep, outcome).Tracked() == p.Tracked() + ({ep} - {self})
  {
  }

  lemma {:induction false} ConnectAllTracked(p: Peering, self: string, eps: seq<string>, outcomes: map<string, nat>)
    ensures ConnectAll(p, self, eps, outcomes).Tracked() == p.Tracked() + (SetOf(eps) - {self})
  {
    if eps != [] {
      var front, ep := eps[..|eps| - 1], eps[|eps| - 1];
      ConnectAllTracked(p, self, front, outcomes);
      ConnectToTracked(ConnectAll(p, self, front, outcomes), self, ep, if ep in outcomes then Some(outcomes[ep]) else None);
      SetOfSnoc(front, ep);
      assert eps == front + [ep];
    }
  }

  lemma {:induction false} CleanAllTracked(p: Peering, eps: seq<string>)
    ensures CleanAll(p, eps).Tracked() == p.Tracked() - SetOf(eps)
  {
    if eps != [] {
      var front, ep := eps[..|eps| - 1], eps[|eps| - 1];
      CleanAllTracked(p, front);
      assert SetOf(eps) == SetOf(front) + {ep};
      var q := CleanAll(p, front);
      assert Clean(q, ep).Tracked() == q.Tracked() - {ep};
    }
  }

  /** After an uninterrupted sync the tracked endpoints are exactly the active ones other than this node
      (and this node's own endpoint if it was tracked and is active). */
  lemma SyncTracked(p: Peering, self: string, active: seq<string>, stored: set<string>, destroyed: seq<string>,
                    outcomes: map<string, nat>)
    requires WellFormed(p, Synced(active, stored, destroyed, outcomes))
    ensures Sync(p, self, active, destroyed, outcomes).Tracked() ==
            (SetOf(active) - {self}) + (p.Tracked() * SetOf(active) * {self})
  {
    ConnectAllTracked(p, self, active, outcomes);
    CleanAllTracked(ConnectAll(p, self, active, outcomes), destroyed);
  }

  /** No handshake, close or retry makes the node lose track of an endpoint. */
  lemma EventKeepsTracking(p: Peering, self: string, e: Event)
    requires !e.Synced?
    ensures p.Tracked() <= Apply(p, self, e).Tracked()
    ensures Apply(p, self, e).Tracked() <= p.Tracked() + {e.ep}
  {
  }

  /** Once tracked, an endpoint stays tracked through every run until a sync finds it inactive. */
  lemma {:induction false} TrackedUntilInactive(p: Peering, self: string, es: seq<Event>, ep: string)
    requires WellFormedRun(p, self, es) && ep in p.Tracked()
    requires forall e :: e in es && e.Synced? ==> ep in e.active
    ensures ep in Run(p, self, es).Tracked()
    decreases |es|
  {
    if es != [] {
      assert es[0] in es;
      if es[0].Synced? {
        SyncTracked(p, self, es[0].active, es[0].stored, es[0].destroyed, es[0].outcomes);
      } else {
        EventKeepsTracking(p, self, es[0]);
      }
      TrackedUntilInactive(Apply(p, self, es[0]), self, es[1..], ep);
    }
  }

  /** A node that never hears its own endpoint from a peer never tracks itself, so a run that ends with a
      sync leaves exactly the active other nodes tracked. */
  lemma {:induction false} SelfUntracked(p: Peering, self: string, es: seq<Event>)
    requires WellFormedRun(p, self, es) && self !in p.Tracked()
    requires forall e :: e in es && !e.Synced? ==> e.ep != self
    ensures self !in Run(p, self, es).Tracked()
    ensures es != [] && es[|es| - 1].Synced? ==> Run(p, self, es).Tracked() == SetOf(es[|es| - 1].active) - {self}
    decreases |es|
  {
    if es != [] {
      assert es[0] in es;
      if es[0].Synced? {
        SyncTracked(p, self, es[0].active, es[0].stored, es[0].destroyed, es[0].outcomes);
      } else {
        EventKeepsTracking(p, self, es[0]);
      }
      SelfUntracked(Apply(p, self, es[0]), self, es[1..]);
      assert |es| > 1 ==> es[|es| - 1] == es[1..][|es[1..]| - 1];
    }
  }

  /** The manager exists and is not finished. */
  predicate Running(p: Peers, manager: nat) {
    manager < |p.finished| && !p.finished[manager]
  }

  // ---- the two tables exclude each other ----

  /** An endpoint is connected or reconnecting, never both, and no two endpoints share a reconnect manager. */
  ghost predicate Exclusive(p: Peering) {
    && p.connections.Keys !! p.reconnecting.Keys
    && forall a, b :: a in p.reconnecting && b in p.reconnecting && a != b ==> p.reconnecting[a] != p.reconnecting[b]
  }

  lemma StartExclusive(p: Peering, ep: string, skipIfActive: bool)
    requires Exclusive(p) && ep !in p.connections
    ensures Exclusive(StartReconnecting(p, ep, skipIfActive))
  {
  }

  lemma CreateExclusive(p: Peering, ep: string, throwIfActive: bool, outcome: Option<nat>)
    requires Exclusive(p)
    ensures var (p', ok) := CreateOrRetrieve(p, ep, throwIfActive, outcome);
      Exclusive(p') && (ok <==> ep in p'.connections) && (!ok ==> p' == p)
  {
  }

  lemma {:induction false} ConnectAllExclusive(p: Peering, self: string, eps: seq<string>, outcomes: map<string, nat>)
    requires Exclusive(p)
    ensures Exclusive(ConnectAll(p, self, eps, outcomes))
  {
    if eps != [] {
      var ep := eps[|eps| - 1];
      ConnectAllExclusive(p, self, eps[..|eps| - 1], outcomes);
      var q := ConnectAll(p, self, eps[..|eps| - 1], outcomes);
      var outcome := if ep in outcomes then Some(outcomes[ep]) else None;
      CreateExclusive(q, ep, true, outcome);
      var (q', ok) := CreateOrRetrieve(q, ep, true, outcome);
      if !ok {
        StartExclusive(q', ep, false);
      }
    }
  }

  lemma {:induction false} CleanAllExclusive(p: Peering, eps: seq<string>)
    requires Exclusive(p)
    ensures Exclusive(CleanAll(p, eps))
  {
    if eps != [] {
      CleanAllExclusive(p, eps[..|eps| - 1]);
    }
  }

  lemma EventExclusive(p: Peering, self: string, e: Event)
    requires Exclusive(p)
    ensures Exclusive(Apply(p, self, e))
  {
    match e
    case Handshake(ep, outcome) => CreateExclusive(p, ep, true, outcome);
    case Closed(ep, isDuplicate) => StartExclusive(p.(connections := p.connections - {ep}), ep, true);
    case Retried(ep, _, outcome) => CreateExclusive(p, ep, false, outcome);
    case Synced(active, _, destroyed, outcomes) =>
      ConnectAllExclusive(p, self, active, outcomes);
      CleanAllExclusive(ConnectAll(p, self, active, outcomes), destroyed);
  }

  /** Over every run no endpoint is connected and reconnecting at once. */
  lemma {:induction false} RunExclusive(p: Peering, self: string, es: seq<Event>)
    requires Exclusive(p)
    ensures Exclusive(Run(p, self, es))
    decreases |es|
  {
    if es != [] {
      EventExclusive(p, self, es[0]);
      RunExclusive(Apply(p, self, es[0]), self, es[1..]);
    }
  }

  // ---- how each peer comes out of an event ----

  /** Where this node stands with a peer: nowhere, on a websocket, or with a reconnect manager that runs or is done. */
  datatype Peer = Unknown | Connected(ws: nat) | Reconnecting(manager: nat, running: bool)

  function PeerOf(p: Peering, ep: string): Peer {
    if ep in p.connections then Connected(p.connections[ep])
    else if ep in p.reconnecting then Reconnecting(p.reconnecting[ep], Running(p, p.reconnecting[ep]))
    else Unknown
  }

  /** After a new manager was started: it runs, and is not the one before. */
  predicate Restarted(was: Peer, now: Peer) {
    now.Reconnecting? && now.running && (was.Reconnecting? ==> now.manager != was.manager)
  }

  /** A connection attempt as a sync makes it: a connected peer keeps its websocket and a running manager goes on; a peer
      with neither gets the websocket of the attempt, or a manager if it fails; after a manager that is done comes
      another one. */
  predicate Attempted(was: Peer, outcome: Option<nat>, now: Peer) {
    match was
    case Connected(_) => now == was
    case Reconnecting(_, running) => if running then now == was else Restarted(was, now)
    case Unknown => if outcome.Some? then now == Connected(outcome.value) else Restarted(was, now)
  }

  lemma CancelPeer(p: Peering, ep: string, isSuccess: bool, other: string)
    requires Exclusive(p)
    ensures other != ep ==> PeerOf(Cancel(p, ep, isSuccess), other) == PeerOf(p, other)
    ensures PeerOf(Cancel(p, ep, isSuccess), ep) == if ep in p.connections then PeerOf(p, ep) else Unknown
  {
  }

  lemma StartPeer(p: Peering, ep: string, skipIfActive: bool, other: string)
    requires Exclusive(p) && ep !in p.connections
    ensures var p' := StartReconnecting(p, ep, skipIfActive);
      && (other != ep ==> PeerOf(p', other) == PeerOf(p, other))
      && (if skipIfActive && PeerOf(p, ep).Reconnecting? then PeerOf(p', ep) == PeerOf(p, ep) else Restarted(PeerOf(p, ep), PeerOf(p', ep)))
  {
  }

  /** There is a connection to return if and only if there was one, or the attempt succeeds and none was refused for
      a retry under way. */
  lemma CreatePeer(p: Peering, ep: string, throwIfActive: bool, outcome: Option<nat>, other: string)
    requires Exclusive(p)
    ensures var (p', ok) := CreateOrRetrieve(p, ep, throwIfActive, outcome);
      && (ok <==> PeerOf(p, ep).Connected? || (outcome.Some? && !(throwIfActive && PeerOf(p, ep).Reconnecting?)))
      && (PeerOf(p', ep) == if PeerOf(p, ep).Connected? || !ok then PeerOf(p, ep) else Connected(outcome.value))
      && (other != ep ==> PeerOf(p', other) == PeerOf(p, other))
  {
  }

  lemma ConnectToPeer(p: Peering, self: string, ep: string, outcome: Option<nat>, other: string)
    requires Exclusive(p)
    ensures other != ep || ep == self ==> PeerOf(ConnectTo(p, self, ep, outcome), other) == PeerOf(p, other)
    ensures ep != self ==> Attempted(PeerOf(p, ep), outcome, PeerOf(ConnectTo(p, self, ep, outcome), ep))
  {
    CreatePeer(p, ep, true, outcome, other);
    CreateExclusive(p, ep, true, outcome);
    var (p', ok) := CreateOrRetrieve(p, ep, true, outcome);
    if !ok {
      StartPeer(p', ep, false, other);
    }
  }

  function OutcomeFor(outcomes: map<string, nat>, ep: string): Option<nat> {
    if ep in outcomes then Some(outcomes[ep]) else None
  }

  lemma {:induction false} ConnectAllPeer(p: Peering, self: string, eps: seq<string>, outcomes: map<string, nat>, ep: string)
    requires Exclusive(p)
    ensures var now := PeerOf(ConnectAll(p, self, eps, outcomes), ep);
      if ep in eps && ep != self then Attempted(PeerOf(p, ep), OutcomeFor(outcomes, ep), now) else now == PeerOf(p, ep)
  {
    if eps != [] {
      var front, last := eps[..|eps| - 1], eps[|eps| - 1];
      assert eps == front + [last];
      ConnectAllPeer(p, self, front, outcomes, ep);
      ConnectAllExclusive(p, self, front, outcomes);
      ConnectToPeer(ConnectAll(p, self, front, outcomes), self, last, OutcomeFor(outcomes, last), ep);
    }
  }

  lemma {:induction false} CleanAllPeer(p: Peering, eps: seq<string>, ep: string)
    requires Exclusive(p)
    ensures PeerOf(CleanAll(p, eps), ep) == if ep in eps then Unknown else PeerOf(p, ep)
  {
    if eps != [] {
      var front, last := eps[..|eps| - 1], eps[|eps| - 1];
      assert eps == front + [last];
      CleanAllPeer(p, front, ep);
      CleanAllExclusive(p, front);
      var q := CleanAll(p, front);
      CancelPeer(q.(connections := q.connections - {last}), last, false, ep);
    }
  }

  /** How every peer comes out of a sync: an active one other than this node as after a connection attempt, with its
      websocket if the attempt succeeds; an inactive one unknown. */
  lemma SyncPeers(p: Peering, self: string, active: seq<string>, stored: set<string>, destroyed: seq<string>,
                  outcomes: map<string, nat>, ep: string)
    requires Exclusive(p) && WellFormed(p, Synced(active, stored, destroyed, outcomes))
    ensures var now := PeerOf(Sync(p, self, active, destroyed, outcomes), ep);
      && (ep in active && ep != self ==> Attempted(PeerOf(p, ep), OutcomeFor(outcomes, ep), now))
      && (ep in active && ep == self ==> now == PeerOf(p, ep))
      && (ep !in active ==> now == Unknown)
  {
    ConnectAllPeer(p, self, active, outcomes, ep);
    ConnectAllExclusive(p, self, active, outcomes);
    CleanAllPeer(ConnectAll(p, self, active, outcomes), destroyed, ep);
    assert ep in destroyed <==> ep in SetOf(destroyed);
    assert ep in active <==> ep in SetOf(active);
  }

  /** So after a sync a peer is connected if and only if it is active and was connected already, or is active, was neither
      connected nor being retried, and can be reached; and every other active peer has a running manager. */
  lemma SyncConnectsIff(p: Peering, self: string, active: seq<string>, stored: set<string>, destroyed: seq<string>,
                        outcomes: map<string, nat>, ep: string)
    requires Exclusive(p) && WellFormed(p, Synced(active, stored, destroyed, outcomes)) && ep != self
    ensures var p' := Sync(p, self, active, destroyed, outcomes);
      && (ep in p'.connections <==> ep in active && (ep in p.connections || (ep !in p.reconnecting && ep in outcomes)))
      && (ep in p'.connections ==> p'.connections[ep] == if ep in p.connections then p.connections[ep] else outcomes[ep])
      && (ep in active && ep !in p'.connections ==> ep in p'.reconnecting && Running(p', p'.reconnecting[ep]))
      && (ep in active && ep !in p.connections && ep in p.reconnecting && Running(p, p.reconnecting[ep]) ==>
            ep in p'.reconnecting && p'.reconnecting[ep] == p.reconnecting[ep])
  {
    SyncPeers(p, self, active, stored, destroyed, outcomes, ep);
  }

  // ---- no manager runs on its own ----

  /** Every running manager is the entry of some endpoint. */
  ghost predicate NoOrphans(p: Peering) {
    forall k: nat :: Running(p, k) ==> exists ep :: ep in p.reconnecting && p.reconnecting[ep] == k
  }

  lemma CancelNoOrphans(p: Peering, ep: string, isSuccess: bool)
    requires NoOrphans(p) && (isSuccess ==> ep !in p.reconnecting)
    ensures NoOrphans(Cancel(p, ep, isSuccess))
  {
    var p' := Cancel(p, ep, isSuccess);
    forall k: nat | Running(p', k) ensures exists e :: e in p'.reconnecting && p'.reconnecting[e] == k {
      assert Running(p, k);
      var e :| e in p.reconnecting && p.reconnecting[e] == k;
      assert e in p'.reconnecting && p'.reconnecting[e] == k;
    }
  }

  lemma StartNoOrphans(p: Peering, ep: string, skipIfActive: bool)
    requires NoOrphans(p)
    ensures NoOrphans(StartReconnecting(p, ep, skipIfActive))
  {
    if !(skipIfActive && ep in p.reconnecting) {
      CancelNoOrphans(p, ep, false);
      var p1, p' := Cancel(p, ep, false), StartReconnecting(p, ep, skipIfActive);
      forall k: nat | Running(p', k) ensures exists e :: e in p'.reconnecting && p'.reconnecting[e] == k {
        if k < |p1.finished| {
          assert Running(p1, k);
          var e :| e in p1.reconnecting && p1.reconnecting[e] == k;
          assert e in p'.reconnecting && p'.reconnecting[e] == k;
        } else {
          assert p'.reconnecting[ep] == k;
        }
      }
    }
  }

  /** The tables without some connections, or with other ones. */
  lemma ConnectionsNoOrphans(p: Peering, connections: map<string, nat>)
    requires NoOrphans(p)
    ensures NoOrphans(p.(connections := connections))
  {
    var p' := p.(connections := connections);
    forall k: nat | Running(p', k) ensures exists e :: e in p'.reconnecting && p'.reconnecting[e] == k {
      assert Running(p, k);
    }
  }

  lemma CreateNoOrphans(p: Peering, ep: string, throwIfActive: bool, outcome: Option<nat>)
    requires NoOrphans(p)
    ensures NoOrphans(CreateOrRetrieve(p, ep, throwIfActive, outcome).0)
  {
    CancelNoOrphans(p, ep, false);
    if outcome.Some? {
      var q := Cancel(p, ep, false);
      ConnectionsNoOrphans(q, q.connections[ep := outcome.value]);
    }
  }

  lemma {:induction false} ConnectAllNoOrphans(p: Peering, self: string, eps: seq<string>, outcomes: map<string, nat>)
    requires NoOrphans(p)
    ensures NoOrphans(ConnectAll(p, self, eps, outcomes))
  {
    if eps != [] {
      var ep := eps[|eps| - 1];
      ConnectAllNoOrphans(p, self, eps[..|eps| - 1], outcomes);
      var q := ConnectAll(p, self, eps[..|eps| - 1], outcomes);
      CreateNoOrphans(q, ep, true, OutcomeFor(outcomes, ep));
      StartNoOrphans(CreateOrRetrieve(q, ep, true, OutcomeFor(outcomes, ep)).0, ep, false);
    }
  }

  lemma {:induction false} CleanAllNoOrphans(p: Peering, eps: seq<string>)
    requires NoOrphans(p)
    ensures NoOrphans(CleanAll(p, eps))
  {
    if eps != [] {
      var ep := eps[|eps| - 1];
      CleanAllNoOrphans(p, eps[..|eps| - 1]);
      var q := CleanAll(p, eps[..|eps| - 1]);
      ConnectionsNoOrphans(q, q.connections - {ep});
      CancelNoOrphans(q.(connections := q.connections - {ep}), ep, false);
    }
  }

  lemma RetryNoOrphans(p: Peering, ep: string, manager: nat, outcome: Option<nat>)
    requires Exclusive(p) && NoOrphans(p)
    ensures NoOrphans(RetryDone(p, ep, manager, outcome))
  {
    CreateNoOrphans(p, ep, false, outcome);
    CreateExclusive(p, ep, false, outcome);
    var (p1, ok) := CreateOrRetrieve(p, ep, false, outcome);
    var p' := RetryDone(p, ep, manager, outcome);
    if ok {
      CancelNoOrphans(p1, ep, true);
    } else {
      forall k: nat | Running(p', k) ensures exists e :: e in p'.reconnecting && p'.reconnecting[e] == k {
        assert Running(p, k);
      }
    }
  }

  lemma EventNoOrphans(p: Peering, self: string, e: Event)
    requires Exclusive(p) && NoOrphans(p)
    ensures NoOrphans(Apply(p, self, e))
  {
    match e
    case Handshake(ep, outcome) => CreateNoOrphans(p, ep, true, outcome);
    case Closed(ep, isDuplicate) =>
      ConnectionsNoOrphans(p, p.connections - {ep});
      StartNoOrphans(p.(connections := p.connections - {ep}), ep, true);
    case Retried(ep, manager, outcome) => RetryNoOrphans(p, ep, manager, outcome);
    case Synced(active, _, destroyed, outcomes) =>
      ConnectAllNoOrphans(p, self, active, outcomes);
      CleanAllNoOrphans(ConnectAll(p, self, active, outcomes), destroyed);
  }

  /** Over every run a reconnect manager that is not finished is the current one of exactly one endpoint: no retries go on
      for a peer that is connected, cleaned, or being retried by another manager. */
  lemma {:induction false} RunNoOrphans(p: Peering, self: string, es: seq<Event>, k: nat)
    requires Exclusive(p) && NoOrphans(p)
    ensures NoOrphans(Run(p, self, es))
    ensures Running(Run(p, self, es), k) ==>
      exists ep :: PeerOf(Run(p, self, es), ep) == Reconnecting(k, true)
    decreases |es|
  {
    if es != [] {
      EventNoOrphans(p, self, es[0]);
      EventExclusive(p, self, es[0]);
      RunNoOrphans(Apply(p, self, es[0]), self, es[1..], k);
    } else if Running(p, k) {
      var ep :| ep in p.reconnecting && p.reconnecting[ep] == k;
      assert PeerOf(p, ep) == Reconnecting(k, true);
    }
  }

  // ---- what a sync does to the registry ----

  function ClearAll(r: Registry, eps: seq<string>): Registry {
    if eps == [] then r else ClearNode(ClearAll(r, eps[..|eps| - 1]), eps[|eps| - 1])
  }

  function StoredNodes(r: Registry): set<string> {
    set p | p in r.nodeUsers :: p.0
  }

  /** Clearing several nodes takes the entries they own, and only those. */
  lemma {:induction false} ClearAllExact(r: Registry, eps: seq<string>, orgOf: string -> string)
    requires Inv(r, orgOf) && forall n :: n in eps ==> ColonFreeOn(r, n)
    ensures Inv(ClearAll(r, eps), orgOf)
    ensures forall u, d :: ClearAll(r, eps).NodeOf(u, d) ==
              if r.NodeOf(u, d).Some? && r.NodeOf(u, d).value in eps then None else r.NodeOf(u, d)
  {
    if eps != [] {
      var front, ep := eps[..|eps| - 1], eps[|eps| - 1];
      assert eps == front + [ep];
      ClearAllExact(r, front, orgOf);
      assert ColonFreeOn(r, ep) && ColonFreeOn(ClearAll(r, front), ep);
      ClearNodeExact(ClearAll(r, front), ep, orgOf);
    }
  }

  /** Whatever the device ids, clearing several nodes takes exactly the entries that one of their members reads as. */
  lemma {:induction false} ClearAllReads(r: Registry, eps: seq<string>, m: string, u: string, e: string)
    ensures ClearAll(r, eps).NodeOf(u, e) == if exists n :: n in eps && ReadsAs(r, n, u, e) then None else r.NodeOf(u, e)
    ensures ReadsAs(ClearAll(r, eps), m, u, e) <==> m !in eps && ReadsAs(r, m, u, e)
  {
    if eps != [] {
      var front, ep := eps[..|eps| - 1], eps[|eps| - 1];
      assert eps == front + [ep];
      ClearAllReads(r, front, m, u, e);
      ClearAllReads(r, front, ep, u, e);
      ClearNodeReads(ClearAll(r, front), ep, m, u, e);
    }
  }

  /** Whatever the device ids: a sync takes an entry if and only if a node it cleans has a device of the same user
      whose id, cut at its first colon, is the entry's device. */
  lemma SyncTakes(r: Registry, destroyed: seq<string>, orgOf: string -> string, u: string, e: string)
    requires Inv(r, orgOf)
    ensures ClearAll(r, destroyed).NodeOf(u, e) ==
            if exists n :: n in destroyed && CutOnNode(r, n, u, e) then None else r.NodeOf(u, e)
  {
    ClearAllReads(r, destroyed, "", u, e);
    forall n ensures ReadsAs(r, n, u, e) <==> CutOnNode(r, n, u, e) {
      ClearNodeTakes(r, n, orgOf, orgOf(u), u, e);
    }
  }

  /** After a sync every device in the registry is owned by an active node, and the devices of active nodes
      are the ones they were before. */
  lemma SyncOwners(p: Peering, r: Registry, active: seq<string>, destroyed: seq<string>, orgOf: string -> string,
                   u: string, d: string)
    requires Inv(r, orgOf) && forall n :: n in destroyed ==> ColonFreeOn(r, n)
    requires SetOf(destroyed) == Destroyed(p, SetOf(active), StoredNodes(r))
    ensures var r' := ClearAll(r, destroyed);
      && Inv(r', orgOf)
      && r'.NodeOf(u, d) == (if r.NodeOf(u, d).Some? && r.NodeOf(u, d).value !in active then None else r.NodeOf(u, d))
  {
    ClearAllExact(r, destroyed, orgOf);
    if r.NodeOf(u, d).Some? {
      var n := r.NodeOf(u, d).value;
      assert (orgOf(u), u, d) in r.userDevices;
      assert Enlisted(r, n, orgOf(u), u, d) && n in StoredNodes(r);
      assert n in destroyed <==> n in SetOf(destroyed);
    }
  }

  // ---- which users a sync reports offline ----

  /** For each node cleaned, the order in which Redis lists its members at that moment. */
  ghost predicate Orders(r: Registry, eps: seq<string>, orders: seq<seq<string>>) {
    && |orders| == |eps|
    && (eps != [] ==>
          && Orders(r, eps[..|eps| - 1], orders[..|eps| - 1])
          && Distinct(orders[|eps| - 1])
          && SetOf(orders[|eps| - 1]) == ClearAll(r, eps[..|eps| - 1]).Members(eps[|eps| - 1]))
  }

  /** What the cleanups of a sync report, one after the other. */
  ghost function SyncReports(r: Registry, eps: seq<string>, orders: seq<seq<string>>): seq<(string, string, string)>
    requires |orders| == |eps|
  {
    if eps == [] then []
    else SyncReports(r, eps[..|eps| - 1], orders[..|eps| - 1])
         + Reported(ClearAll(r, eps[..|eps| - 1]).userDevices, ParseAll(orders[|eps| - 1]))
  }

  lemma {:induction false} TimesConcat(a: seq<(string, string, string)>, b: seq<(string, string, string)>, o: string,
                                       u: string)
    ensures TimesReported(a + b, o, u) == TimesReported(a, o, u) + TimesReported(b, o, u)
  {
    if b == [] {
      assert a + b == a;
    } else {
      assert (a + b)[..|a + b| - 1] == a + b[..|b| - 1];
      TimesConcat(a, b[..|b| - 1], o, u);
    }
  }

  /** The user has a device left. */
  ghost predicate HasDevice(r: Registry, u: string) {
    exists d :: r.NodeOf(u, d).Some?
  }

  /** The user has a device on one of the nodes. */
  ghost predicate HasDeviceOn(r: Registry, eps: seq<string>, u: string) {
    exists d :: r.NodeOf(u, d).Some? && r.NodeOf(u, d).value in eps
  }

  /** How often one cleanup reports a user, in terms of owners. */
  lemma ReportsByOwner(r: Registry, n: string, order: seq<string>, orgOf: string -> string, o: string, u: string)
    requires Inv(r, orgOf) && ColonFreeOn(r, n) && Distinct(order) && SetOf(order) == r.Members(n)
    ensures TimesReported(Reported(r.userDevices, ParseAll(order)), o, u) ==
            if o == orgOf(u) && HasDeviceOn(r, [n], u) && !HasDevice(ClearNode(r, n), u) then 1 else 0
  {
    forall m ensures m in order <==> m in r.Members(n) {
      assert m in order <==> m in SetOf(order);
    }
    CleanupReports(r, n, order, orgOf, o, u);
    ClearNodeExact(r, n, orgOf);
    ListedIff(r, orgOf, o, u);
    ListedIff(ClearNode(r, n), orgOf, o, u);
    assert (exists d :: (o, u, d) in r.userDevices && r.NodeOf(u, d) == Some(n)) <==> o == orgOf(u) && HasDeviceOn(r, [n], u);
    assert (forall d :: (o, u, d) !in ClearNode(r, n).userDevices) <==> o != orgOf(u) || !HasDevice(ClearNode(r, n), u);
  }

  lemma ListedIff(r: Registry, orgOf: string -> string, o: string, u: string)
    requires Listing(r, orgOf)
    ensures forall d :: (o, u, d) in r.userDevices <==> o == orgOf(u) && r.NodeOf(u, d).Some?
  {
  }

  /** Over one whole sync, in whatever order it cleans nodes and Redis lists their members: a user whose devices were
      on nodes it cleans, one or several, and who has none left, is reported exactly once in all; nobody else is. */
  lemma {:induction false} SyncReportsOnce(r: Registry, eps: seq<string>, orders: seq<seq<string>>,
                                           orgOf: string -> string, o: string, u: string)
    requires Inv(r, orgOf) && (forall n :: n in eps ==> ColonFreeOn(r, n)) && Orders(r, eps, orders)
    ensures TimesReported(SyncReports(r, eps, orders), o, u) ==
            if o == orgOf(u) && HasDeviceOn(r, eps, u) && !HasDevice(ClearAll(r, eps), u) then 1 else 0
  {
    if eps != [] {
      var front, ep := eps[..|eps| - 1], eps[|eps| - 1];
      assert eps == front + [ep];
      SyncReportsOnce(r, front, orders[..|eps| - 1], orgOf, o, u);
      ClearAllExact(r, front, orgOf);
      ClearAllExact(r, eps, orgOf);
      var r1 := ClearAll(r, front);
      assert ColonFreeOn(r, ep) && ColonFreeOn(r1, ep);
      ReportsByOwner(r1, ep, orders[|eps| - 1], orgOf, o, u);
      TimesConcat(SyncReports(r, front, orders[..|eps| - 1]), Reported(r1.userDevices, ParseAll(orders[|eps| - 1])), o, u);
      OwnersOneByOne(r, front, ep, orgOf, u);
    }
  }

  lemma OwnersOneByOne(r: Registry, front: seq<string>, ep: string, orgOf: string -> string, u: string)
    requires Inv(r, orgOf) && forall n :: n in front + [ep] ==> ColonFreeOn(r, n)
    ensures var r1, r2 := ClearAll(r, front), ClearAll(r, front + [ep]);
      && (HasDevice(r2, u) ==> HasDevice(r1, u))
      && (HasDevice(r1, u) && !HasDevice(r2, u) ==> HasDeviceOn(r1, [ep], u))
      && (HasDeviceOn(r1, [ep], u) ==> HasDevice(r1, u) && HasDeviceOn(r, front + [ep], u))
      && (HasDeviceOn(r, front + [ep], u) && !HasDevice(r1, u) ==> HasDeviceOn(r, front, u))
      && (HasDeviceOn(r, front, u) ==> HasDeviceOn(r, front + [ep], u))
  {
    ClearAllExact(r, front, orgOf);
    ClearAllExact(r, front + [ep], orgOf);
    var r1, r2 := ClearAll(r, front), ClearAll(r, front + [ep]);
    if HasDevice(r1, u) && !HasDevice(r2, u) {
      var d :| r1.NodeOf(u, d).Some?;
      assert r2.NodeOf(u, d) == None;
    }
    if HasDeviceOn(r, front + [ep], u) && !HasDevice(r1, u) {
      var d :| r.NodeOf(u, d).Some? && r.NodeOf(u, d).value in front + [ep];
      assert r1.NodeOf(u, d) == None;
    }
  }

  // ---- the manager itself ----

  class ClusterManager {
    const endpoint: string
    const sessionService: SessionService
    var connections: map<string, nat>
    var reconnecting: map<string, nat>
    var finished: seq<bool>

    constructor (endpoint: string, sessionService: SessionService)
      ensures this.endpoint == endpoint && this.sessionService == sessionService
      ensures View() == Peers(map[], map[], [])
    {
      this.endpoint, this.sessionService := endpoint, sessionService;
      connections, reconnecting, finished := map[], map[], [];
    }

    ghost function View(): Peers
      reads this
    {
      Peers(connections, reconnecting, finished)
    }

    method CancelNodeReconnecting(ep: string, isSuccess: bool)
      requires View().Valid()
      modifies this
      ensures View() == Cancel(old(View()), ep, isSuccess)
      ensures ep !in reconnecting && forall e :: e != ep ==> (e in View().Tracked() <==> e in old(View()).Tracked())
      ensures !isSuccess && ep in old(reconnecting) ==> !Running(View(), old(reconnecting)[ep])
      ensures isSuccess ==> finished == old(finished)
      ensures Exclusive(old(View())) ==> Exclusive(View())
    {
      if !isSuccess && ep in reconnecting {
        finished := finished[reconnecting[ep] := true];
      }
      reconnecting := reconnecting - {ep};
    }

    method StartNodeReconnecting(ep: string, skipIfActive: bool)
      requires View().Valid()
      modifies this
      ensures View() == StartReconnecting(old(View()), ep, skipIfActive)
      ensures ep in reconnecting && View().Tracked() == old(View()).Tracked() + {ep}
      ensures if skipIfActive && ep in old(reconnecting) then View() == old(View())
              else Running(View(), reconnecting[ep]) && (ep in old(reconnecting) ==> !Running(View(), old(reconnecting)[ep]))
      ensures Exclusive(old(View())) && ep !in connections ==> Exclusive(View())
    {
      if skipIfActive && ep in reconnecting {
        return;
      }
      CancelNodeReconnecting(ep, false);
      reconnecting := reconnecting[ep := |finished|];
      finished := finished + [false];
    }

    method CreateOrRetrieveConnectionWithNode(ep: string, throwIfActive: bool, outcome: Option<nat>) returns (ok: bool)
      requires View().Valid()
      modifies this
      ensures (View(), ok) == CreateOrRetrieve(old(View()), ep, throwIfActive, outcome)
      ensures ok <==> ep in connections
      ensures ok <==> ep in old(connections) || (outcome.Some? && !(throwIfActive && ep in old(reconnecting)))
      ensures ok ==> connections[ep] == if ep in old(connections) then old(connections)[ep] else outcome.value
      ensures !ok ==> View() == old(View())
      ensures old(View()).Tracked() <= View().Tracked() <= old(View()).Tracked() + {ep}
      ensures Exclusive(old(View())) ==> Exclusive(View())
    {
      if ep in connections {
        return true;
      }
      if throwIfActive && ep in reconnecting {
        return false;
      }
      if outcome == None {
        return false;
      }
      CancelNodeReconnecting(ep, false);
      connections := connections[ep := outcome.value];
      ok := true;
    }

    /** A manager's queue has ended, with a connection or without. */
    method FinishNodeReconnecting(ep: string, manager: nat, outcome: Option<nat>)
      requires View().Valid()
      modifies this
      ensures View() == RetryDone(old(View()), ep, manager, outcome)
      ensures old(View()).Tracked() <= View().Tracked() <= old(View()).Tracked() + {ep}
      ensures ep in connections <==> ep in old(connections) || outcome.Some?
      ensures ep in connections ==> connections[ep] == if ep in old(connections) then old(connections)[ep] else outcome.value
      ensures if ep in connections then ep !in reconnecting else reconnecting == old(reconnecting) && !Running(View(), manager)
      ensures Exclusive(old(View())) ==> Exclusive(View())
    {
      var ok := CreateOrRetrieveConnectionWithNode(ep, false, outcome);
      if ok {
        CancelNodeReconnecting(ep, true);
      } else if manager < |finished| {
        finished := finished[manager := true];
      }
    }

    method OnCloseNode(ep: string, isDuplicate: bool)
      requires View().Valid()
      modifies this
      ensures View() == CloseNode(old(View()), ep, isDuplicate)
      ensures isDuplicate ==> View() == old(View())
      ensures !isDuplicate ==> ep !in connections && ep in reconnecting && View().Tracked() == old(View()).Tracked() + {ep}
      ensures !isDuplicate ==> if ep in old(reconnecting) then reconnecting == old(reconnecting) && finished == old(finished)
                               else Running(View(), reconnecting[ep])
      ensures Exclusive(old(View())) ==> Exclusive(View())
    {
      if isDuplicate {
        return;
      }
      connections := connections - {ep};
      StartNodeReconnecting(ep, true);
    }

    /** Forgets the peer, removes its devices from the registry and returns the users to announce as offline. */
    method CleanDestroyedNodeData(ep: string)
      returns (lastSessions: Option<seq<(string, string, string)>>, ghost order: seq<string>)
      requires View().Valid() && !sessionService.isStandAlone
      modifies this, sessionService.redis
      ensures View() == Clean(old(View()), ep)
      ensures ep !in View().Tracked() && (ep in old(reconnecting) ==> !Running(View(), old(reconnecting)[ep]))
      ensures sessionService.redis.state == ClearNode(old(sessionService.redis.state), ep)
      ensures Distinct(order) && SetOf(order) == old(sessionService.redis.state).Members(ep)
      ensures lastSessions == Some(Reported(old(sessionService.redis.state).userDevices, ParseAll(order)))
    {
      connections := connections - {ep};
      CancelNodeReconnecting(ep, false);
      lastSessions, order := sessionService.ClearNodeUsersSession(ep);
      assert SetOf(order) == old(sessionService.redis.state).Members(ep);
    }

    /** A connection attempt to every live peer that is neither this node nor being retried. */
    method ConnectToActiveNodes(active: seq<string>, outcomes: map<string, nat>)
      requires View().Valid()
      modifies this
      ensures View() == ConnectAll(old(View()), endpoint, active, outcomes)
    {
      for i := 0 to |active|
        invariant View() == ConnectAll(old(View()), endpoint, active[..i], outcomes)
      {
        assert active[..i + 1][..i] == active[..i];
        var ep := active[i];
        if ep == endpoint || (ep in reconnecting && !finished[reconnecting[ep]]) {
          continue;
        }
        var outcome := if ep in outcomes then Some(outcomes[ep]) else None;
        var ok := CreateOrRetrieveConnectionWithNode(ep, true, outcome);
        if !ok {
          StartNodeReconnecting(ep, false);
        }
      }
      assert active[..|active|] == active;
    }

    /** Cleans the given nodes one after the other and returns all users to announce as offline. */
    method CleanDestroyedNodes(destroyed: seq<string>)
      returns (reported: seq<(string, string, string)>, ghost orders: seq<seq<string>>)
      requires View().Valid() && !sessionService.isStandAlone
      modifies this, sessionService.redis
      ensures View() == CleanAll(old(View()), destroyed)
      ensures sessionService.redis.state == ClearAll(old(sessionService.redis.state), destroyed)
      ensures Orders(old(sessionService.redis.state), destroyed, orders)
      ensures reported == SyncReports(old(sessionService.redis.state), destroyed, orders)
    {
      ghost var r := sessionService.redis.state;
      reported, orders := [], [];
      for i := 0 to |destroyed|
        invariant View() == CleanAll(old(View()), destroyed[..i])
        invariant sessionService.redis.state == ClearAll(r, destroyed[..i])
        invariant Orders(r, destroyed[..i], orders) && reported == SyncReports(r, destroyed[..i], orders)
      {
        assert destroyed[..i + 1][..i] == destroyed[..i];
        var lastSessions;
        ghost var order;
        lastSessions, order := CleanDestroyedNodeData(destroyed[i]);
        reported := reported + lastSessions.value;
        assert (orders + [order])[..i] == orders;
        orders := orders + [order];
      }
      assert destroyed[..|destroyed|] == destroyed;
    }

    /** The sync after the node has refreshed its own entry: `active` are the live endpoints as read. Returns
        the nodes it cleaned, in the order it cleaned them, and the users it announces as offline. */
    method ConnectToExistingClusterNodes(active: seq<string>, outcomes: map<string, nat>)
      returns (destroyed: seq<string>, reported: seq<(string, string, string)>, ghost orders: seq<seq<string>>)
      requires View().Valid() && !sessionService.isStandAlone
      modifies this, sessionService.redis
      ensures SetOf(destroyed) == Destroyed(old(View()), SetOf(active), StoredNodes(old(sessionService.redis.state)))
      ensures View() == Sync(old(View()), endpoint, active, destroyed, outcomes)
      ensures sessionService.redis.state == ClearAll(old(sessionService.redis.state), destroyed)
      ensures Orders(old(sessionService.redis.state), destroyed, orders)
      ensures reported == SyncReports(old(sessionService.redis.state), destroyed, orders)
    {
      var stored := set p | p in sessionService.redis.state.nodeUsers :: p.0;
      var dead := (set n | n in stored && n !in active)
                + (set n | n in reconnecting && n !in active)
                + (set n | n in connections && n !in active);
      ConnectToActiveNodes(active, outcomes);
      destroyed := SMembers(dead);
      reported, orders := CleanDestroyedNodes(destroyed);
    }
  }
}
