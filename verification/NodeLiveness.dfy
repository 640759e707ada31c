/** `ClusterNodeService`: a node's entry expires unless it is refreshed; the time to live is longer than the
    refresh interval. Times are in milliseconds. */
module NodeLiveness {
  import opened Text
  import opened SessionRegistry
  import opened ClusterSessions
  import opened ClusterAgreement
  import ClusterPeers
  import opened Delivery

  /** `Math.round(nodeExpiresIn / 1000) + 5`, in seconds; `Math.round` rounds halves up. */
  function ExpireSeconds(interval: real): int {
    (interval / 1000.0 + 0.5).Floor + 5
  }

  function TimeToLive(interval: real): real {
    ExpireSeconds(interval) as real * 1000.0
  }

  /** The refresh that an expiry check at time t sees: the last one not after t. */
  predicate LastRefresh(refreshes: seq<real>, k: nat, t: real) {
    k < |refreshes| && refreshes[k] <= t && (k + 1 < |refreshes| ==> t < refreshes[k + 1])
  }

  /** The entry exists at time t: its last refresh has not expired. */
  ghost predicate ActiveAt(refreshes: seq<real>, interval: real, t: real) {
    exists k: nat :: LastRefresh(refreshes, k, t) && t < refreshes[k] + TimeToLive(interval)
  }

  /** The last refresh before time t is at most `interval` plus 4.5 seconds old. */
  ghost predicate Refreshed(refreshes: seq<real>, interval: real, t: real) {
    exists k: nat :: LastRefresh(refreshes, k, t) && t <= refreshes[k] + interval + 4500.0
  }

  /** Every refresh comes at most `interval + delay` after the one before it. */
  predicate Punctual(refreshes: seq<real>, interval: real, delay: real) {
    forall k :: 0 <= k < |refreshes| - 1 ==> refreshes[k] <= refreshes[k + 1] <= refreshes[k] + interval + delay
  }

  /** The time to live exceeds every interval by more than 4.5 seconds, and by at most 5.5. */
  lemma Margin(interval: real)
    ensures interval + 4500.0 < TimeToLive(interval) <= interval + 5500.0
  {
    var x := interval / 1000.0 + 0.5;
    assert x - 1.0 < x.Floor as real <= x;
  }

  lemma {:induction false} FindLastRefresh(refreshes: seq<real>, t: real) returns (k: nat)
    requires refreshes != [] && refreshes[0] <= t
    ensures LastRefresh(refreshes, k, t)
  {
    k := 0;
    while k + 1 < |refreshes| && refreshes[k + 1] <= t
      invariant k < |refreshes| && refreshes[k] <= t
    {
      k := k + 1;
    }
  }

  /** A node is active whenever its last refresh is at most `interval` plus 4.5 seconds old. */
  lemma RefreshedActive(refreshes: seq<real>, interval: real, t: real)
    requires Refreshed(refreshes, interval, t)
    ensures ActiveAt(refreshes, interval, t)
  {
    Margin(interval);
  }

  /** So a node whose refreshes are at most 4.5 seconds late is active from its first refresh until the next one is
      overdue. */
  lemma StaysActive(refreshes: seq<real>, interval: real, t: real)
    requires refreshes != [] && Punctual(refreshes, interval, 4500.0)
    requires refreshes[0] <= t <= refreshes[|refreshes| - 1] + interval + 4500.0
    ensures Refreshed(refreshes, interval, t) && ActiveAt(refreshes, interval, t)
  {
    var k := FindLastRefresh(refreshes, t);
    if k + 1 < |refreshes| {
      assert t < refreshes[k + 1] <= refreshes[k] + interval + 4500.0;
    }
    RefreshedActive(refreshes, interval, t);
  }

  /** The active set as `retrieveActive` reads it at time t. */
  ghost predicate ReadActive(active: set<string>, clocks: map<string, seq<real>>, interval: real, t: real) {
    forall m :: m in active <==> m in clocks && ActiveAt(clocks[m], interval, t)
  }

  /** No sync of any node ever counts such a node as destroyed, whatever it has stored or tracks. */
  lemma NeverDestroyed(p: ClusterPeers.Peering, clocks: map<string, seq<real>>, interval: real, t: real,
                       active: set<string>, stored: set<string>, n: string)
    requires n in clocks && Refreshed(clocks[n], interval, t) && ReadActive(active, clocks, interval, t)
    ensures n !in ClusterPeers.Destroyed(p, active, stored)
  {
    RefreshedActive(clocks[n], interval, t);
  }

  /** And a sync of any node keeps a device of it in the registry, whatever the ids, if and only if no node the
      sync cleans has a device of the same user whose id, cut at its first colon, is that device's. */
  lemma DevicesKeptIff(r: Registry, destroyed: seq<string>, n: string, u: string, d: string, orgOf: string -> string)
    requires Inv(r, orgOf) && r.NodeOf(u, d) == Some(n)
    ensures ClusterPeers.ClearAll(r, destroyed).NodeOf(u, d) == Some(n) <==>
            !exists m :: m in destroyed && CutOnNode(r, m, u, d)
  {
    ClusterPeers.SyncTakes(r, destroyed, orgOf, u, d);
  }

  /** With colon-free ids on the nodes it cleans, always. */
  lemma DevicesKept(p: ClusterPeers.Peering, r: Registry, clocks: map<string, seq<real>>, interval: real, t: real,
                    active: seq<string>, destroyed: seq<string>, n: string, u: string, d: string, orgOf: string -> string)
    requires n in clocks && Refreshed(clocks[n], interval, t) && ReadActive(SetOf(active), clocks, interval, t)
    requires Inv(r, orgOf) && forall m :: m in destroyed ==> ColonFreeOn(r, m)
    requires SetOf(destroyed) == ClusterPeers.Destroyed(p, SetOf(active), ClusterPeers.StoredNodes(r))
    requires r.NodeOf(u, d) == Some(n)
    ensures ClusterPeers.ClearAll(r, destroyed).NodeOf(u, d) == Some(n)
  {
    RefreshedActive(clocks[n], interval, t);
    assert n in SetOf(active);
    ClusterPeers.SyncOwners(p, r, active, destroyed, orgOf, u, d);
  }

  // ---- syncs within the runs of a cluster ----

  /** The node is cleaned by some peer's sync that reads the active set at time t. */
  ghost predicate BySync(clocks: map<string, seq<real>>, interval: real, t: real, n: string) {
    exists p: ClusterPeers.Peering, active: set<string>, stored: set<string> ::
      n in ClusterPeers.Destroyed(p, active, stored) && ReadActive(active, clocks, interval, t)
  }

  /** Step k happens at time times[k], and times do not go back. A node is cleaned only by a sync, and a node that is
      up then has refreshed its entry recently; a node that is down need not have. */
  ghost predicate Punctually(sys: System, es: seq<Step>, times: seq<real>, clocks: map<string, seq<real>>,
                             interval: real, orgOf: string -> string)
    requires |es| == |times|
    decreases |es|
  {
    es != [] ==>
      && (|es| > 1 ==> times[0] <= times[1])
      && (forall n :: n in sys.locals ==> n in clocks && Refreshed(clocks[n], interval, times[0]))
      && (es[0].CleanNode? ==> BySync(clocks, interval, times[0], es[0].n))
      && Punctually(Apply(sys, es[0], orgOf), es[1..], times[1..], clocks, interval, orgOf)
  }

  /** Every step other than a cleanup is harmless when taken. */
  ghost predicate HarmlessOtherwise(sys: System, es: seq<Step>, orgOf: string -> string)
    decreases |es|
  {
    es != [] ==> (es[0].CleanNode? || Harmless(sys, es[0])) && HarmlessOtherwise(Apply(sys, es[0], orgOf), es[1..], orgOf)
  }

  /** The cleanup of a node that is down and had only colon-free device ids takes nothing from a live node. */
  lemma DeadCleanHarmless(sys: System, n: string)
    requires n !in sys.locals && ColonFreeOn(sys.registry, n)
    ensures Harmless(sys, CleanNode(n))
  {
    forall m, u, d | m in sys.locals && sys.registry.NodeOf(u, d) == Some(m) ensures !CutOnNode(sys.registry, n, u, d) {
      if CutOnNode(sys.registry, n, u, d) {
        var d' :| sys.registry.NodeOf(u, d') == Some(n) && d == Split(d', ':')[0];
        SplitWhole(d', ':');
      }
    }
  }

  /** When live nodes refresh punctually, no sync cleans a live node, so every cleanup is harmless. */
  lemma {:induction false} SyncsAreHarmless(sys: System, es: seq<Step>, times: seq<real>, clocks: map<string, seq<real>>,
                                            interval: real, orgOf: string -> string)
    requires |es| == |times| && Punctually(sys, es, times, clocks, interval, orgOf) && ParsesThroughout(sys, es, orgOf)
    ensures HarmlessRun(sys, es, orgOf) <==> HarmlessOtherwise(sys, es, orgOf)
    decreases |es|
  {
    if es != [] {
      if es[0].CleanNode? {
        CleanedIsDown(sys, clocks, interval, times[0], es[0].n);
        DeadCleanHarmless(sys, es[0].n);
      }
      SyncsAreHarmless(Apply(sys, es[0], orgOf), es[1..], times[1..], clocks, interval, orgOf);
    }
  }

  lemma CleanedIsDown(sys: System, clocks: map<string, seq<real>>, interval: real, t: real, n: string)
    requires n in sys.locals ==> n in clocks && Refreshed(clocks[n], interval, t)
    requires BySync(clocks, interval, t, n)
    ensures n !in sys.locals
  {
    var p: ClusterPeers.Peering, active: set<string>, stored: set<string> :|
      n in ClusterPeers.Destroyed(p, active, stored) && ReadActive(active, clocks, interval, t);
    if n in sys.locals {
      NeverDestroyed(p, clocks, interval, t, active, stored, n);
    }
  }

  /** So exactly-once delivery holds in such runs, with any number of syncs, crashes and restarts in them. */
  lemma ExactlyOnceWithSyncs(es: seq<Step>, times: seq<real>, clocks: map<string, seq<real>>, interval: real,
                             q: Request, sent: seq<Copy>, orgOf: string -> string, n: string, u: string, d: string)
    requires |es| == |times| && Punctually(START, es, times, clocks, interval, orgOf) && ParsesThroughout(START, es, orgOf)
    requires (forall e :: e in es ==> Legal(e, orgOf)) && HarmlessOtherwise(START, es, orgOf)
    requires q.here in Run(START, es, orgOf).locals && Delivered(Run(START, es, orgOf), q, sent)
    requires !q.isStandAlone && q.org == orgOf(u) && forall m :: Settled(Run(START, es, orgOf), m, u, d)
    ensures Reaches(sent, n, u, d) <==> Due(Run(START, es, orgOf), q, n, u, d)
    ensures OneCopy(sent, u, d)
  {
    SyncsAreHarmless(START, es, times, clocks, interval, orgOf);
    ExactlyOnceInRuns(es, q, sent, orgOf, n, u, d);
  }

  // ---- a node that goes down, is cleaned and comes back ----

  /** Up at time 0, down, cleaned when its entry has expired, and up again when twice that time has passed. */
  function Comeback(n: string, u: string): seq<Step> {
    [Boot(n), ListActual(n, u), Crash(n), CleanNode(n), Boot(n), ListActual(n, u)]
  }

  function ComebackTimes(ttl: real): seq<real> {
    [0.0, 0.0, 0.0, ttl, 2.0 * ttl, 2.0 * ttl]
  }

  lemma PunctualFirst(sys: System, e: Step, es: seq<Step>, t: real, times: seq<real>, clocks: map<string, seq<real>>,
                      interval: real, orgOf: string -> string)
    requires |es| == |times| && (es != [] ==> t <= times[0])
    requires forall n :: n in sys.locals ==> n in clocks && Refreshed(clocks[n], interval, t)
    requires e.CleanNode? ==> BySync(clocks, interval, t, e.n)
    requires Punctually(Apply(sys, e, orgOf), es, times, clocks, interval, orgOf)
    ensures Punctually(sys, [e] + es, [t] + times, clocks, interval, orgOf)
  {
    assert ([e] + es)[1..] == es && ([t] + times)[1..] == times;
  }

  /** Up at time t and asked for a user's devices. */
  lemma UpAndAsked(sys: System, n: string, u: string, rest: seq<Step>, t: real, times: seq<real>, clocks: map<string, seq<real>>,
                   interval: real, orgOf: string -> string)
    requires sys.locals == map[] && n in clocks && Refreshed(clocks[n], interval, t)
    requires |rest| == |times| && (rest != [] ==> t <= times[0])
    requires var up := Apply(Apply(sys, Boot(n), orgOf), ListActual(n, u), orgOf); Punctually(up, rest, times, clocks, interval, orgOf)
    ensures Punctually(sys, [Boot(n)] + ([ListActual(n, u)] + rest), [t] + ([t] + times), clocks, interval, orgOf)
  {
    var up := Apply(sys, Boot(n), orgOf);
    PunctualFirst(up, ListActual(n, u), rest, t, times, clocks, interval, orgOf);
    PunctualFirst(sys, Boot(n), [ListActual(n, u)] + rest, t, [t] + times, clocks, interval, orgOf);
  }

  lemma DownAndBack(up: System, n: string, u: string, ttl: real, clocks: map<string, seq<real>>, interval: real,
                    orgOf: string -> string)
    requires up.locals.Keys == {n} && n in clocks && ttl > 0.0
    requires Refreshed(clocks[n], interval, 0.0) && Refreshed(clocks[n], interval, 2.0 * ttl) && BySync(clocks, interval, ttl, n)
    ensures Punctually(up, [Crash(n), CleanNode(n), Boot(n), ListActual(n, u)], [0.0, ttl, 2.0 * ttl, 2.0 * ttl], clocks, interval, orgOf)
  {
    var down := Apply(up, Crash(n), orgOf);
    assert down.locals == map[];
    UpAndAsked(Apply(down, CleanNode(n), orgOf), n, u, [], 2.0 * ttl, [], clocks, interval, orgOf);
    var back, times := [Boot(n)] + ([ListActual(n, u)] + []), [2.0 * ttl] + ([2.0 * ttl] + []);
    PunctualFirst(down, CleanNode(n), back, ttl, times, clocks, interval, orgOf);
    PunctualFirst(up, Crash(n), [CleanNode(n)] + back, 0.0, [ttl] + times, clocks, interval, orgOf);
    assert [Crash(n)] + ([CleanNode(n)] + back) == [Crash(n), CleanNode(n), Boot(n), ListActual(n, u)];
    assert [0.0] + ([ttl] + times) == [0.0, ttl, 2.0 * ttl, 2.0 * ttl];
  }

  /** Such a run is one of those above. */
  lemma ComebackIsPunctual(n: string, u: string, interval: real, orgOf: string -> string)
    requires interval >= 0.0
    ensures var ttl := TimeToLive(interval);
      Punctually(START, Comeback(n, u), ComebackTimes(ttl), map[n := [0.0, 2.0 * ttl]], interval, orgOf)
  {
    var ttl := TimeToLive(interval);
    var clocks := map[n := [0.0, 2.0 * ttl]];
    Margin(interval);
    assert LastRefresh(clocks[n], 0, 0.0) && LastRefresh(clocks[n], 1, 2.0 * ttl);
    ExpiredIsCleaned(n, interval);
    ComebackWith(n, u, ttl, clocks, interval, orgOf);
  }

  lemma ComebackWith(n: string, u: string, ttl: real, clocks: map<string, seq<real>>, interval: real,
                     orgOf: string -> string)
    requires n in clocks && ttl > 0.0
    requires Refreshed(clocks[n], interval, 0.0) && Refreshed(clocks[n], interval, 2.0 * ttl) && BySync(clocks, interval, ttl, n)
    ensures Punctually(START, Comeback(n, u), ComebackTimes(ttl), clocks, interval, orgOf)
  {
    var up := Apply(Apply(START, Boot(n), orgOf), ListActual(n, u), orgOf);
    DownAndBack(up, n, u, ttl, clocks, interval, orgOf);
    var rest, times := [Crash(n), CleanNode(n), Boot(n), ListActual(n, u)], [0.0, ttl, 2.0 * ttl, 2.0 * ttl];
    UpAndAsked(START, n, u, rest, 0.0, times, clocks, interval, orgOf);
    assert [Boot(n)] + ([ListActual(n, u)] + rest) == Comeback(n, u);
    assert [0.0] + ([0.0] + times) == ComebackTimes(ttl);
  }

  lemma ExpiredIsCleaned(n: string, interval: real)
    requires interval >= 0.0
    ensures BySync(map[n := [0.0, 2.0 * TimeToLive(interval)]], interval, TimeToLive(interval), n)
  {
    var ttl := TimeToLive(interval);
    var clocks := map[n := [0.0, 2.0 * ttl]];
    Margin(interval);
    assert !ActiveAt(clocks[n], interval, ttl);
    assert ReadActive({}, clocks, interval, ttl);
    var p: ClusterPeers.Peering := ClusterPeers.Peers(map[], map[], []);
    assert n in ClusterPeers.Destroyed(p, {}, {n});
  }
}
