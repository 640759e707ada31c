/** Whole runs of a cluster: every node has its own tables, all nodes share the registry. One service call is
    one step; a login is three of them (`addUserDeviceConnection`, `storeUserNodeData` and, for the device the
    same socket held before, `removeAllUserDeviceData`), with steps of anybody else in between. */
module ClusterSessions {
  import opened Text
  import opened SessionRegistry
  import opened LocalSessions

  const HTTP_DEVICE_ID := "SAMA_HTTP_CLIENT_DEVICE_ID"

  /** A user's device on a node. */
  datatype Place = Place(n: string, u: string, d: string)

  /** The registry and the tables of the nodes that are up; and what logins have still to do: `arriving` devices
      are in a node's table and not stored yet, `leaving` ones were displaced from their socket and not dropped yet. */
  datatype System = System(registry: Registry, locals: map<string, Local>, arriving: set<Place>, leaving: set<Place>)

  datatype Step =
    | Adding(n: string, s: Socket, u: string, d: string)
    | Storing(n: string, s: Socket, u: string, d: string)
    | Dropping(n: string, u: string, d: string)
    | Close(n: string, s: Socket)
    | DeleteUser(n: string, s: Socket)
    | Inactive(n: string, s: Socket, isInactive: bool)
    | ListActual(n: string, u: string)
    | CleanNode(n: string)
    | Crash(n: string)
    | Boot(n: string)

  /** The key under which an absent device id is written (`${undefined}` and `${null}`). */
  function DeviceKey(l: Local, s: Socket, u: string): string {
    match DeviceOf(l, s, u) case Some(d) => d case None => if u in l.devices then "undefined" else "null"
  }

  function AddStep(sys: System, n: string, s: Socket, o: string, u: string, d: string): System
    requires n in sys.locals
  {
    var before := DeviceOf(sys.locals[n], s, u);
    System(sys.registry, sys.locals[n := Add(sys.locals[n], s, o, u, d)], sys.arriving + {Place(n, u, d)},
           sys.leaving + if before.Some? then {Place(n, u, before.value)} else {})
  }

  function StoreStep(sys: System, n: string, s: Socket, o: string, u: string, d: string): System
    requires n in sys.locals
  {
    System(Store(sys.registry, n, sys.locals[n].Connected(u), o, u, d), sys.locals[n := SetNode(sys.locals[n], s, n)],
           sys.arriving - {Place(n, u, d)}, sys.leaving)
  }

  function DropStep(sys: System, n: string, o: string, u: string, d: string): System
    requires n in sys.locals
  {
    System(RemoveAll(sys.registry, n, sys.locals[n].Connected(u), o, u, d), sys.locals, sys.arriving, sys.leaving - {Place(n, u, d)})
  }

  /** `removeUserSession` for a socket with a session, as the close and logout paths call it. An absent
      or empty device id leaves the registry alone. */
  function CloseStep(sys: System, n: string, s: Socket): System
    requires n in sys.locals && s in sys.locals[n].sessions
  {
    var l := sys.locals[n];
    var Session(o, u, _, _, _) := l.sessions[s];
    var d := DeviceOf(l, s, u);
    var l' := Remove(l, s, u, d);
    sys.(registry := if d.Some? && d.value != "" then RemoveAll(sys.registry, n, l'.Connected(u), o, u, d.value) else sys.registry,
         locals := sys.locals[n := l'])
  }

  function DeleteStep(sys: System, n: string, s: Socket): System
    requires n in sys.locals && s in sys.locals[n].sessions
  {
    var l := sys.locals[n];
    var Session(o, u, _, _, _) := l.sessions[s];
    sys.(registry := RemoveUser(sys.registry, o, u), locals := sys.locals[n := RemoveUserConnections(l, s, u)])
  }

  function InactiveStep(sys: System, n: string, s: Socket, isInactive: bool): System
    requires n in sys.locals && s in sys.locals[n].sessions
  {
    var l := sys.locals[n];
    var u := l.sessions[s].user;
    sys.(registry := MarkInactive(sys.registry, u, DeviceKey(l, s, u), isInactive),
         locals := sys.locals[n := SetInactive(l, s, isInactive)])
  }

  /** A node that goes down takes its tables and its unfinished logins with it. */
  function CrashStep(sys: System, n: string): System {
    System(sys.registry, sys.locals - {n}, set p | p in sys.arriving && p.n != n, set p | p in sys.leaving && p.n != n)
  }

  /** A step of a node that is down, or of a socket without a session, does nothing. */
  function Apply(sys: System, e: Step, orgOf: string -> string): System {
    match e
    case Adding(n, s, u, d) => if n in sys.locals then AddStep(sys, n, s, orgOf(u), u, d) else sys
    case Storing(n, s, u, d) => if n in sys.locals then StoreStep(sys, n, s, orgOf(u), u, d) else sys
    case Dropping(n, u, d) => if n in sys.locals then DropStep(sys, n, orgOf(u), u, d) else sys
    case Close(n, s) => if n in sys.locals && s in sys.locals[n].sessions then CloseStep(sys, n, s) else sys
    case DeleteUser(n, s) => if n in sys.locals && s in sys.locals[n].sessions then DeleteStep(sys, n, s) else sys
    case Inactive(n, s, isInactive) => if n in sys.locals && s in sys.locals[n].sessions then InactiveStep(sys, n, s, isInactive) else sys
    case ListActual(n, u) =>
      if n in sys.locals then sys.(registry := Prune(sys.registry, n, sys.locals[n].Connected(u), orgOf(u), u)) else sys
    case CleanNode(n) => sys.(registry := ClearNode(sys.registry, n))
    case Crash(n) => CrashStep(sys, n)
    case Boot(n) => if n in sys.locals then sys else sys.(registry := ClearNode(sys.registry, n), locals := sys.locals[n := NOBODY])
  }

  function Run(sys: System, es: seq<Step>, orgOf: string -> string): System
    decreases |es|
  {
    if es == [] then sys else Run(Apply(sys, es[0], orgOf), es[1..], orgOf)
  }

  const START := System(EMPTY, map[], {}, {})

  // ---- what the nodes read ----

  /** What `listUserData` says about a device. */
  datatype Extra = Extra(node: Option<string>, inactive: bool)

  /** services/session/index.js:246-252: a stand-alone node looks at its own non-HTTP connections that have a session. */
  function LocalData(l: Local, cs: seq<Connection>): map<string, Extra> {
    if cs == [] then map[]
    else
      var c, before := cs[|cs| - 1], LocalData(l, cs[..|cs| - 1]);
      if c.deviceId == HTTP_DEVICE_ID || c.socket !in l.sessions then before
      else before[c.deviceId := Extra(l.sessions[c.socket].node, l.sessions[c.socket].inactive)]
  }

  /** `listUserData` */
  function UserData(r: Registry, l: Local, isStandAlone: bool, o: string, u: string): map<string, Extra> {
    if isStandAlone then LocalData(l, l.Connections(u))
    else map d | d in r.Devices(o, u) :: Extra(r.NodeOf(u, d), (u, d) in r.inactive)
  }

  // ---- a login as a whole ----

  /** The steps of the login and connect operations, when nobody comes in between. */
  function LoginSteps(l: Local, n: string, s: Socket, u: string, d: string): seq<Step> {
    var before := DeviceOf(l, s, u);
    [Adding(n, s, u, d), Storing(n, s, u, d)] + if before.Some? then [Dropping(n, u, before.value)] else []
  }

  /** The node's tables after them. */
  function LoginLocal(l: Local, n: string, s: Socket, o: string, u: string, d: string): Local {
    SetNode(Add(l, s, o, u, d), s, n)
  }

  /** The registry after them: the device is stored, then the device the same socket held before is dropped. */
  function LoginRegistry(r: Registry, l: Local, n: string, s: Socket, o: string, u: string, d: string): Registry {
    var before := DeviceOf(l, s, u);
    var here := LoginLocal(l, n, s, o, u, d).Connected(u);
    var stored := Store(r, n, here, o, u, d);
    if before.Some? then RemoveAll(stored, n, here, o, u, before.value) else stored
  }

  lemma RunTwo(sys: System, e1: Step, e2: Step, rest: seq<Step>, orgOf: string -> string)
    ensures Run(sys, [e1, e2] + rest, orgOf) == Run(Apply(Apply(sys, e1, orgOf), e2, orgOf), rest, orgOf)
  {
    var es := [e1, e2] + rest;
    assert es[1..] == [e2] + rest && es[1..][1..] == rest;
  }

  lemma RunOne(sys: System, e: Step, orgOf: string -> string)
    ensures Run(sys, [e], orgOf) == Apply(sys, e, orgOf)
  {
    assert [e][1..] == [];
  }

  /** Taken without interruption, the steps of a login have the effect that the operation has as a whole. */
  lemma LoginAsSteps(sys: System, n: string, s: Socket, u: string, d: string, orgOf: string -> string)
    requires n in sys.locals
    ensures var sys' := Run(sys, LoginSteps(sys.locals[n], n, s, u, d), orgOf);
      && n in sys'.locals && sys'.locals[n] == LoginLocal(sys.locals[n], n, s, orgOf(u), u, d)
      && sys'.registry == LoginRegistry(sys.registry, sys.locals[n], n, s, orgOf(u), u, d)
  {
    var l, o := sys.locals[n], orgOf(u);
    var before := DeviceOf(l, s, u);
    var rest := if before.Some? then [Dropping(n, u, before.value)] else [];
    RunTwo(sys, Adding(n, s, u, d), Storing(n, s, u, d), rest, orgOf);
    assert Add(l, s, o, u, d).Connected(u) == LoginLocal(l, n, s, o, u, d).Connected(u);
    if before.Some? {
      RunOne(StoreStep(AddStep(sys, n, s, o, u, d), n, s, o, u, d), Dropping(n, u, before.value), orgOf);
    }
  }

  // ---- what callers supply ----

  /** Users and organizations are named by their database ids; a device id is any non-empty string. */
  predicate Legal(e: Step, orgOf: string -> string) {
    KnownUser(e, orgOf) && (e.Adding? || e.Storing? ==> e.d != "")
  }

  predicate KnownUser(e: Step, orgOf: string -> string) {
    e.Adding? || e.Storing? || e.Dropping? || e.ListActual? ==> ColonFree(e.u) && ColonFree(orgOf(e.u))
  }

  // ---- the registry invariant alone, for any device ids and any order of calls ----

  /** Sessions name users and organizations by their database ids. */
  ghost predicate KnownUsers(sys: System, orgOf: string -> string) {
    forall n, s :: n in sys.locals && s in sys.locals[n].sessions ==> Known(sys.locals[n].sessions[s], orgOf)
  }

  predicate Known(x: Session, orgOf: string -> string) {
    x.org == orgOf(x.user) && ColonFree(x.user) && ColonFree(x.org)
  }

  /** A step that clears a node finds only colon-free device ids there. */
  ghost predicate Parses(sys: System, e: Step) {
    e.CleanNode? || (e.Boot? && e.n !in sys.locals) ==> ColonFreeOn(sys.registry, e.n)
  }

  lemma KnownStep(sys: System, e: Step, orgOf: string -> string)
    requires KnownUsers(sys, orgOf) && KnownUser(e, orgOf)
    ensures KnownUsers(Apply(sys, e, orgOf), orgOf)
  {
    var sys' := Apply(sys, e, orgOf);
    forall n, s | n in sys'.locals && s in sys'.locals[n].sessions ensures Known(sys'.locals[n].sessions[s], orgOf) {
      assert n in sys.locals && s in sys.locals[n].sessions ==> Known(sys.locals[n].sessions[s], orgOf);
    }
  }

  lemma InactiveRegistryInv(r: Registry, u: string, d: string, isInactive: bool, orgOf: string -> string)
    requires Inv(r, orgOf)
    ensures Inv(MarkInactive(r, u, d, isInactive), orgOf)
  {
    var r' := MarkInactive(r, u, d, isInactive);
    forall n, o, v, e ensures Enlisted(r', n, o, v, e) == Enlisted(r, n, o, v, e) && r'.NodeOf(v, e) == r.NodeOf(v, e) {}
  }

  /** Whatever the device ids: a step keeps the registry consistent if and only if it is not the cleanup of a
      node that owns a device with a colon in its id. */
  lemma RegistryStepIff(sys: System, e: Step, orgOf: string -> string)
    requires Inv(sys.registry, orgOf) && KnownUsers(sys, orgOf) && KnownUser(e, orgOf)
    ensures Inv(Apply(sys, e, orgOf).registry, orgOf) <==> Parses(sys, e)
  {
    var r := sys.registry;
    match e
    case Adding(n, s, u, d) =>
    case Storing(n, s, u, d) =>
      if n in sys.locals {
        StoreInv(r, n, sys.locals[n].Connected(u), orgOf(u), u, d, orgOf);
      }
    case Dropping(n, u, d) =>
      if n in sys.locals {
        RemoveAllInv(r, n, sys.locals[n].Connected(u), orgOf(u), u, d, orgOf);
      }
    case Close(n, s) =>
      if n in sys.locals && s in sys.locals[n].sessions {
        var l, x := sys.locals[n], sys.locals[n].sessions[s];
        assert Known(x, orgOf);
        var d := DeviceOf(l, s, x.user);
        if d.Some? {
          RemoveAllInv(r, n, Remove(l, s, x.user, d).Connected(x.user), x.org, x.user, d.value, orgOf);
        }
      }
    case DeleteUser(n, s) =>
      if n in sys.locals && s in sys.locals[n].sessions {
        var x := sys.locals[n].sessions[s];
        assert Known(x, orgOf);
        RemoveUserInv(r, x.org, x.user, orgOf);
      }
    case Inactive(n, s, isInactive) =>
      if n in sys.locals && s in sys.locals[n].sessions {
        var u := sys.locals[n].sessions[s].user;
        InactiveRegistryInv(r, u, DeviceKey(sys.locals[n], s, u), isInactive, orgOf);
      }
    case ListActual(n, u) =>
      if n in sys.locals {
        PruneInv(r, n, sys.locals[n].Connected(u), orgOf(u), u, orgOf);
      }
    case CleanNode(n) => ClearNodeConsistentIff(r, n, orgOf);
    case Crash(n) =>
    case Boot(n) => ClearNodeConsistentIff(r, n, orgOf);
  }

  ghost predicate ParsesThroughout(sys: System, es: seq<Step>, orgOf: string -> string)
    decreases |es|
  {
    es != [] ==> Parses(sys, es[0]) && ParsesThroughout(Apply(sys, es[0], orgOf), es[1..], orgOf)
  }

  ghost predicate ConsistentThroughout(sys: System, es: seq<Step>, orgOf: string -> string)
    decreases |es|
  {
    Inv(sys.registry, orgOf) && (es != [] ==> ConsistentThroughout(Apply(sys, es[0], orgOf), es[1..], orgOf))
  }

  /** The registry invariant holds in all states of a run if and only if every cleanup in it meets only
      colon-free device ids. */
  lemma {:induction false} RegistryRunIff(sys: System, es: seq<Step>, orgOf: string -> string)
    requires Inv(sys.registry, orgOf) && KnownUsers(sys, orgOf) && forall e :: e in es ==> KnownUser(e, orgOf)
    ensures ConsistentThroughout(sys, es, orgOf) <==> ParsesThroughout(sys, es, orgOf)
    decreases |es|
  {
    if es != [] {
      RegistryStepIff(sys, es[0], orgOf);
      KnownStep(sys, es[0], orgOf);
      if Parses(sys, es[0]) {
        RegistryRunIff(Apply(sys, es[0], orgOf), es[1..], orgOf);
      }
    }
  }

  // ---- how a step changes one device's owner and connection ----

  lemma PruneOwner(r: Registry, here: string, connected: set<string>, o: string, u: string, v: string, e: string)
    ensures Prune(r, here, connected, o, u).NodeOf(v, e) ==
            if v == u && (o, u, e) in r.userDevices && !Actual(r, here, connected, u, e) then None else r.NodeOf(v, e)
  {
  }

  lemma RemoveAllOwner(r: Registry, here: string, connected: set<string>, o: string, u: string, d: string, v: string,
                       e: string)
    ensures RemoveAll(r, here, connected, o, u, d).NodeOf(v, e) ==
            if v == u && (e == d || ((o, u, e) in r.userDevices && !Actual(r, here, connected, u, e))) then None else r.NodeOf(v, e)
  {
    PruneOwner(RemoveDevice(r, here, o, u, d), here, connected, o, u, v, e);
  }

  /** A store names this node for the stored device, and otherwise only drops owners. */
  lemma StoreOwner(r: Registry, here: string, connected: set<string>, o: string, u: string, d: string, v: string,
                   e: string)
    ensures Store(r, here, connected, o, u, d).NodeOf(v, e) ==
            if v == u && e == d then Some(here)
            else if v == u && (o, u, d) in r.userDevices && (o, u, e) in r.userDevices && !Actual(r, here, connected, u, e) then None
            else r.NodeOf(v, e)
  {
    if (o, u, d) in r.userDevices {
      RemoveAllOwner(r, here, connected, o, u, d, v, e);
    }
  }

  /** A listing of a user's actual devices on node n repairs what names n without being held: whatever went before,
      every entry of the user that names n afterwards is of a connected device, and the other entries stay. */
  lemma ListingRepairs(sys: System, n: string, u: string, d: string, orgOf: string -> string)
    requires n in sys.locals && Listing(sys.registry, orgOf)
    ensures var r' := Apply(sys, ListActual(n, u), orgOf).registry;
      && (r'.NodeOf(u, d) == Some(n) <==> sys.registry.NodeOf(u, d) == Some(n) && d in sys.locals[n].Connected(u))
      && (sys.registry.NodeOf(u, d) != Some(n) ==> r'.NodeOf(u, d) == sys.registry.NodeOf(u, d))
  {
    PruneExact(sys.registry, n, sys.locals[n].Connected(u), orgOf(u), u);
    assert (u, d) in sys.registry.nodeField ==> (orgOf(u), u, d) in sys.registry.userDevices;
  }

  lemma RemoveUserOwner(r: Registry, o: string, u: string, v: string, e: string, orgOf: string -> string)
    requires Listing(r, orgOf) && o == orgOf(u)
    ensures RemoveUser(r, o, u).NodeOf(v, e) == if v == u then None else r.NodeOf(v, e)
  {
    assert (u, e) in r.nodeField ==> e in r.Devices(o, u);
  }

  /** What an uninterrupted login does to the owner of any device: the device it is for gets this node, unless the
      same socket held that very device; the one the socket held before gets none; others keep theirs or were stale. */
  lemma LoginOwner(r: Registry, l: Local, n: string, s: Socket, o: string, u: string, d: string, v: string, e: string)
    ensures var now := LoginRegistry(r, l, n, s, o, u, d).NodeOf(v, e);
            var before := DeviceOf(l, s, u);
      && (v == u && e == d ==> now == if before == Some(d) then None else Some(n))
      && (v == u && Some(e) == before ==> now == None)
      && (!(v == u && (e == d || Some(e) == before)) ==>
            || now == r.NodeOf(v, e)
            || (now == None && v == u && !Actual(r, n, LoginLocal(l, n, s, o, u, d).Connected(u), u, e)))
  {
    var here := LoginLocal(l, n, s, o, u, d).Connected(u);
    assert d in here by {
      assert Connection(s, d, o) in LoginLocal(l, n, s, o, u, d).Connections(u);
    }
    StoreOwner(r, n, here, o, u, d, v, e);
    var before := DeviceOf(l, s, u);
    if before.Some? {
      RemoveAllOwner(Store(r, n, here, o, u, d), n, here, o, u, before.value, v, e);
    }
  }

  /** The user's devices on a node after a connection is added: those of other sockets, and the new device. */
  lemma AddConnected(l: Local, s: Socket, o: string, u: string, d: string, v: string, e: string)
    requires Tables(l)
    ensures e in Add(l, s, o, u, d).Connected(v) <==>
            (v == u && e == d) || (e in l.Connected(v) && (v == u ==> DeviceOf(l, s, u) != Some(e)))
  {
    var l' := Add(l, s, o, u, d);
    AddContents(l, s, o, u, d);
    DistinctByValue(l.Connections(u));
    if v == u {
      if e in l.Connected(u) && e != d && DeviceOf(l, s, u) != Some(e) {
        var c :| c in l.Connections(u) && c.deviceId == e;
        assert c in l'.Connections(u);
      }
      assert Connection(s, d, o) in l'.Connections(u);
    }
  }

  lemma CloseConnected(l: Local, s: Socket, u: string, v: string, e: string)
    requires Tables(l)
    ensures var l' := Remove(l, s, u, DeviceOf(l, s, u));
      && Tables(l')
      && (e in l'.Connected(v) <==> e in l.Connected(v) && (v == u ==> DeviceOf(l, s, u) != Some(e)))
  {
    RemoveTables(l, s, u, DeviceOf(l, s, u));
  }

  // ---- the inactivity marks ----

  /** Every step keeps the inactivity marks straight: only an `Inactive` of a socket of the user marks a device; and a
      device that keeps its entry keeps its mark, unless it is stored anew, while one that loses it is unmarked. */
  lemma StepMarks(sys: System, e: Step, orgOf: string -> string, v: string, x: string)
    requires Inv(sys.registry, orgOf) && LocalsOk(sys, orgOf) && Parses(sys, e)
    requires sys.registry.NodeOf(v, x).Some?
    ensures var r' := Apply(sys, e, orgOf).registry;
      && (r'.NodeOf(v, x) == None ==> (v, x) !in r'.inactive)
      && (!e.Inactive? && (v, x) in r'.inactive ==> (v, x) in sys.registry.inactive)
      && (!e.Inactive? && !(e.Storing? && v == e.u && x == e.d) && r'.NodeOf(v, x).Some? ==>
            ((v, x) in r'.inactive <==> (v, x) in sys.registry.inactive))
      && (e.Storing? && e.n in sys.locals && v == e.u && x == e.d ==> (v, x) !in r'.inactive)
  {
    var r := sys.registry;
    assert (v, x) in r.nodeField && (orgOf(v), v, x) in r.userDevices;
    match e
    case Adding(n, s, u, d) =>
    case Storing(n, s, u, d) => if n in sys.locals { StoreMarks(r, n, sys.locals[n].Connected(u), orgOf(u), u, d, v, x); }
    case Dropping(n, u, d) => if n in sys.locals { RemoveAllMarks(r, n, sys.locals[n].Connected(u), orgOf(u), u, d, v, x); }
    case Close(n, s) =>
      if n in sys.locals && s in sys.locals[n].sessions {
        var l, u := sys.locals[n], sys.locals[n].sessions[s].user;
        assert Known(l.sessions[s], orgOf);
        var d := DeviceOf(l, s, u);
        if d.Some? {
          RemoveAllMarks(r, n, Remove(l, s, u, d).Connected(u), orgOf(u), u, d.value, v, x);
        }
      }
    case DeleteUser(n, s) =>
      if n in sys.locals && s in sys.locals[n].sessions {
        assert Known(sys.locals[n].sessions[s], orgOf);
      }
    case Inactive(n, s, isInactive) =>
    case ListActual(n, u) =>
      if n in sys.locals {
        MarksKept(r, n, sys.locals[n].Connected(u), orgOf(u), u, "", v, x);
        PruneOwner(r, n, sys.locals[n].Connected(u), orgOf(u), u, v, x);
      }
    case CleanNode(n) => ClearNodeTakes(r, n, orgOf, orgOf(v), v, x);
    case Crash(n) =>
    case Boot(n) => ClearNodeTakes(r, n, orgOf, orgOf(v), v, x);
  }

  /** Marking: the device of the socket gets the new state, and no device of another user changes, nor any other
      device of the user. */
  lemma InactiveMarks(sys: System, n: string, s: Socket, isInactive: bool, d: string, orgOf: string -> string, v: string, x: string)
    requires n in sys.locals && s in sys.locals[n].sessions && DeviceOf(sys.locals[n], s, sys.locals[n].sessions[s].user) == Some(d)
    ensures (v, x) in Apply(sys, Inactive(n, s, isInactive), orgOf).registry.inactive <==>
            if v == sys.locals[n].sessions[s].user && x == d then isInactive else (v, x) in sys.registry.inactive
  {
    MarkExact(sys.registry, sys.locals[n].sessions[s].user, d, isInactive, v, x);
  }

  lemma RemoveAllMarks(r: Registry, here: string, connected: set<string>, o: string, u: string, d: string, v: string, x: string)
    ensures var r' := RemoveAll(r, here, connected, o, u, d);
      && ((v, x) in r'.inactive ==> (v, x) in r.inactive)
      && (r.NodeOf(v, x).Some? && r'.NodeOf(v, x) == None ==> (v, x) !in r'.inactive)
      && (r'.NodeOf(v, x).Some? ==> ((v, x) in r'.inactive <==> (v, x) in r.inactive))
  {
    MarksKept(r, here, connected, o, u, d, v, x);
    RemoveAllOwner(r, here, connected, o, u, d, v, x);
  }

  lemma StoreMarks(r: Registry, here: string, connected: set<string>, o: string, u: string, d: string, v: string, x: string)
    requires r.NodeOf(v, x).Some? && (v == u ==> (o, u, x) in r.userDevices)
    ensures var r' := Store(r, here, connected, o, u, d);
      && ((v, x) in r'.inactive ==> (v, x) in r.inactive)
      && (r'.NodeOf(v, x) == None ==> (v, x) !in r'.inactive)
      && (v == u && x == d ==> (v, x) !in r'.inactive)
      && (!(v == u && x == d) && r'.NodeOf(v, x).Some? ==> ((v, x) in r'.inactive <==> (v, x) in r.inactive))
  {
    MarksKept(r, here, connected, o, u, d, v, x);
    StoreOwner(r, here, connected, o, u, d, v, x);
    if (o, u, d) in r.userDevices {
      MarksKept(RemoveAll(r, here, connected, o, u, d), here, connected, o, u, d, v, x);
    }
  }

  // ---- invariants of runs ----

  /** A node's tables: distinct lists, sessions of known users, and no empty device id. */
  ghost predicate TablesOk(l: Local, orgOf: string -> string) {
    && Tables(l)
    && (forall s :: s in l.sessions ==> Known(l.sessions[s], orgOf))
    && (forall u, c :: c in l.Connections(u) ==> c.deviceId != "")
  }

  /** If the entry of a device names a node that is up, the node holds the device, or a login there has still
      to drop it. Nothing is asked of the device id reserved for HTTP requests. */
  ghost predicate AnchoredAt(sys: System, u: string, d: string) {
    match sys.registry.NodeOf(u, d)
    case Some(n) => n in sys.locals && d != HTTP_DEVICE_ID ==> d in sys.locals[n].Connected(u) || Place(n, u, d) in sys.leaving
    case None => true
  }

  ghost predicate Anchored(sys: System) {
    forall u, d :: AnchoredAt(sys, u, d)
  }

  ghost predicate LocalsOk(sys: System, orgOf: string -> string) {
    forall n :: n in sys.locals ==> TablesOk(sys.locals[n], orgOf)
  }

  ghost predicate SystemInv(sys: System, orgOf: string -> string) {
    Inv(sys.registry, orgOf) && LocalsOk(sys, orgOf) && Anchored(sys)
  }

  /** A store is grounded when the node holds the device it stores, or has still to drop it. */
  ghost predicate Grounded(sys: System, e: Step) {
    e.Storing? && e.n in sys.locals && e.d != HTTP_DEVICE_ID ==>
      e.d in sys.locals[e.n].Connected(e.u) || Place(e.n, e.u, e.d) in sys.leaving
  }

  lemma InvKnown(sys: System, orgOf: string -> string)
    requires LocalsOk(sys, orgOf)
    ensures KnownUsers(sys, orgOf)
  {
  }

  lemma AddTablesOk(l: Local, s: Socket, u: string, d: string, orgOf: string -> string)
    requires TablesOk(l, orgOf) && ColonFree(u) && ColonFree(orgOf(u)) && d != ""
    ensures TablesOk(Add(l, s, orgOf(u), u, d), orgOf)
  {
    AddContents(l, s, orgOf(u), u, d);
  }

  lemma SessionTablesOk(l: Local, l': Local, orgOf: string -> string)
    requires TablesOk(l, orgOf) && l'.devices == l.devices
    requires forall s :: s in l'.sessions ==>
      s in l.sessions && l'.sessions[s].org == l.sessions[s].org && l'.sessions[s].user == l.sessions[s].user
    ensures TablesOk(l', orgOf)
  {
    forall u ensures l'.Connections(u) == l.Connections(u) {}
    forall s | s in l'.sessions ensures Known(l'.sessions[s], orgOf) {
      assert Known(l.sessions[s], orgOf);
    }
  }

  lemma CloseTablesOk(l: Local, s: Socket, u: string, d: Option<string>, orgOf: string -> string)
    requires TablesOk(l, orgOf)
    ensures TablesOk(Remove(l, s, u, d), orgOf)
  {
    RemoveTables(l, s, u, d);
  }

  lemma DeleteTablesOk(l: Local, s: Socket, u: string, orgOf: string -> string)
    requires TablesOk(l, orgOf)
    ensures TablesOk(RemoveUserConnections(l, s, u), orgOf)
  {
    forall v, c | c in RemoveUserConnections(l, s, u).Connections(v) ensures c in l.Connections(v) {}
  }

  /** Every step keeps the tables of every node in order. */
  lemma StepLocalsOk(sys: System, e: Step, orgOf: string -> string)
    requires LocalsOk(sys, orgOf) && Legal(e, orgOf)
    ensures LocalsOk(Apply(sys, e, orgOf), orgOf)
  {
    match e
    case Adding(n, s, u, d) => if n in sys.locals { AddTablesOk(sys.locals[n], s, u, d, orgOf); }
    case Storing(n, s, u, d) => if n in sys.locals { SessionTablesOk(sys.locals[n], SetNode(sys.locals[n], s, n), orgOf); }
    case Dropping(n, u, d) =>
    case Close(n, s) =>
      if n in sys.locals && s in sys.locals[n].sessions {
        var u := sys.locals[n].sessions[s].user;
        CloseTablesOk(sys.locals[n], s, u, DeviceOf(sys.locals[n], s, u), orgOf);
      }
    case DeleteUser(n, s) =>
      if n in sys.locals && s in sys.locals[n].sessions {
        DeleteTablesOk(sys.locals[n], s, sys.locals[n].sessions[s].user, orgOf);
      }
    case Inactive(n, s, isInactive) =>
      if n in sys.locals {
        SessionTablesOk(sys.locals[n], SetInactive(sys.locals[n], s, isInactive), orgOf);
      }
    case ListActual(n, u) =>
    case CleanNode(n) =>
    case Crash(n) =>
    case Boot(n) => EmptyTablesOk(orgOf);
  }

  lemma EmptyTablesOk(orgOf: string -> string)
    ensures TablesOk(NOBODY, orgOf)
  {
    forall u ensures NOBODY.Connections(u) == [] {}
  }

  /** How the entry of one device comes out of a step: as it was, gone, or naming the node that stores it. */
  lemma StepOwner(sys: System, e: Step, orgOf: string -> string, v: string, x: string)
    requires Inv(sys.registry, orgOf) && LocalsOk(sys, orgOf) && Parses(sys, e)
    ensures var was, now := sys.registry.NodeOf(v, x), Apply(sys, e, orgOf).registry.NodeOf(v, x);
      || now == was || now == None
      || (e.Storing? && e.n in sys.locals && v == e.u && x == e.d && now == Some(e.n))
  {
    var r := sys.registry;
    match e
    case Adding(n, s, u, d) =>
    case Storing(n, s, u, d) => if n in sys.locals { StoreOwner(r, n, sys.locals[n].Connected(u), orgOf(u), u, d, v, x); }
    case Dropping(n, u, d) => if n in sys.locals { RemoveAllOwner(r, n, sys.locals[n].Connected(u), orgOf(u), u, d, v, x); }
    case Close(n, s) => if n in sys.locals && s in sys.locals[n].sessions { CloseOwner(sys, n, s, v, x); }
    case DeleteUser(n, s) =>
      if n in sys.locals && s in sys.locals[n].sessions {
        assert Known(sys.locals[n].sessions[s], orgOf);
        RemoveUserOwner(r, sys.locals[n].sessions[s].org, sys.locals[n].sessions[s].user, v, x, orgOf);
      }
    case Inactive(n, s, isInactive) =>
    case ListActual(n, u) => if n in sys.locals { PruneOwner(r, n, sys.locals[n].Connected(u), orgOf(u), u, v, x); }
    case CleanNode(n) => ClearOwner(r, n, orgOf, v, x);
    case Crash(n) =>
    case Boot(n) => if n !in sys.locals { ClearOwner(r, n, orgOf, v, x); }
  }

  lemma ClearOwner(r: Registry, n: string, orgOf: string -> string, v: string, x: string)
    requires Inv(r, orgOf) && ColonFreeOn(r, n)
    ensures ClearNode(r, n).NodeOf(v, x) == if r.NodeOf(v, x) == Some(n) then None else r.NodeOf(v, x)
  {
    ClearNodeExact(r, n, orgOf);
  }

  lemma CloseOwner(sys: System, n: string, s: Socket, v: string, x: string)
    requires n in sys.locals && s in sys.locals[n].sessions
    ensures var u := sys.locals[n].sessions[s].user;
            var d := DeviceOf(sys.locals[n], s, u);
            var now := CloseStep(sys, n, s).registry.NodeOf(v, x);
      && (v == u && d == Some(x) && x != "" ==> now == None)
      && (now == sys.registry.NodeOf(v, x) || (now == None && v == u &&
           (d == Some(x) || !Actual(sys.registry, n, CloseStep(sys, n, s).locals[n].Connected(u), u, x))))
  {
    var l := sys.locals[n];
    var Session(o, u, _, _, _) := l.sessions[s];
    var d := DeviceOf(l, s, u);
    if d.Some? && d.value != "" {
      RemoveAllOwner(sys.registry, n, CloseStep(sys, n, s).locals[n].Connected(u), o, u, d.value, v, x);
    }
  }

  /** Which connections a step takes from a node that stays up. */
  lemma StepConnected(sys: System, e: Step, orgOf: string -> string, m: string, v: string, x: string)
    requires LocalsOk(sys, orgOf) && m in sys.locals && m in Apply(sys, e, orgOf).locals
    requires x in sys.locals[m].Connected(v) && x !in Apply(sys, e, orgOf).locals[m].Connected(v)
    ensures (e.Adding? || e.Close? || e.DeleteUser?) && e.n == m
    ensures e.Adding? ==> v == e.u && DeviceOf(sys.locals[m], e.s, v) == Some(x)
    ensures !e.Adding? ==> e.s in sys.locals[m].sessions && v == sys.locals[m].sessions[e.s].user
    ensures e.Close? ==> DeviceOf(sys.locals[m], e.s, v) == Some(x)
  {
    var l := sys.locals[m];
    match e
    case Adding(n, s, u, d) => if n == m { AddConnected(l, s, orgOf(u), u, d, v, x); }
    case Close(n, s) => if n == m && s in l.sessions { CloseConnected(l, s, l.sessions[s].user, v, x); }
    case _ =>
  }

  /** One entry stays anchored through every step, except that of a device stored without ground. */
  lemma StepAnchoredAt(sys: System, e: Step, orgOf: string -> string, v: string, x: string)
    requires Inv(sys.registry, orgOf) && LocalsOk(sys, orgOf) && Parses(sys, e) && AnchoredAt(sys, v, x)
    requires e.Storing? && v == e.u && x == e.d ==> Grounded(sys, e)
    ensures AnchoredAt(Apply(sys, e, orgOf), v, x)
  {
    var sys' := Apply(sys, e, orgOf);
    StepOwner(sys, e, orgOf, v, x);
    var now := sys'.registry.NodeOf(v, x);
    if now.Some? && now.value in sys'.locals {
      StepHolds(sys, e, orgOf, v, x, now.value);
    }
  }

  lemma StepHolds(sys: System, e: Step, orgOf: string -> string, v: string, x: string, m: string)
    requires Inv(sys.registry, orgOf) && LocalsOk(sys, orgOf) && Parses(sys, e) && AnchoredAt(sys, v, x)
    requires e.Storing? && v == e.u && x == e.d ==> Grounded(sys, e)
    requires m in Apply(sys, e, orgOf).locals && Apply(sys, e, orgOf).registry.NodeOf(v, x) == Some(m)
    requires sys.registry.NodeOf(v, x) == Some(m) || (e.Storing? && e.n in sys.locals && v == e.u && x == e.d && m == e.n)
    ensures || x == HTTP_DEVICE_ID
            || x in Apply(sys, e, orgOf).locals[m].Connected(v)
            || Place(m, v, x) in Apply(sys, e, orgOf).leaving
  {
    var sys' := Apply(sys, e, orgOf);
    if m !in sys.locals {
      ClearOwner(sys.registry, m, orgOf, v, x);
      assert false;
    }
    if x in sys.locals[m].Connected(v) {
      if x !in sys'.locals[m].Connected(v) {
        StepConnected(sys, e, orgOf, m, v, x);
        if e.Close? {
          CloseOwner(sys, m, e.s, v, x);
        } else if e.DeleteUser? {
          assert Known(sys.locals[m].sessions[e.s], orgOf);
          RemoveUserOwner(sys.registry, sys.locals[m].sessions[e.s].org, v, v, x, orgOf);
        }
      }
    } else if e.Dropping? && e.n in sys.locals {
      RemoveAllOwner(sys.registry, e.n, sys.locals[e.n].Connected(e.u), orgOf(e.u), e.u, e.d, v, x);
    }
  }

  /** Every service call, crash and restart keeps the invariant if and only if it is neither a store without
      ground nor the cleanup of a node that owns a device with a colon in its id. */
  lemma StepInvIff(sys: System, e: Step, orgOf: string -> string)
    requires SystemInv(sys, orgOf) && Legal(e, orgOf)
    ensures SystemInv(Apply(sys, e, orgOf), orgOf) <==> Grounded(sys, e) && Parses(sys, e)
  {
    var sys' := Apply(sys, e, orgOf);
    InvKnown(sys, orgOf);
    RegistryStepIff(sys, e, orgOf);
    StepLocalsOk(sys, e, orgOf);
    if Grounded(sys, e) && Parses(sys, e) {
      forall v, x ensures AnchoredAt(sys', v, x) {
        assert AnchoredAt(sys, v, x);
        StepAnchoredAt(sys, e, orgOf, v, x);
      }
    } else if Parses(sys, e) {
      StoreOwner(sys.registry, e.n, sys.locals[e.n].Connected(e.u), orgOf(e.u), e.u, e.d, e.u, e.d);
      assert !AnchoredAt(sys', e.u, e.d);
    }
  }

  ghost predicate GroundedRun(sys: System, es: seq<Step>, orgOf: string -> string)
    decreases |es|
  {
    es != [] ==> Grounded(sys, es[0]) && GroundedRun(Apply(sys, es[0], orgOf), es[1..], orgOf)
  }

  ghost predicate InvThroughout(sys: System, es: seq<Step>, orgOf: string -> string)
    decreases |es|
  {
    SystemInv(sys, orgOf) && (es != [] ==> InvThroughout(Apply(sys, es[0], orgOf), es[1..], orgOf))
  }

  /** Over whole runs, logins of several sockets interleaved in any way: the registry is consistent, every node's
      lists are distinct, and every entry that names a live node is held there or about to be dropped, in all
      states of the run, if and only if every store in it is grounded and every cleanup meets only colon-free
      device ids when taken. */
  lemma {:induction false} RunInvIff(sys: System, es: seq<Step>, orgOf: string -> string)
    requires SystemInv(sys, orgOf) && forall e :: e in es ==> Legal(e, orgOf)
    ensures InvThroughout(sys, es, orgOf) <==> GroundedRun(sys, es, orgOf) && ParsesThroughout(sys, es, orgOf)
    ensures GroundedRun(sys, es, orgOf) && ParsesThroughout(sys, es, orgOf) ==> SystemInv(Run(sys, es, orgOf), orgOf)
    decreases |es|
  {
    if es != [] {
      StepInvIff(sys, es[0], orgOf);
      if Grounded(sys, es[0]) && Parses(sys, es[0]) {
        RunInvIff(Apply(sys, es[0], orgOf), es[1..], orgOf);
      }
    }
  }

  lemma StartInv(orgOf: string -> string)
    ensures SystemInv(START, orgOf)
  {
    forall u, d ensures AnchoredAt(START, u, d) {}
  }
}
