/** Runs from an empty cluster that end where registry and tables disagree, or where the registry is not
    consistent: each condition of the other session modules fails somewhere. */
module ClusterIncidents {
  import opened Text
  import opened SessionRegistry
  import opened LocalSessions
  import opened ClusterSessions
  import opened ClusterAgreement

  /** A device is connected to a live node that the registry does not name, with no login under way. */
  ghost predicate Lost(sys: System, n: string, u: string, d: string) {
    && n in sys.locals && d in sys.locals[n].Connected(u) && sys.registry.NodeOf(u, d) == None
    && sys.arriving == {} && sys.leaving == {}
  }

  /** So registry and tables disagree, unless the id is the reserved one. */
  lemma LostDisagrees(sys: System, n: string, u: string, d: string)
    requires Lost(sys, n, u, d)
    ensures d != HTTP_DEVICE_ID ==> !AgreeAt(sys, n, u, d) && !Agree(sys)
  {
  }

  lemma ClearEmpty(n: string)
    ensures ClearNode(EMPTY, n) == EMPTY
  {
    assert EMPTY.Members(n) == {};
    assert ClearNode(EMPTY, n).nodeUsers == {};
  }

  function Idle(nodes: map<string, Local>): System {
    System(EMPTY, nodes, {}, {})
  }

  /** The first two calls of a login. */
  function Enter(n: string, s: Socket, u: string, d: string): seq<Step> {
    [Adding(n, s, u, d), Storing(n, s, u, d)]
  }

  function LoggedIn(sys: System, n: string, s: Socket, u: string, d: string, orgOf: string -> string): System {
    Apply(Apply(sys, Adding(n, s, u, d), orgOf), Storing(n, s, u, d), orgOf)
  }

  lemma {:induction false} RunConcat(sys: System, a: seq<Step>, b: seq<Step>, orgOf: string -> string)
    ensures Run(sys, a + b, orgOf) == Run(Run(sys, a, orgOf), b, orgOf)
    decreases |a|
  {
    if a == [] {
      assert a + b == b;
    } else {
      assert (a + b)[1..] == a[1..] + b;
      RunConcat(Apply(sys, a[0], orgOf), a[1..], b, orgOf);
    }
  }

  lemma EnterRun(sys: System, n: string, s: Socket, u: string, d: string, orgOf: string -> string)
    ensures Run(sys, Enter(n, s, u, d), orgOf) == LoggedIn(sys, n, s, u, d, orgOf)
  {
    RunTwo(sys, Adding(n, s, u, d), Storing(n, s, u, d), [], orgOf);
    assert Enter(n, s, u, d) + [] == Enter(n, s, u, d);
  }

  lemma BootRun(sys: System, n: string, orgOf: string -> string)
    requires sys.registry == EMPTY && sys.arriving == sys.leaving == {} && n !in sys.locals
    ensures Run(sys, [Boot(n)], orgOf) == Idle(sys.locals[n := NOBODY])
  {
    ClearEmpty(n);
    RunOne(sys, Boot(n), orgOf);
  }

  /** A socket without connections logs in: its device is connected and registered here. */
  lemma FirstLogin(sys: System, n: string, s: Socket, u: string, d: string, orgOf: string -> string)
    requires n in sys.locals && sys.locals[n] == NOBODY && sys.arriving == {}
    ensures var sys' := LoggedIn(sys, n, s, u, d, orgOf);
      && sys'.locals == sys.locals[n := sys'.locals[n]] && Tables(sys'.locals[n])
      && s in sys'.locals[n].sessions && sys'.locals[n].sessions[s].user == u
      && DeviceOf(sys'.locals[n], s, u) == Some(d) && sys'.locals[n].Connected(u) == {d}
      && sys'.locals[n].sessions[s].org == orgOf(u)
      && sys'.registry.NodeOf(u, d) == Some(n) && (orgOf(u), u, d) in sys'.registry.userDevices
      && ((orgOf(u), u, d) !in sys.registry.userDevices ==> sys'.registry == Track(sys.registry, n, orgOf(u), u, d))
      && sys'.arriving == {} && sys'.leaving == sys.leaving
  {
    var o := orgOf(u);
    var added := Apply(sys, Adding(n, s, u, d), orgOf);
    assert NOBODY.Connections(u) == [];
    AddContents(NOBODY, s, o, u, d);
    assert added.locals[n].devices[u] == [Connection(s, d, o)];
    StoreOwner(sys.registry, n, added.locals[n].Connected(u), o, u, d, u, d);
    var sys' := LoggedIn(sys, n, s, u, d, orgOf);
    assert sys'.locals[n].Connections(u) == [Connection(s, d, o)];
  }

  /** The socket of a device on one node closes while the device is connected on another. */
  lemma ClosedState(sys: System, n: string, m: string, s: Socket, u: string, d: string, orgOf: string -> string)
    requires n != m && d != "" && n in sys.locals && s in sys.locals[n].sessions && sys.locals[n].sessions[s].user == u
    requires DeviceOf(sys.locals[n], s, u) == Some(d) && m in sys.locals && d in sys.locals[m].Connected(u)
    requires sys.arriving == sys.leaving == {}
    ensures Lost(Apply(sys, Close(n, s), orgOf), m, u, d)
  {
    CloseOwner(sys, n, s, u, d);
  }

  lemma MovedState(sys: System, n: string, m: string, s: Socket, t: Socket, u: string, d: string, orgOf: string -> string)
    requires n != m && d != "" && n in sys.locals && m in sys.locals && sys.locals[n] == sys.locals[m] == NOBODY
    requires sys.arriving == sys.leaving == {}
    ensures Lost(Apply(LoggedIn(LoggedIn(sys, n, s, u, d, orgOf), m, t, u, d, orgOf), Close(n, s), orgOf), m, u, d)
  {
    var one := LoggedIn(sys, n, s, u, d, orgOf);
    FirstLogin(sys, n, s, u, d, orgOf);
    FirstLogin(one, m, t, u, d, orgOf);
    ClosedState(LoggedIn(one, m, t, u, d, orgOf), n, m, s, u, d, orgOf);
  }

  /** Two nodes up, a device of the same user on each. */
  function TwoLogins(n: string, m: string, s: Socket, t: Socket, u: string, d: string, e: string): seq<Step> {
    [Boot(n)] + [Boot(m)] + Enter(n, s, u, d) + Enter(m, t, u, e)
  }

  function TwoIn(n: string, m: string, s: Socket, t: Socket, u: string, d: string, e: string,
                 orgOf: string -> string): System {
    LoggedIn(LoggedIn(Idle(map[n := NOBODY][m := NOBODY]), n, s, u, d, orgOf), m, t, u, e, orgOf)
  }

  lemma TwoLoginsRun(n: string, m: string, s: Socket, t: Socket, u: string, d: string, e: string,
                     orgOf: string -> string)
    requires n != m
    ensures Run(START, TwoLogins(n, m, s, t, u, d, e), orgOf) == TwoIn(n, m, s, t, u, d, e, orgOf)
  {
    var up := Idle(map[n := NOBODY][m := NOBODY]);
    BootRun(START, n, orgOf);
    BootRun(Idle(map[n := NOBODY]), m, orgOf);
    RunConcat(START, [Boot(n)], [Boot(m)], orgOf);
    RunConcat(START, [Boot(n)] + [Boot(m)], Enter(n, s, u, d), orgOf);
    EnterRun(up, n, s, u, d, orgOf);
    RunConcat(START, [Boot(n)] + [Boot(m)] + Enter(n, s, u, d), Enter(m, t, u, e), orgOf);
    EnterRun(LoggedIn(up, n, s, u, d, orgOf), m, t, u, e, orgOf);
  }

  /** One more step after a run. */
  lemma RunThen(es: seq<Step>, sys: System, e: Step, orgOf: string -> string)
    requires Run(START, es, orgOf) == sys
    ensures Run(START, es + [e], orgOf) == Apply(sys, e, orgOf)
  {
    RunConcat(START, es, [e], orgOf);
    RunOne(sys, e, orgOf);
  }

  /** A device that moves to another node before its old socket closes is lost when that socket closes. */
  lemma MovedDeviceLost(n: string, m: string, s: Socket, t: Socket, u: string, d: string, orgOf: string -> string)
    requires n != m && d != ""
    ensures var sys := Run(START, TwoLogins(n, m, s, t, u, d, d) + [Close(n, s)], orgOf);
      Lost(sys, m, u, d) && (d != HTTP_DEVICE_ID ==> !Agree(sys))
  {
    TwoLoginsRun(n, m, s, t, u, d, d, orgOf);
    RunThen(TwoLogins(n, m, s, t, u, d, d), TwoIn(n, m, s, t, u, d, d, orgOf), Close(n, s), orgOf);
    MovedState(Idle(map[n := NOBODY][m := NOBODY]), n, m, s, t, u, d, orgOf);
    LostDisagrees(Apply(TwoIn(n, m, s, t, u, d, d, orgOf), Close(n, s), orgOf), m, u, d);
  }

  lemma DeletedState(n: string, m: string, s: Socket, t: Socket, u: string, d: string, e: string,
                     orgOf: string -> string)
    requires n != m
    ensures Lost(Apply(TwoIn(n, m, s, t, u, d, e, orgOf), DeleteUser(n, s), orgOf), m, u, e)
  {
    var up := Idle(map[n := NOBODY][m := NOBODY]);
    var one := LoggedIn(up, n, s, u, d, orgOf);
    FirstLogin(up, n, s, u, d, orgOf);
    FirstLogin(one, m, t, u, e, orgOf);
    assert e in TwoIn(n, m, s, t, u, d, e, orgOf).registry.Devices(orgOf(u), u);
  }

  /** Deleting a user on one node loses the user's device on another. */
  lemma DeletedElsewhereLost(n: string, m: string, s: Socket, t: Socket, u: string, d: string, e: string,
                             orgOf: string -> string)
    requires n != m
    ensures var sys := Run(START, TwoLogins(n, m, s, t, u, d, e) + [DeleteUser(n, s)], orgOf);
      Lost(sys, m, u, e) && (e != HTTP_DEVICE_ID ==> !Agree(sys))
  {
    TwoLoginsRun(n, m, s, t, u, d, e, orgOf);
    RunThen(TwoLogins(n, m, s, t, u, d, e), TwoIn(n, m, s, t, u, d, e, orgOf), DeleteUser(n, s), orgOf);
    DeletedState(n, m, s, t, u, d, e, orgOf);
    LostDisagrees(Apply(TwoIn(n, m, s, t, u, d, e, orgOf), DeleteUser(n, s), orgOf), m, u, e);
  }

  /** After the first two calls of a second login of the same device: everything in place, and a drop to come. */
  lemma EnteredTwice(sys: System, n: string, s: Socket, u: string, d: string, orgOf: string -> string)
    requires n in sys.locals && Tables(sys.locals[n]) && DeviceOf(sys.locals[n], s, u) == Some(d)
    requires sys.arriving == sys.leaving == {}
    ensures var two := LoggedIn(sys, n, s, u, d, orgOf);
      n in two.locals && d in two.locals[n].Connected(u) && two.arriving == {} && two.leaving == {Place(n, u, d)}
  {
    var added := AddStep(sys, n, s, orgOf(u), u, d);
    AddConnected(sys.locals[n], s, orgOf(u), u, d, u, d);
    assert StoreStep(added, n, s, orgOf(u), u, d).locals[n].devices == added.locals[n].devices;
  }

  lemma DroppedState(sys: System, n: string, u: string, d: string, orgOf: string -> string)
    requires n in sys.locals && d in sys.locals[n].Connected(u) && sys.arriving == {} && sys.leaving == {Place(n, u, d)}
    ensures Lost(Apply(sys, Dropping(n, u, d), orgOf), n, u, d)
  {
    RemoveAllOwner(sys.registry, n, sys.locals[n].Connected(u), orgOf(u), u, d, u, d);
  }

  /** One node up, one socket logged in. */
  lemma OneLogin(n: string, s: Socket, u: string, d: string, orgOf: string -> string)
    ensures Run(START, [Boot(n)] + Enter(n, s, u, d), orgOf) == LoggedIn(Idle(map[n := NOBODY]), n, s, u, d, orgOf)
  {
    BootRun(START, n, orgOf);
    RunConcat(START, [Boot(n)], Enter(n, s, u, d), orgOf);
    EnterRun(Idle(map[n := NOBODY]), n, s, u, d, orgOf);
  }

  /** A device that logs in twice on the same socket is lost: the second login drops what it has just stored. */
  lemma SecondLoginLost(n: string, s: Socket, u: string, d: string, orgOf: string -> string)
    ensures var sys := Run(START, [Boot(n)] + Enter(n, s, u, d) + Enter(n, s, u, d) + [Dropping(n, u, d)], orgOf);
      Lost(sys, n, u, d) && (d != HTTP_DEVICE_ID ==> !Agree(sys))
  {
    var one := LoggedIn(Idle(map[n := NOBODY]), n, s, u, d, orgOf);
    var two := LoggedIn(one, n, s, u, d, orgOf);
    OneLogin(n, s, u, d, orgOf);
    FirstLogin(Idle(map[n := NOBODY]), n, s, u, d, orgOf);
    RunConcat(START, [Boot(n)] + Enter(n, s, u, d), Enter(n, s, u, d), orgOf);
    EnterRun(one, n, s, u, d, orgOf);
    RunThen([Boot(n)] + Enter(n, s, u, d) + Enter(n, s, u, d), two, Dropping(n, u, d), orgOf);
    EnteredTwice(one, n, s, u, d, orgOf);
    DroppedState(two, n, u, d, orgOf);
    LostDisagrees(Apply(two, Dropping(n, u, d), orgOf), n, u, d);
  }

  /** A live node that is cleaned loses its devices. */
  lemma LiveNodeCleaned(n: string, s: Socket, u: string, d: string, orgOf: string -> string)
    requires ColonFree(u) && ColonFree(orgOf(u)) && ColonFree(d)
    ensures var sys := Run(START, [Boot(n)] + Enter(n, s, u, d) + [CleanNode(n)], orgOf);
      Lost(sys, n, u, d) && (d != HTTP_DEVICE_ID ==> !Agree(sys))
  {
    var up := Idle(map[n := NOBODY]);
    var one := LoggedIn(up, n, s, u, d, orgOf);
    OneLogin(n, s, u, d, orgOf);
    FirstLogin(up, n, s, u, d, orgOf);
    RunThen([Boot(n)] + Enter(n, s, u, d), one, CleanNode(n), orgOf);
    ReadsAsCut(one.registry, n, u, d, orgOf);
    SplitWhole(d, ':');
    ClearNodeReads(one.registry, n, n, u, d);
    LostDisagrees(Apply(one, CleanNode(n), orgOf), n, u, d);
  }

  /** A member reads as its device's id cut at the first colon. */
  lemma ReadsAsCut(r: Registry, n: string, u: string, d: string, orgOf: string -> string)
    requires ColonFree(u) && ColonFree(orgOf(u)) && Enlisted(r, n, orgOf(u), u, d)
    ensures ReadsAs(r, n, u, Split(d, ':')[0])
  {
    ParseMember(orgOf(u), u, d);
    assert Member(orgOf(u), u, d) in r.Members(n);
  }

  lemma TwoInState(n: string, m: string, s: Socket, t: Socket, u: string, d: string, e: string, orgOf: string -> string)
    requires n != m && d != e
    ensures var sys := TwoIn(n, m, s, t, u, d, e, orgOf);
      && Enlisted(sys.registry, n, orgOf(u), u, d) && m in sys.locals && e in sys.locals[m].Connected(u)
      && sys.arriving == {} && sys.leaving == {}
  {
    var up := Idle(map[n := NOBODY][m := NOBODY]);
    var one := LoggedIn(up, n, s, u, d, orgOf);
    FirstLogin(up, n, s, u, d, orgOf);
    FirstLogin(one, m, t, u, e, orgOf);
  }

  lemma TakenState(sys: System, n: string, m: string, u: string, d: string, orgOf: string -> string)
    requires n != m && ColonFree(u) && ColonFree(orgOf(u)) && Enlisted(sys.registry, n, orgOf(u), u, d)
    requires m in sys.locals && Split(d, ':')[0] in sys.locals[m].Connected(u) && sys.arriving == sys.leaving == {}
    ensures Lost(Apply(Apply(sys, Crash(n), orgOf), CleanNode(n), orgOf), m, u, Split(d, ':')[0])
  {
    ReadsAsCut(sys.registry, n, u, d, orgOf);
    ClearNodeReads(sys.registry, n, n, u, Split(d, ':')[0]);
  }

  /** The cleanup of a dead node that had a device with a colon in its id takes the entry of a live node's device
      that has the part before the colon as its id. */
  lemma ForeignEntryTaken(n: string, m: string, s: Socket, t: Socket, u: string, d: string, orgOf: string -> string)
    requires n != m && ColonFree(u) && ColonFree(orgOf(u)) && !ColonFree(d) && Split(d, ':')[0] != HTTP_DEVICE_ID
    ensures var e := Split(d, ':')[0];
            var sys := Run(START, TwoLogins(n, m, s, t, u, d, e) + [Crash(n)] + [CleanNode(n)], orgOf);
      Lost(sys, m, u, e) && !Agree(sys)
  {
    var e := Split(d, ':')[0];
    var two := TwoIn(n, m, s, t, u, d, e, orgOf);
    TwoLoginsRun(n, m, s, t, u, d, e, orgOf);
    RunThen(TwoLogins(n, m, s, t, u, d, e), two, Crash(n), orgOf);
    RunThen(TwoLogins(n, m, s, t, u, d, e) + [Crash(n)], Apply(two, Crash(n), orgOf), CleanNode(n), orgOf);
    assert d != e;
    TwoInState(n, m, s, t, u, d, e, orgOf);
    TakenState(two, n, m, u, d, orgOf);
    LostDisagrees(Apply(Apply(two, Crash(n), orgOf), CleanNode(n), orgOf), m, u, e);
  }

  /** A device whose socket closes between the two calls is stored all the same, on a node that does not hold it. */
  lemma StoredWithoutGround(n: string, s: Socket, u: string, d: string, orgOf: string -> string)
    requires d != "" && d != HTTP_DEVICE_ID
    ensures var sys := Run(START, [Boot(n)] + [Adding(n, s, u, d)] + [Close(n, s)] + [Storing(n, s, u, d)], orgOf);
      && n in sys.locals && sys.registry.NodeOf(u, d) == Some(n) && d !in sys.locals[n].Connected(u)
      && sys.arriving == {} && sys.leaving == {} && !Anchored(sys)
  {
    var up := Idle(map[n := NOBODY]);
    BootRun(START, n, orgOf);
    var added := Apply(up, Adding(n, s, u, d), orgOf);
    var closed := Apply(added, Close(n, s), orgOf);
    RunThen([Boot(n)], up, Adding(n, s, u, d), orgOf);
    RunThen([Boot(n)] + [Adding(n, s, u, d)], added, Close(n, s), orgOf);
    RunThen([Boot(n)] + [Adding(n, s, u, d)] + [Close(n, s)], closed, Storing(n, s, u, d), orgOf);
    ClosedAtOnce(up, n, s, u, d, orgOf);
    StoreOwner(closed.registry, n, closed.locals[n].Connected(u), orgOf(u), u, d, u, d);
    var sys := Apply(closed, Storing(n, s, u, d), orgOf);
    assert sys.locals[n].devices == closed.locals[n].devices;
    assert !AnchoredAt(sys, u, d);
  }

  /** A first connection, and its removal at once. */
  lemma FirstConnection(s: Socket, o: string, u: string, d: string)
    ensures var l := Add(NOBODY, s, o, u, d);
      && Tables(l) && s in l.sessions && l.sessions[s].user == u && DeviceOf(l, s, u) == Some(d)
      && d !in Remove(l, s, u, Some(d)).Connected(u)
  {
    var l := Add(NOBODY, s, o, u, d);
    assert NOBODY.Connections(u) == [];
    AddContents(NOBODY, s, o, u, d);
    assert l.Connections(u) == [Connection(s, d, o)];
    RemoveTables(l, s, u, Some(d));
  }

  lemma ClosedAtOnce(sys: System, n: string, s: Socket, u: string, d: string, orgOf: string -> string)
    requires n in sys.locals && sys.locals[n] == NOBODY && sys.arriving == sys.leaving == {}
    ensures var closed := Apply(Apply(sys, Adding(n, s, u, d), orgOf), Close(n, s), orgOf);
      n in closed.locals && d !in closed.locals[n].Connected(u) && closed.arriving == {Place(n, u, d)} && closed.leaving == {}
  {
    FirstConnection(s, orgOf(u), u, d);
    var added := AddStep(sys, n, s, orgOf(u), u, d);
    assert NOBODY.Connections(u) == [];
    assert CloseStep(added, n, s).locals[n] == Remove(added.locals[n], s, u, Some(d));
  }

  /** Between the store and the drop of a login, the device the socket held before is registered on a node that
      does not hold it. */
  lemma RegisteredNotHeld(n: string, s: Socket, u: string, d: string, d': string, orgOf: string -> string)
    requires d != d'
    ensures var sys := Run(START, [Boot(n)] + Enter(n, s, u, d) + Enter(n, s, u, d'), orgOf);
      && n in sys.locals && sys.registry.NodeOf(u, d) == Some(n) && d !in sys.locals[n].Connected(u)
      && sys.leaving == {Place(n, u, d)}
  {
    var one := LoggedIn(Idle(map[n := NOBODY]), n, s, u, d, orgOf);
    OneLogin(n, s, u, d, orgOf);
    FirstLogin(Idle(map[n := NOBODY]), n, s, u, d, orgOf);
    RunConcat(START, [Boot(n)] + Enter(n, s, u, d), Enter(n, s, u, d'), orgOf);
    EnterRun(one, n, s, u, d', orgOf);
    UnlistedAfterFirst(n, s, u, d, d', orgOf);
    SwitchedState(one, n, s, u, d, d', orgOf);
  }

  lemma SwitchedState(sys: System, n: string, s: Socket, u: string, d: string, d': string, orgOf: string -> string)
    requires n in sys.locals && Tables(sys.locals[n]) && DeviceOf(sys.locals[n], s, u) == Some(d) && d != d' && sys.leaving == {}
    requires (orgOf(u), u, d') !in sys.registry.userDevices && sys.registry.NodeOf(u, d) == Some(n)
    ensures var sys' := LoggedIn(sys, n, s, u, d', orgOf);
      && n in sys'.locals && sys'.registry.NodeOf(u, d) == Some(n) && d !in sys'.locals[n].Connected(u)
      && sys'.leaving == {Place(n, u, d)}
  {
    var added := Apply(sys, Adding(n, s, u, d'), orgOf);
    AddConnected(sys.locals[n], s, orgOf(u), u, d', u, d);
    StoreOwner(sys.registry, n, added.locals[n].Connected(u), orgOf(u), u, d', u, d);
    assert LoggedIn(sys, n, s, u, d', orgOf).locals[n].devices == added.locals[n].devices;
  }

  lemma UnlistedAfterFirst(n: string, s: Socket, u: string, d: string, d': string, orgOf: string -> string)
    requires d != d'
    ensures (orgOf(u), u, d') !in LoggedIn(Idle(map[n := NOBODY]), n, s, u, d, orgOf).registry.userDevices
  {
  }

  /** After a device with a colon in its id has logged in, the cleanup of its node leaves it listed, owned by the
      node, and in no node's set. */
  lemma ColonLeftBehind(n: string, s: Socket, u: string, d: string, orgOf: string -> string)
    requires ColonFree(u) && ColonFree(orgOf(u)) && !ColonFree(d)
    ensures var r := Run(START, [Boot(n)] + Enter(n, s, u, d) + [CleanNode(n)], orgOf).registry;
      && !Inv(r, orgOf) && (orgOf(u), u, d) in r.userDevices && r.NodeOf(u, d) == Some(n) && r.Members(n) == {}
  {
    var up := Idle(map[n := NOBODY]);
    var one := LoggedIn(up, n, s, u, d, orgOf);
    OneLogin(n, s, u, d, orgOf);
    FirstLogin(up, n, s, u, d, orgOf);
    RunConcat(START, [Boot(n)] + Enter(n, s, u, d), [CleanNode(n)], orgOf);
    RunOne(one, CleanNode(n), orgOf);
    var connected := Apply(up, Adding(n, s, u, d), orgOf).locals[n].Connected(u);
    ColonState(n, connected, u, d, orgOf);
  }

  /** A node that restarts after having had such a device is named by an entry for a device it does not hold. */
  lemma LeftBehindAtBoot(n: string, s: Socket, u: string, d: string, orgOf: string -> string)
    requires ColonFree(u) && ColonFree(orgOf(u)) && !ColonFree(d) && d != HTTP_DEVICE_ID
    ensures var sys := Run(START, [Boot(n)] + Enter(n, s, u, d) + [Crash(n)] + [Boot(n)], orgOf);
      sys.registry.NodeOf(u, d) == Some(n) && n in sys.locals && sys.locals[n] == NOBODY && !Agree(sys)
  {
    var up := Idle(map[n := NOBODY]);
    var one := LoggedIn(up, n, s, u, d, orgOf);
    OneLogin(n, s, u, d, orgOf);
    FirstLogin(up, n, s, u, d, orgOf);
    RunThen([Boot(n)] + Enter(n, s, u, d), one, Crash(n), orgOf);
    RunThen([Boot(n)] + Enter(n, s, u, d) + [Crash(n)], Apply(one, Crash(n), orgOf), Boot(n), orgOf);
    ColonState(n, Apply(up, Adding(n, s, u, d), orgOf).locals[n].Connected(u), u, d, orgOf);
    assert NOBODY.Connections(u) == [];
    assert !AgreeAt(Apply(Apply(one, Crash(n), orgOf), Boot(n), orgOf), n, u, d);
  }

  lemma ColonState(n: string, connected: set<string>, u: string, d: string, orgOf: string -> string)
    requires ColonFree(u) && ColonFree(orgOf(u)) && !ColonFree(d)
    ensures var r := ClearNode(Store(EMPTY, n, connected, orgOf(u), u, d), n);
      && !Inv(r, orgOf) && (orgOf(u), u, d) in r.userDevices && r.NodeOf(u, d) == Some(n) && r.Members(n) == {}
  {
    var r := Store(EMPTY, n, connected, orgOf(u), u, d);
    StoreInv(EMPTY, n, connected, orgOf(u), u, d, orgOf);
    StoreOwner(EMPTY, n, connected, orgOf(u), u, d, u, d);
    ClearNodeConsistentIff(r, n, orgOf);
    forall m | m in r.Members(n) ensures Parse(m).2 != d {}
  }
}
