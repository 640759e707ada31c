/** `SessionService`: the calls themselves, with the loops and the order of Redis commands they have, each
    proved to do to the tables and to the registry what its specification function says. */
module SessionServices {
  import opened Text
  import opened SessionRegistry
  import opened LocalSessions
  import opened ClusterSessions

  /** The Redis instance all nodes share. */
  class RedisClient {
    var state: Registry

    constructor ()
      ensures state == EMPTY
    {
      state := EMPTY;
    }
  }

  /** `sMembers`: the members of a set in whatever order Redis gives them. */
  method SMembers<T(==)>(members: set<T>) returns (order: seq<T>)
    ensures Distinct(order)
    ensures forall x :: x in order <==> x in members
  {
    order := [];
    var left := members;
    while left != {}
      invariant left <= members
      invariant Distinct(order)
      invariant forall x :: x in order <==> x in members && x !in left
    {
      var x :| x in left;
      order := order + [x];
      left := left - {x};
    }
  }

  /** `filter` over a connection list (services/session/index.js:28-30). */
  method OtherConnections(cs: seq<Connection>, a: Option<Connection>,
                          b: Option<Connection>) returns (others: seq<Connection>)
    ensures others == Except(cs, a, b)
  {
    others := [];
    for i := 0 to |cs|
      invariant others == Except(cs[..i], a, b)
    {
      assert cs[..i + 1][..i] == cs[..i];
      if Some(cs[i]) != a && Some(cs[i]) != b {
        others := others + [cs[i]];
      }
    }
    assert cs[..|cs|] == cs;
  }

  class SessionService {
    const endpoint: string
    const isStandAlone: bool
    const redis: RedisClient
    var sessions: map<Socket, Session>
    var devices: map<string, seq<Connection>>

    constructor (endpoint: string, isStandAlone: bool, redis: RedisClient)
      ensures this.endpoint == endpoint && this.isStandAlone == isStandAlone && this.redis == redis
      ensures View() == NOBODY
    {
      this.endpoint, this.isStandAlone, this.redis := endpoint, isStandAlone, redis;
      sessions, devices := map[], map[];
    }

    ghost function View(): Local
      reads this
    {
      Local(sessions, devices)
    }

    function GetUserDevices(u: string): (cs: seq<Connection>)
      reads this
      ensures cs == View().Connections(u)
    {
      if u in devices then devices[u] else []
    }

    method AddUserDeviceConnection(s: Socket, o: string, u: string, d: string)
      returns (sameDevice: Option<Connection>, sameSocket: Option<Connection>)
      modifies this
      ensures View() == Add(old(View()), s, o, u, d)
      ensures sameSocket == FindSocket(old(View()).Connections(u), s)
      ensures sameDevice == FindDevice(old(View()).Connections(u), d)
    {
      var active := GetUserDevices(u);
      sameSocket, sameDevice := FindSocket(active, s), FindDevice(active, d);
      var others := OtherConnections(active, sameSocket, sameDevice);
      devices := devices[u := others + [Connection(s, d, o)]];
      sessions := sessions[s := Session(o, u, d, None, false)];
    }

    /** Untracks the given devices that are not actual and returns the others. */
    method FilterActualDeviceIds(o: string, u: string, ids: seq<string>) returns (actual: set<string>)
      modifies redis
      ensures forall d :: d in actual <==> d in ids && Actual(old(redis.state), endpoint, View().Connected(u), u, d)
      ensures forall d :: d in ids && d !in actual ==> (o, u, d) !in redis.state.userDevices && redis.state.NodeOf(u, d) == None
      ensures forall d :: d in actual ==> redis.state.NodeOf(u, d) == old(redis.state).NodeOf(u, d)
      ensures redis.state == UntrackAll(old(redis.state), endpoint, o, u,
                set d | d in ids && !Actual(old(redis.state), endpoint, View().Connected(u), u, d))
    {
      ghost var r, connected := redis.state, View().Connected(u);
      actual := set d | d in ids;
      ghost var done: set<string> := {};
      for i := 0 to |ids|
        invariant View().Connected(u) == connected
        invariant done == set d | d in ids[..i] && Stale(r, endpoint, connected, u, d)
        invariant actual == (set d | d in ids) - done
        invariant redis.state == UntrackAll(r, endpoint, o, u, done)
      {
        var d := ids[i];
        var node := redis.state.NodeOf(u, d);
        var hasConnection := FindDevice(GetUserDevices(u), d).Some?;
        assert Stale(redis.state, endpoint, connected, u, d) == Stale(r, endpoint, connected, u, d);
        assert ids[..i + 1] == ids[..i] + [d];
        if node == None || (node == Some(endpoint) && !hasConnection) {
          actual := actual - {d};
          UntrackOneMore(r, endpoint, o, u, done, d);
          redis.state := Untrack(redis.state, endpoint, o, u, d);
          done := done + {d};
        }
      }
      assert ids[..|ids|] == ids;
    }

    /** `listUserDevice`; a stand-alone node lists its own non-HTTP connections. */
    method ListUserDevice(o: string, u: string, filterActual: bool) returns (ids: set<string>)
      modifies redis
      ensures isStandAlone ==> ids == View().Connected(u) - {HTTP_DEVICE_ID} && redis.state == old(redis.state)
      ensures !isStandAlone && !filterActual ==> ids == redis.state.Devices(o, u) && redis.state == old(redis.state)
      ensures !isStandAlone && filterActual ==>
                redis.state == Prune(old(redis.state), endpoint, View().Connected(u), o, u) && ids == redis.state.Devices(o, u)
      ensures !isStandAlone && filterActual ==> forall d :: d in ids <==>
                (o, u, d) in old(redis.state).userDevices && Actual(old(redis.state), endpoint, View().Connected(u), u, d)
    {
      if isStandAlone {
        ids := (set c | c in GetUserDevices(u) :: c.deviceId) - {HTTP_DEVICE_ID};
        return;
      }
      ids := redis.state.Devices(o, u);
      if filterActual {
        ghost var r := redis.state;
        var order := SMembers(ids);
        ids := FilterActualDeviceIds(o, u, order);
        ghost var connected := View().Connected(u);
        assert (set d | d in order && Stale(r, endpoint, connected, u, d)) == StaleDevices(r, endpoint, connected, o, u);
      }
    }

    method RemoveAllUserDeviceData(o: string, u: string, d: string) returns (isLast: bool)
      modifies redis
      ensures isStandAlone ==>
                redis.state == RemoveDevice(old(redis.state), endpoint, o, u, d) && isLast == (View().Connected(u) - {HTTP_DEVICE_ID} == {})
      ensures !isStandAlone ==>
                && redis.state == RemoveAll(old(redis.state), endpoint, View().Connected(u), o, u, d)
                && isLast == (redis.state.Devices(o, u) == {})
    {
      redis.state := redis.state.(userDevices := redis.state.userDevices - {(o, u, d)});
      var node := redis.state.NodeOf(u, d);
      redis.state := redis.state.(nodeField := redis.state.nodeField - {(u, d)}, inactive := redis.state.inactive - {(u, d)});
      var owner := match node case Some(n) => n case None => endpoint;
      redis.state := redis.state.(nodeUsers := redis.state.nodeUsers - {(owner, Member(o, u, d))});
      var left := ListUserDevice(o, u, true);
      isLast := left == {};
    }

    method StoreUserNodeData(s: Socket, o: string, u: string, d: string)
      modifies this, redis
      ensures View() == SetNode(old(View()), s, endpoint)
      ensures redis.state == if isStandAlone then old(redis.state)
                             else Store(old(redis.state), endpoint, View().Connected(u), o, u, d)
    {
      if s in sessions {
        sessions := sessions[s := sessions[s].(node := Some(endpoint))];
      }
      if isStandAlone {
        return;
      }
      var ids := ListUserDevice(o, u, false);
      if d in ids {
        var _ := RemoveAllUserDeviceData(o, u, d);
      }
      redis.state := Track(redis.state, endpoint, o, u, d);
    }

    /** The login and connect operations, from the lookup of the user on. A stand-alone node stores nothing, but
        drops the device the socket held before from the registry like any other. */
    method Login(s: Socket, o: string, u: string, d: string)
      modifies this, redis
      ensures View() == LoginLocal(old(View()), endpoint, s, o, u, d)
      ensures !isStandAlone ==> redis.state == LoginRegistry(old(redis.state), old(View()), endpoint, s, o, u, d)
      ensures isStandAlone ==> redis.state == match DeviceOf(old(View()), s, u)
                                              case Some(before) => RemoveDevice(old(redis.state), endpoint, o, u, before)
                                              case None => old(redis.state)
    {
      var _, sameSocket := AddUserDeviceConnection(s, o, u, d);
      StoreUserNodeData(s, o, u, d);
      if sameSocket.Some? {
        var _ := RemoveAllUserDeviceData(o, u, sameSocket.value.deviceId);
      }
    }

    method ListUserData(o: string, u: string) returns (data: map<string, Extra>)
      ensures data == UserData(redis.state, View(), isStandAlone, o, u)
      ensures !isStandAlone ==> forall d :: d in data <==> (o, u, d) in redis.state.userDevices
      ensures !isStandAlone ==> forall d :: d in data ==>
                data[d].node == redis.state.NodeOf(u, d) && (data[d].inactive <==> (u, d) in redis.state.inactive)
    {
      data := map[];
      if isStandAlone {
        var cs := GetUserDevices(u);
        for i := 0 to |cs|
          invariant data == LocalData(View(), cs[..i])
        {
          assert cs[..i + 1][..i] == cs[..i];
          if cs[i].deviceId == HTTP_DEVICE_ID || cs[i].socket !in sessions {
            continue;
          }
          var session := sessions[cs[i].socket];
          data := data[cs[i].deviceId := Extra(session.node, session.inactive)];
        }
        assert cs[..|cs|] == cs;
        return;
      }
      var order := SMembers(redis.state.Devices(o, u));
      for i := 0 to |order|
        invariant data.Keys == SetOf(order[..i])
        invariant forall d :: d in data ==> data[d] == Extra(redis.state.NodeOf(u, d), (u, d) in redis.state.inactive)
      {
        assert order[..i + 1] == order[..i] + [order[i]];
        data := data[order[i] := Extra(redis.state.NodeOf(u, order[i]), (u, order[i]) in redis.state.inactive)];
      }
      assert order[..|order|] == order;
    }

    /** Removes a dead node's devices and names the users who have none left; `order` is the order in which
        Redis listed the node's members. */
    method ClearNodeUsersSession(n: string) returns (lastSessions: Option<seq<(string, string, string)>>, ghost order: seq<string>)
      modifies redis
      ensures isStandAlone ==> lastSessions == None && redis.state == old(redis.state)
      ensures !isStandAlone ==>
                && redis.state == ClearNode(old(redis.state), n)
                && Distinct(order) && (forall m :: m in order <==> m in old(redis.state).Members(n))
                && lastSessions == Some(Reported(old(redis.state).userDevices, ParseAll(order)))
    {
      order := [];
      if isStandAlone {
        return None, order;
      }
      ghost var r := redis.state;
      var members := SMembers(redis.state.Members(n));
      order := members;
      var reported := RemoveMembers(members);
      assert (SetOf(ParseAll(members))) == set m | m in r.Members(n) :: Parse(m);
      redis.state := redis.state.(nodeUsers := set p | p in redis.state.nodeUsers && p.0 != n);
      lastSessions := Some(reported);
    }

    /** The loop of the cleanup (services/session/index.js:315-318). */
    method RemoveMembers(members: seq<string>) returns (reported: seq<(string, string, string)>)
      requires !isStandAlone
      modifies redis
      ensures redis.state == Forget(old(redis.state), SetOf(ParseAll(members)))
      ensures reported == Reported(old(redis.state).userDevices, ParseAll(members))
    {
      ghost var r := redis.state;
      ghost var gone: set<(string, string, string)> := {};
      reported := [];
      assert Forget(r, gone) == r;
      for i := 0 to |members|
        invariant gone == SetOf(ParseAll(members[..i]))
        invariant redis.state == Forget(r, gone)
        invariant reported == Reported(r.userDevices, ParseAll(members[..i]))
      {
        var t := Parse(members[i]);
        ParseOneMore(members, i);
        ForgetOneMore(r, gone, t);
        var isLast := RemoveUserData(t.0, t.1, t.2);
        gone := gone + {t};
        if isLast {
          reported := reported + [t];
        }
      }
      assert members[..|members|] == members;
    }

    method RemoveUserData(o: string, u: string, d: string) returns (isLast: bool)
      modifies redis
      ensures redis.state == ForgetOne(old(redis.state), (o, u, d))
      ensures !isStandAlone ==> isLast == !AnyOf(redis.state.userDevices, o, u)
    {
      redis.state := redis.state.(userDevices := redis.state.userDevices - {(o, u, d)});
      var left := ListUserDevice(o, u, false);
      isLast := left == {};
      redis.state := redis.state.(nodeField := redis.state.nodeField - {(u, d)}, inactive := redis.state.inactive - {(u, d)});
      if t :| t in redis.state.userDevices && t.0 == o && t.1 == u {
        assert t.2 in redis.state.Devices(o, u);
      }
    }

    /** No owner, listing, connection or other mark changes; the socket's session, and the hash of its own device
        unless the node is stand-alone, say the new state. */
    method SetSessionInactiveState(s: Socket, isInactive: bool)
      requires s in sessions
      modifies this, redis
      ensures View() == SetInactive(old(View()), s, isInactive)
      ensures redis.state == if isStandAlone then old(redis.state) else
                MarkInactive(old(redis.state), old(sessions)[s].user, DeviceKey(old(View()), s, old(sessions)[s].user), isInactive)
      ensures forall u, d :: redis.state.NodeOf(u, d) == old(redis.state).NodeOf(u, d)
      ensures redis.state.userDevices == old(redis.state).userDevices && devices == old(devices)
      ensures sessions.Keys == old(sessions).Keys && sessions[s].inactive == isInactive
      ensures forall d :: !isStandAlone && DeviceOf(old(View()), s, old(sessions)[s].user) == Some(d) ==>
                ((old(sessions)[s].user, d) in redis.state.inactive <==> isInactive)
    {
      var u := sessions[s].user;
      var found := FindSocket(GetUserDevices(u), s);
      var key := match found case Some(c) => c.deviceId case None => if u in devices then "undefined" else "null";
      sessions := sessions[s := sessions[s].(inactive := isInactive)];
      if !isStandAlone {
        if isInactive {
          redis.state := redis.state.(inactive := redis.state.inactive + {(u, key)});
        } else {
          redis.state := redis.state.(inactive := redis.state.inactive - {(u, key)});
        }
      }
    }

    method RemoveAllUserSessions(s: Socket)
      modifies this, redis
      ensures s !in old(sessions) ==> View() == old(View()) && redis.state == old(redis.state)
      ensures s in old(sessions) ==>
                && View() == RemoveUserConnections(old(View()), s, old(sessions)[s].user)
                && redis.state == (if isStandAlone then old(redis.state)
                                   else RemoveUser(old(redis.state), old(sessions)[s].org, old(sessions)[s].user))
    {
      if s !in sessions {
        return;
      }
      var u, o := sessions[s].user, sessions[s].org;
      devices := devices - {u};
      sessions := sessions - {s};
      if isStandAlone {
        return;
      }
      ghost var r := redis.state;
      var ids := SMembers(redis.state.Devices(o, u));
      for i := 0 to |ids|
        modifies redis
        invariant redis.state == r.(nodeUsers := r.nodeUsers -
          (set d | d in ids[..i] && (u, d) in r.nodeField :: (r.nodeField[(u, d)], Member(o, u, d))))
      {
        assert ids[..i + 1] == ids[..i] + [ids[i]];
        var node := redis.state.NodeOf(u, ids[i]);
        if node.Some? {
          redis.state := redis.state.(nodeUsers := redis.state.nodeUsers - {(node.value, Member(o, u, ids[i]))});
        }
      }
      assert ids[..|ids|] == ids;
      assert redis.state.nodeUsers == RemoveUser(r, o, u).nodeUsers;
      ghost var r1 := redis.state;
      ids := SMembers(redis.state.Devices(o, u));
      for i := 0 to |ids|
        modifies redis
        invariant redis.state == r1.(nodeField := r1.nodeField - (set d | d in ids[..i] :: (u, d)),
                                     inactive := r1.inactive - (set d | d in ids[..i] :: (u, d)))
      {
        assert ids[..i + 1] == ids[..i] + [ids[i]];
        redis.state := redis.state.(nodeField := redis.state.nodeField - {(u, ids[i])}, inactive := redis.state.inactive - {(u, ids[i])});
      }
      assert ids[..|ids|] == ids;
      assert (set d | d in ids :: (u, d)) == (set d | d in r.Devices(o, u) :: (u, d));
      redis.state := redis.state.(userDevices := set t | t in redis.state.userDevices && !(t.0 == o && t.1 == u));
      assert redis.state.userDevices == RemoveUser(r, o, u).userDevices;
    }

    /** A missing user or device id is looked up from the socket; the result says whether the user has no
        connection left, on this node when the registry is not asked, and anywhere otherwise. */
    method RemoveUserSession(s: Socket, userId: Option<string>, deviceId: Option<string>) returns (isLast: bool)
      modifies this, redis
      ensures var u := match userId case Some(u) => u case None => if s in old(sessions) then old(sessions)[s].user else "null";
              var d := if deviceId.Some? then deviceId else DeviceOf(old(View()), s, u);
              var o := if s in old(sessions) then old(sessions)[s].org else "undefined";
              && View() == Remove(old(View()), s, u, d)
              && (isStandAlone || d in {None, Some("")} ==>
                    redis.state == old(redis.state) && isLast == (View().Connections(u) == []))
              && (!isStandAlone && d !in {None, Some("")} ==>
                    && redis.state == RemoveAll(old(redis.state), endpoint, View().Connected(u), o, u, d.value)
                    && isLast == (redis.state.Devices(o, u) == {}))
    {
      var u := match userId case Some(u) => u case None => if s in sessions then sessions[s].user else "null";
      var found := FindSocket(GetUserDevices(u), s);
      var d := if deviceId.Some? then deviceId else match found case Some(c) => Some(c.deviceId) case None => None;
      var o := if s in sessions then sessions[s].org else "undefined";
      var left := KeepOtherDevices(GetUserDevices(u), d);
      isLast := left == [];
      devices := if left != [] then devices[u := left] else devices - {u};
      sessions := sessions - {s};
      if d == None || d == Some("") || isStandAlone {
        return;
      }
      isLast := RemoveAllUserDeviceData(o, u, d.value);
    }
  }

  /** `filter` over a connection list (services/session/index.js:434). */
  method KeepOtherDevices(cs: seq<Connection>, d: Option<string>) returns (left: seq<Connection>)
    ensures left == WithoutDevice(cs, d)
  {
    left := [];
    for i := 0 to |cs|
      invariant left == WithoutDevice(cs[..i], d)
    {
      assert cs[..i + 1][..i] == cs[..i];
      if Some(cs[i].deviceId) != d {
        left := left + [cs[i]];
      }
    }
    assert cs[..|cs|] == cs;
  }

  function ParseAll(ms: seq<string>): (ts: seq<(string, string, string)>)
    ensures |ts| == |ms| && forall i :: 0 <= i < |ms| ==> ts[i] == Parse(ms[i])
  {
    seq(|ms|, i requires 0 <= i < |ms| => Parse(ms[i]))
  }

  lemma ParseOneMore(ms: seq<string>, i: nat)
    requires i < |ms|
    ensures ParseAll(ms[..i + 1]) == ParseAll(ms[..i]) + [Parse(ms[i])]
    ensures SetOf(ParseAll(ms[..i + 1])) == SetOf(ParseAll(ms[..i])) + {Parse(ms[i])}
    ensures ParseAll(ms[..i + 1])[..i] == ParseAll(ms[..i])
  {
  }

  /** A registry without the devices and hashes of the given triples. */
  function Forget(r: Registry, ts: set<(string, string, string)>): Registry {
    Registry(r.nodeUsers, r.userDevices - ts, r.nodeField - (set t | t in ts :: (t.1, t.2)), r.inactive - (set t | t in ts :: (t.1, t.2)))
  }

  /** services/session/index.js:189-195: one device leaves the user's set and loses its hash. */
  function ForgetOne(r: Registry, t: (string, string, string)): Registry {
    Registry(r.nodeUsers, r.userDevices - {t}, r.nodeField - {(t.1, t.2)}, r.inactive - {(t.1, t.2)})
  }

  lemma ForgetOneMore(r: Registry, ts: set<(string, string, string)>, t: (string, string, string))
    ensures Forget(r, ts + {t}) == ForgetOne(Forget(r, ts), t)
  {
    var f, g := Forget(r, ts), Forget(r, ts + {t});
    assert g.userDevices == f.userDevices - {t} && g.nodeField == f.nodeField - {(t.1, t.2)} && g.inactive == f.inactive - {(t.1, t.2)};
  }

  /** A second cleanup of the same node finds no member, changes nothing and reports nobody. */
  lemma CleanupTwice(r: Registry, n: string)
    ensures ClearNode(r, n).Members(n) == {}
    ensures ClearNode(ClearNode(r, n), n) == ClearNode(r, n)
    ensures Reported(ClearNode(r, n).userDevices, ParseAll([])) == []
  {
    var r' := ClearNode(r, n);
    assert ClearNode(r', n).nodeUsers == r'.nodeUsers;
    assert (set m | m in r'.Members(n) :: Parse(m)) == {};
  }

  /** Dead-node cleanup as a whole, on any consistent registry and for any order of the members: exactly
      the node's devices go, and each user left without any device is reported once, nobody else is. */
  lemma CleanupReports(r: Registry, n: string, order: seq<string>, orgOf: string -> string, o: string, u: string)
    requires Inv(r, orgOf) && ColonFreeOn(r, n)
    requires Distinct(order) && forall m :: m in order <==> m in r.Members(n)
    ensures TimesReported(Reported(r.userDevices, ParseAll(order)), o, u) ==
            if (exists d :: (o, u, d) in r.userDevices && r.NodeOf(u, d) == Some(n))
               && (forall d :: (o, u, d) !in ClearNode(r, n).userDevices) then 1 else 0
  {
    var ts := ParseAll(order);
    ClearNodeExact(r, n, orgOf);
    forall i | 0 <= i < |order|
      ensures ts[i] in r.userDevices && r.NodeOf(ts[i].1, ts[i].2) == Some(n) && order[i] == Member(ts[i].0, ts[i].1, ts[i].2)
    {
      assert order[i] in order;
      var o', u', d' := MemberOf(order[i]);
      assert Enlisted(r, n, o', u', d');
      ParseMember(o', u', d');
    }
    forall t | t in r.userDevices && r.NodeOf(t.1, t.2) == Some(n) ensures t in ts {
      var (o', u', d') := t;
      assert (o', u', d') in r.userDevices;
      assert Enlisted(r, n, o', u', d') && Member(o', u', d') in order;
      var i :| 0 <= i < |order| && order[i] == Member(o', u', d');
      ParseMember(o', u', d');
      assert ts[i] == t;
    }
    ReportedOnce(r.userDevices, ts, o, u);
  }

  lemma UntrackOneMore(r: Registry, n: string, o: string, u: string, ds: set<string>, d: string)
    ensures Untrack(UntrackAll(r, n, o, u, ds), n, o, u, d) == UntrackAll(r, n, o, u, ds + {d})
  {
    var a, b := Untrack(UntrackAll(r, n, o, u, ds), n, o, u, d), UntrackAll(r, n, o, u, ds + {d});
    assert a.nodeUsers == b.nodeUsers && a.userDevices == b.userDevices && a.inactive == b.inactive && a.nodeField == b.nodeField;
  }
}
