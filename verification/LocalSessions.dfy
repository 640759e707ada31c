/** The two tables a node keeps in memory: SESSIONS (socket -> session) and DEVICES (user -> connections). */
module LocalSessions {
  import opened Text

  type Socket = nat

  datatype Connection = Connection(socket: Socket, deviceId: string, org: string)

  /** `extraParams` holds DEVICE_ID, and NODE_ENDPOINT and MOBILE_INACTIVE once set. */
  datatype Session = Session(org: string, user: string, deviceId: string, node: Option<string>, inactive: bool)

  datatype Local = Local(sessions: map<Socket, Session>, devices: map<string, seq<Connection>>)
  {
    /** `getUserDevices` */
    function Connections(u: string): seq<Connection> {
      if u in devices then devices[u] else []
    }

    /** The device ids this node holds a connection for. */
    function Connected(u: string): (s: set<string>)
      ensures forall d :: d in s <==> exists c :: c in Connections(u) && c.deviceId == d
    {
      set c | c in Connections(u) :: c.deviceId
    }
  }

  const NOBODY := Local(map[], map[])

  /** `find` by socket: the first match. */
  function FindSocket(cs: seq<Connection>, s: Socket): (r: Option<Connection>)
    ensures r == None <==> forall c :: c in cs ==> c.socket != s
    ensures r.Some? ==> r.value in cs && r.value.socket == s
  {
    if cs == [] then None else if cs[0].socket == s then Some(cs[0]) else FindSocket(cs[1..], s)
  }

  /** `find` by device id: the first match. */
  function FindDevice(cs: seq<Connection>, d: string): (r: Option<Connection>)
    ensures r == None <==> forall c :: c in cs ==> c.deviceId != d
    ensures r.Some? ==> r.value in cs && r.value.deviceId == d
  {
    if cs == [] then None else if cs[0].deviceId == d then Some(cs[0]) else FindDevice(cs[1..], d)
  }

  /** `getDeviceId` */
  function DeviceOf(l: Local, s: Socket, u: string): Option<string> {
    match FindSocket(l.Connections(u), s) case Some(c) => Some(c.deviceId) case None => None
  }

  /** Connections that are neither of two given ones (services/session/index.js:28-30). */
  function Except(cs: seq<Connection>, a: Option<Connection>, b: Option<Connection>): (r: seq<Connection>)
    ensures forall c :: c in r <==> c in cs && Some(c) != a && Some(c) != b
  {
    if cs == [] then []
    else
      var last := cs[|cs| - 1];
      Except(cs[..|cs| - 1], a, b) + if Some(last) != a && Some(last) != b then [last] else []
  }

  /** Connections whose device id is not the given one; no device id excludes nothing (services/session/index.js:434). */
  function WithoutDevice(cs: seq<Connection>, d: Option<string>): (r: seq<Connection>)
    ensures forall c :: c in r <==> c in cs && Some(c.deviceId) != d
  {
    if cs == [] then []
    else
      var last := cs[|cs| - 1];
      WithoutDevice(cs[..|cs| - 1], d) + if Some(last.deviceId) != d then [last] else []
  }

  /** services/session/index.js:22-39: the connection of the same socket and the one of the same device give way to the new one. */
  function Add(l: Local, s: Socket, o: string, u: string, d: string): Local {
    var cs := l.Connections(u);
    Local(l.sessions[s := Session(o, u, d, None, false)],
          l.devices[u := Except(cs, FindSocket(cs, s), FindDevice(cs, d)) + [Connection(s, d, o)]])
  }

  /** services/session/index.js:434-443: the user's connections of that device go, and the socket's session. */
  function Remove(l: Local, s: Socket, u: string, d: Option<string>): Local {
    var left := WithoutDevice(l.Connections(u), d);
    Local(l.sessions - {s}, if left == [] then l.devices - {u} else l.devices[u := left])
  }

  /** services/session/index.js:397-398 */
  function RemoveUserConnections(l: Local, s: Socket, u: string): Local {
    Local(l.sessions - {s}, l.devices - {u})
  }

  /** services/session/index.js:292-295 */
  function SetNode(l: Local, s: Socket, n: string): Local {
    if s in l.sessions then l.(sessions := l.sessions[s := l.sessions[s].(node := Some(n))]) else l
  }

  /** services/session/index.js:353,358 */
  function SetInactive(l: Local, s: Socket, isInactive: bool): Local {
    if s in l.sessions then l.(sessions := l.sessions[s := l.sessions[s].(inactive := isInactive)]) else l
  }

  // ---- invariants ----

  ghost predicate DistinctConnections(cs: seq<Connection>) {
    forall i, j :: 0 <= i < j < |cs| ==> cs[i].socket != cs[j].socket && cs[i].deviceId != cs[j].deviceId
  }

  /** Each user's list is non-empty and has distinct sockets and distinct device ids. */
  ghost predicate Tables(l: Local) {
    forall u :: u in l.devices ==> l.devices[u] != [] && DistinctConnections(l.devices[u])
  }

  /** Every listed socket has a session of the user it is listed under. */
  ghost predicate Backed(l: Local) {
    forall u, c :: c in l.Connections(u) ==> c.socket in l.sessions && l.sessions[c.socket].user == u
  }

  lemma DistinctByValue(cs: seq<Connection>)
    requires DistinctConnections(cs)
    ensures forall a, b :: a in cs && b in cs && (a.socket == b.socket || a.deviceId == b.deviceId) ==> a == b
  {
  }

  lemma OneMoreConnection(rest: seq<Connection>, c: Connection)
    requires DistinctConnections(rest)
    requires forall x :: x in rest ==> x.socket != c.socket && x.deviceId != c.deviceId
    ensures DistinctConnections(rest + [c])
  {
  }

  lemma ExceptDistinct(cs: seq<Connection>, a: Option<Connection>, b: Option<Connection>)
    requires DistinctConnections(cs)
    ensures DistinctConnections(Except(cs, a, b))
  {
    if cs != [] {
      var front := cs[..|cs| - 1];
      ExceptDistinct(front, a, b);
      assert forall x :: x in front ==> x.socket != cs[|cs| - 1].socket && x.deviceId != cs[|cs| - 1].deviceId;
      OneMoreConnection(Except(front, a, b), cs[|cs| - 1]);
    }
  }

  lemma WithoutDeviceDistinct(cs: seq<Connection>, d: Option<string>)
    requires DistinctConnections(cs)
    ensures DistinctConnections(WithoutDevice(cs, d))
  {
    if cs != [] {
      var front := cs[..|cs| - 1];
      WithoutDeviceDistinct(front, d);
      assert forall x :: x in front ==> x.socket != cs[|cs| - 1].socket && x.deviceId != cs[|cs| - 1].deviceId;
      OneMoreConnection(WithoutDevice(front, d), cs[|cs| - 1]);
    }
  }

  /** What the list holds after a connection is added: everything of other sockets and other devices, and the new one. */
  lemma AddContents(l: Local, s: Socket, o: string, u: string, d: string)
    requires Tables(l)
    ensures Tables(Add(l, s, o, u, d))
    ensures forall c :: c in Add(l, s, o, u, d).Connections(u) <==>
              c == Connection(s, d, o) || (c in l.Connections(u) && c.socket != s && c.deviceId != d)
    ensures forall v :: v != u ==> Add(l, s, o, u, d).Connections(v) == l.Connections(v)
  {
    var cs := l.Connections(u);
    DistinctByValue(cs);
    ExceptDistinct(cs, FindSocket(cs, s), FindDevice(cs, d));
  }

  /** The socket's session after an add is a fresh one of the user, active and on no node yet; nobody else's changes. */
  lemma AddSession(l: Local, s: Socket, o: string, u: string, d: string, t: Socket)
    ensures var l' := Add(l, s, o, u, d);
      && (t in l'.sessions <==> t == s || t in l.sessions)
      && (t != s && t in l.sessions ==> l'.sessions[t] == l.sessions[t])
      && l'.sessions[s].user == u && l'.sessions[s].org == o && !l'.sessions[s].inactive && l'.sessions[s].node == None
  {
  }

  lemma RemoveTables(l: Local, s: Socket, u: string, d: Option<string>)
    requires Tables(l)
    ensures Tables(Remove(l, s, u, d))
    ensures forall c :: c in Remove(l, s, u, d).Connections(u) <==> c in l.Connections(u) && Some(c.deviceId) != d
    ensures forall v :: v != u ==> Remove(l, s, u, d).Connections(v) == l.Connections(v)
  {
    WithoutDeviceDistinct(l.Connections(u), d);
  }

  /** Closing a socket takes away its own connection and no other one: the connection that superseded
      it, listed under the same device, stays. */
  lemma RemoveOwnOnly(l: Local, s: Socket, u: string)
    requires Tables(l)
    ensures forall c :: c in Remove(l, s, u, DeviceOf(l, s, u)).Connections(u) <==> c in l.Connections(u) && c.socket != s
  {
    RemoveTables(l, s, u, DeviceOf(l, s, u));
    DistinctByValue(l.Connections(u));
  }

  /** Adding a connection keeps every listed socket backed by a session of its user exactly when the
      socket is not still listed under somebody else. */
  lemma AddBackedIff(l: Local, s: Socket, o: string, u: string, d: string)
    requires Tables(l) && Backed(l)
    ensures Backed(Add(l, s, o, u, d)) <==> forall v, c :: v != u && c in l.Connections(v) ==> c.socket != s
  {
    var l' := Add(l, s, o, u, d);
    AddContents(l, s, o, u, d);
    if v, c :| v != u && c in l.Connections(v) && c.socket == s {
      assert c in l'.Connections(v) && l'.sessions[s].user == u;
    }
  }

  /** A removal that names the socket's own device, under the socket's own user, keeps every listed socket backed. */
  lemma RemoveBacked(l: Local, s: Socket)
    requires Tables(l) && Backed(l) && s in l.sessions
    ensures var u := l.sessions[s].user; Backed(Remove(l, s, u, DeviceOf(l, s, u)))
  {
    var u := l.sessions[s].user;
    var l' := Remove(l, s, u, DeviceOf(l, s, u));
    RemoveOwnOnly(l, s, u);
    RemoveTables(l, s, u, DeviceOf(l, s, u));
    forall v, c | c in l'.Connections(v) ensures c.socket in l'.sessions && l'.sessions[c.socket].user == v {
      assert c in l.Connections(v);
    }
  }

  lemma RemoveUserConnectionsBacked(l: Local, s: Socket)
    requires Tables(l) && Backed(l) && s in l.sessions
    ensures var l' := RemoveUserConnections(l, s, l.sessions[s].user); Tables(l') && Backed(l')
  {
    var u := l.sessions[s].user;
    var l' := RemoveUserConnections(l, s, u);
    forall v, c | c in l'.Connections(v) ensures c.socket in l'.sessions && l'.sessions[c.socket].user == v {
      assert c in l.Connections(v);
    }
  }
}
