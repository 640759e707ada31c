/** `PacketManager`: splitting the recipients of a packet into offline users, this node and other nodes,
    and sending it to every connection of the routed users. */
module Delivery {
  import opened Text
  import opened SessionRegistry
  import opened LocalSessions
  import opened ClusterSessions
  import opened ClusterAgreement
  import opened SessionServices

  /** One send on one socket. */
  datatype Copy = Copy(node: string, user: string, socket: Socket, deviceId: string)

  /** Where a packet comes from and how it is to be delivered. */
  datatype Request = Request(here: string, isStandAlone: bool, org: string, sender: Option<Socket>, ignoreSelf: bool, dest: seq<string>)

  /** The node a user's packet is handed to for one of the user's devices (packet_manager.js:128-142). */
  function Route(q: Request, x: Extra): Option<string> {
    if x.node.Some? && q.isStandAlone then Some(q.here) else x.node
  }

  predicate RoutedTo(q: Request, data: map<string, Extra>, n: string) {
    exists d :: d in data && Route(q, data[d]) == Some(n)
  }

  /** The device id left out on the sender's node (packet_manager.js:72-76,103). */
  function ExceptDevice(q: Request, l: Local): Option<string> {
    if q.ignoreSelf && q.sender.Some? then
      var s := q.sender.value;
      DeviceOf(l, s, if s in l.sessions then l.sessions[s].user else "undefined")
    else None
  }

  function DataOf(sys: System, q: Request, u: string): map<string, Extra>
    requires q.here in sys.locals
  {
    UserData(sys.registry, sys.locals[q.here], q.isStandAlone, q.org, u)
  }

  /** The copies made on a node for one user: one per non-HTTP connection, without the excepted device. */
  ghost predicate CopyOf(cs: seq<Connection>, n: string, u: string, except: Option<string>, copy: Copy) {
    && copy.node == n && copy.user == u
    && exists c :: c in cs && c.deviceId != HTTP_DEVICE_ID && Some(c.deviceId) != except
         && copy.socket == c.socket && copy.deviceId == c.deviceId
  }

  /** Exactly which copies a delivery makes. */
  ghost predicate Wanted(sys: System, q: Request, copy: Copy)
    requires q.here in sys.locals
  {
    && copy.user in q.dest
    && RoutedTo(q, DataOf(sys, q, copy.user), copy.node)
    && copy.node in sys.locals
    && CopyOf(sys.locals[copy.node].Connections(copy.user), copy.node, copy.user, None, copy)
    && !Ignored(sys, q, copy.node, copy.deviceId)
  }

  /** Position i of a list is its first connection of the socket. */
  predicate FirstOf(cs: seq<Connection>, s: Socket, i: nat) {
    i < |cs| && cs[i].socket == s && forall j :: 0 <= j < i ==> cs[j].socket != s
  }

  /** The list a sender's device is looked up in: that of the session's user; a socket without a session looks
      under the key "undefined". */
  function SendersList(l: Local, s: Socket): seq<Connection> {
    l.Connections(if s in l.sessions then l.sessions[s].user else "undefined")
  }

  /** The device left out, on the sender's node and for whomever: the one the sending socket is listed with. */
  ghost predicate Ignored(sys: System, q: Request, n: string, d: string)
    requires q.here in sys.locals
  {
    && n == q.here && q.ignoreSelf && q.sender.Some?
    && exists i: nat :: FirstOf(SendersList(sys.locals[n], q.sender.value), q.sender.value, i)
                        && SendersList(sys.locals[n], q.sender.value)[i].deviceId == d
  }

  /** The device id the code looks up is the ignored one. */
  lemma ExceptIsIgnored(sys: System, q: Request, d: string)
    requires q.here in sys.locals
    ensures ExceptDevice(q, sys.locals[q.here]) == Some(d) <==> Ignored(sys, q, q.here, d)
  {
    if q.ignoreSelf && q.sender.Some? {
      FindSocketFirst(SendersList(sys.locals[q.here], q.sender.value), q.sender.value);
    }
  }

  lemma {:induction false} FindSocketFirst(cs: seq<Connection>, s: Socket)
    ensures FindSocket(cs, s).Some? ==> exists i: nat :: FirstOf(cs, s, i)
    ensures forall i: nat :: FirstOf(cs, s, i) ==> FindSocket(cs, s) == Some(cs[i])
  {
    if cs != [] {
      FindSocketFirst(cs[1..], s);
      if cs[0].socket == s {
        assert FirstOf(cs, s, 0);
      } else {
        forall i: nat | FirstOf(cs, s, i) ensures FindSocket(cs, s) == Some(cs[i]) {
          assert FirstOf(cs[1..], s, i - 1);
        }
        if FindSocket(cs, s).Some? {
          var i: nat :| FirstOf(cs[1..], s, i);
          assert FirstOf(cs, s, i + 1);
        }
      }
    }
  }

  predicate Offline(sys: System, q: Request, u: string)
    requires q.here in sys.locals
  {
    DataOf(sys, q, u) == map[]
  }

  predicate SomeInactive(sys: System, q: Request, u: string)
    requires q.here in sys.locals
  {
    exists d :: d in DataOf(sys, q, u) && DataOf(sys, q, u)[d].inactive
  }

  method DeliverToUserOnThisNode(l: Local, n: string, u: string, except: Option<string>) returns (sent: seq<Copy>)
    requires Tables(l)
    ensures Distinct(sent)
    ensures forall copy :: copy in sent <==> CopyOf(l.Connections(u), n, u, except, copy)
  {
    var cs := l.Connections(u);
    sent := [];
    for i := 0 to |cs|
      invariant Distinct(sent)
      invariant forall copy :: copy in sent <==> CopyOf(cs[..i], n, u, except, copy)
    {
      assert cs[..i + 1] == cs[..i] + [cs[i]];
      if cs[i].deviceId != HTTP_DEVICE_ID && Some(cs[i].deviceId) != except {
        var copy := Copy(n, u, cs[i].socket, cs[i].deviceId);
        assert CopyOf(cs[..i + 1], n, u, except, copy) by {
          assert cs[i] in cs[..i + 1];
        }
        DistinctConcat(sent, [copy]);
        sent := sent + [copy];
      }
    }
    assert cs[..|cs|] == cs;
  }

  /** Adds the user to this node's recipients, or to those of the nodes that hold the user's other devices. */
  method ReduceUserNodeConnections(q: Request, u: string, data: map<string, Extra>, current0: set<string>,
                                   others0: set<(string, string)>)
    returns (current: set<string>, others: set<(string, string)>)
    ensures forall v :: v in current <==> v in current0 || (v == u && RoutedTo(q, data, q.here))
    ensures forall p :: p in others <==> p in others0 || (p.1 == u && p.0 != q.here && RoutedTo(q, data, p.0))
  {
    current, others := current0, others0;
    var order := SMembers(data.Keys);
    for i := 0 to |order|
      invariant forall v :: v in current <==> v in current0 || (v == u && RoutedBy(q, data, order[..i], q.here))
      invariant forall p :: p in others <==> p in others0 || (p.1 == u && p.0 != q.here && RoutedBy(q, data, order[..i], p.0))
    {
      assert order[..i + 1] == order[..i] + [order[i]] && order[i] in order;
      var node := data[order[i]].node;
      if node == None {
        continue;
      }
      if node.value == q.here || q.isStandAlone {
        current := current + {u};
        continue;
      }
      others := others + {(node.value, u)};
    }
    assert order[..|order|] == order;
  }

  /** Routing by some of the user's devices only. */
  ghost predicate RoutedBy(q: Request, data: map<string, Extra>, ds: seq<string>, n: string) {
    exists d :: d in ds && d in data && Route(q, data[d]) == Some(n)
  }

  /** Makes every wanted copy once, whatever duplicates the destination list holds; lists the users to
      notify by push, and those whose packet goes to offline storage. */
  method DeliverToUserOrUsers(sys: System, q: Request, notSaveInOfflineStorage: bool)
    returns (sent: seq<Copy>, offline: seq<string>, saved: seq<string>)
    requires q.here in sys.locals
    requires forall n :: n in sys.locals ==> Tables(sys.locals[n])
    ensures Distinct(sent)
    ensures forall copy :: copy in sent <==> Wanted(sys, q, copy)
    ensures forall u :: u in offline <==> u in q.dest && (Offline(sys, q, u) || SomeInactive(sys, q, u))
    ensures forall u :: u in saved <==> u in q.dest && Offline(sys, q, u) && !notSaveInOfflineStorage
  {
    sent, offline, saved := [], [], [];
    var current: set<string>, others: set<(string, string)> := {}, {};
    for i := 0 to |q.dest|
      invariant forall v :: v in current <==> v in q.dest[..i] && RoutedTo(q, DataOf(sys, q, v), q.here)
      invariant forall p :: p in others <==> p.1 in q.dest[..i] && p.0 != q.here && RoutedTo(q, DataOf(sys, q, p.1), p.0)
      invariant forall u :: u in offline <==> u in q.dest[..i] && (Offline(sys, q, u) || SomeInactive(sys, q, u))
      invariant forall u :: u in saved <==> u in q.dest[..i] && Offline(sys, q, u) && !notSaveInOfflineStorage
    {
      var u := q.dest[i];
      assert q.dest[..i + 1] == q.dest[..i] + [u];
      var data := DataOf(sys, q, u);
      var isOffline := data == map[];
      var isInactive := exists d :: d in data && data[d].inactive;
      if isOffline && !notSaveInOfflineStorage {
        saved := saved + [u];
      }
      if isOffline || isInactive {
        offline := offline + [u];
      }
      if isOffline {
        continue;
      }
      current, others := ReduceUserNodeConnections(q, u, data, current, others);
    }
    assert q.dest[..|q.dest|] == q.dest;
    sent := SendAll(sys, q, current, others);
    forall copy ensures copy in sent <==> Wanted(sys, q, copy) {
      ExceptIsIgnored(sys, q, copy.deviceId);
    }
  }

  method SendAll(sys: System, q: Request, current: set<string>, others: set<(string, string)>) returns (sent: seq<Copy>)
    requires q.here in sys.locals
    requires forall n :: n in sys.locals ==> Tables(sys.locals[n])
    requires forall p :: p in others ==> p.0 != q.here
    ensures Distinct(sent)
    ensures forall copy :: copy in sent <==>
              || (copy.user in current
                  && CopyOf(sys.locals[q.here].Connections(copy.user), q.here, copy.user, ExceptDevice(q, sys.locals[q.here]), copy))
              || ((copy.node, copy.user) in others && copy.node in sys.locals
                  && CopyOf(sys.locals[copy.node].Connections(copy.user), copy.node, copy.user, None, copy))
  {
    sent := [];
    var except := ExceptDevice(q, sys.locals[q.here]);
    var left := current;
    while left != {}
      invariant left <= current
      invariant Distinct(sent)
      invariant forall copy :: copy in sent <==>
        copy.user in current - left && CopyOf(sys.locals[q.here].Connections(copy.user), q.here, copy.user, except, copy)
    {
      var u :| u in left;
      var copies := DeliverToUserOnThisNode(sys.locals[q.here], q.here, u, except);
      DistinctConcat(sent, copies);
      sent := sent + copies;
      left := left - {u};
    }
    ghost var local := sent;
    var pairs := others;
    while pairs != {}
      invariant pairs <= others
      invariant Distinct(sent)
      invariant forall copy :: copy in sent <==>
        || copy in local
        || ((copy.node, copy.user) in others - pairs && copy.node in sys.locals
            && CopyOf(sys.locals[copy.node].Connections(copy.user), copy.node, copy.user, None, copy))
    {
      var p :| p in pairs;
      if p.0 in sys.locals {
        var copies := DeliverToUserOnThisNode(sys.locals[p.0], p.0, p.1, None);
        assert forall copy :: copy in copies ==> (copy.node, copy.user) == p;
        DistinctConcat(sent, copies);
        sent := sent + copies;
      }
      pairs := pairs - {p};
    }
  }

  // ---- the guarantee ----

  /** What the method promises about the copies it made. */
  ghost predicate Delivered(sys: System, q: Request, sent: seq<Copy>)
    requires q.here in sys.locals
  {
    Distinct(sent) && forall copy :: copy in sent <==> Wanted(sys, q, copy)
  }

  /** The copies for one device of one user on one node. */
  ghost predicate Reaches(sent: seq<Copy>, n: string, u: string, d: string) {
    exists i :: 0 <= i < |sent| && sent[i].node == n && sent[i].user == u && sent[i].deviceId == d
  }

  /** A user's device on a node gets at most one copy. */
  lemma AtMostOnce(sys: System, q: Request, sent: seq<Copy>, i: nat, j: nat)
    requires q.here in sys.locals && Delivered(sys, q, sent)
    requires forall n :: n in sys.locals ==> Tables(sys.locals[n])
    requires i < |sent| && j < |sent|
    requires sent[i].node == sent[j].node && sent[i].user == sent[j].user && sent[i].deviceId == sent[j].deviceId
    ensures i == j
  {
    assert Wanted(sys, q, sent[i]) && Wanted(sys, q, sent[j]) by {
      assert sent[i] in sent && sent[j] in sent;
    }
    DistinctByValue(sys.locals[sent[i].node].Connections(sent[i].user));
    assert sent[i] == sent[j];
  }

  lemma RoutedOwner(sys: System, q: Request, u: string, n: string, orgOf: string -> string)
    requires q.here in sys.locals && !q.isStandAlone && Listing(sys.registry, orgOf) && q.org == orgOf(u)
    ensures RoutedTo(q, DataOf(sys, q, u), n) <==> exists d :: sys.registry.NodeOf(u, d) == Some(n)
  {
    var data := DataOf(sys, q, u);
    forall d ensures d in data <==> (u, d) in sys.registry.nodeField {
      assert (q.org, u, d) in sys.registry.userDevices <==> d in sys.registry.Devices(q.org, u);
    }
    if d :| sys.registry.NodeOf(u, d) == Some(n) {
      assert d in data && Route(q, data[d]) == Some(n);
    }
  }

  /** In any state at all: a device on a node is reached exactly when its user is a destination routed to that
      node, the node is up and holds the device, and it is neither an HTTP request nor the ignored device. */
  lemma ReachedIff(sys: System, q: Request, sent: seq<Copy>, n: string, u: string, d: string)
    requires q.here in sys.locals && Delivered(sys, q, sent)
    ensures Reaches(sent, n, u, d) <==>
      && u in q.dest && RoutedTo(q, DataOf(sys, q, u), n) && n in sys.locals
      && d in sys.locals[n].Connected(u) && d != HTTP_DEVICE_ID && !Ignored(sys, q, n, d)
  {
    if && u in q.dest && RoutedTo(q, DataOf(sys, q, u), n) && n in sys.locals
       && d in sys.locals[n].Connected(u) && d != HTTP_DEVICE_ID && !Ignored(sys, q, n, d) {
      var c :| c in sys.locals[n].Connections(u) && c.deviceId == d;
      var copy := Copy(n, u, c.socket, d);
      assert Wanted(sys, q, copy);
      assert copy in sent;
    }
    if Reaches(sent, n, u, d) {
      var i :| 0 <= i < |sent| && sent[i].node == n && sent[i].user == u && sent[i].deviceId == d;
      assert sent[i] in sent && Wanted(sys, q, sent[i]);
    }
  }

  /** In every state of a run with grounded stores, logins under way included: a destination user's registered
      device, on a node that is up, is reached unless it is the ignored one, a login has still to drop it, or it
      carries the id reserved for HTTP requests. */
  lemma RegisteredReached(sys: System, q: Request, sent: seq<Copy>, u: string, d: string, n: string,
                          orgOf: string -> string)
    requires SystemInv(sys, orgOf) && q.here in sys.locals && !q.isStandAlone && q.org == orgOf(u)
    requires Delivered(sys, q, sent)
    requires u in q.dest && sys.registry.NodeOf(u, d) == Some(n) && n in sys.locals && !Ignored(sys, q, n, d)
    requires Place(n, u, d) !in sys.leaving
    ensures Reaches(sent, n, u, d) <==> d != HTTP_DEVICE_ID
  {
    RoutedOwner(sys, q, u, n, orgOf);
    assert (u, d) in sys.registry.nodeField && AnchoredAt(sys, u, d);
    ReachedIff(sys, q, sent, n, u, d);
  }

  /** When registry and tables agree, a device that is not in the middle of a login on that node is reached there
      exactly when a copy is due. */
  lemma ExactlyOnce(sys: System, q: Request, sent: seq<Copy>, n: string, u: string, d: string, orgOf: string -> string)
    requires SystemInv(sys, orgOf) && Agree(sys) && q.here in sys.locals && !q.isStandAlone && q.org == orgOf(u)
    requires Delivered(sys, q, sent) && Settled(sys, n, u, d)
    ensures Reaches(sent, n, u, d) <==> Due(sys, q, n, u, d)
  {
    ReachedIff(sys, q, sent, n, u, d);
    RoutedOwner(sys, q, u, n, orgOf);
    assert AgreeAt(sys, n, u, d);
  }

  /** A copy is due: the user is a destination, the node is up and owns the device, which is neither ignored nor an
      HTTP request. */
  ghost predicate Due(sys: System, q: Request, n: string, u: string, d: string)
    requires q.here in sys.locals
  {
    && u in q.dest && sys.registry.NodeOf(u, d) == Some(n) && n in sys.locals
    && d != HTTP_DEVICE_ID && !Ignored(sys, q, n, d)
  }

  /** No device of the user gets two copies. */
  ghost predicate OneCopy(sent: seq<Copy>, u: string, d: string) {
    forall i, j :: 0 <= i < |sent| && 0 <= j < |sent| && CopyFor(sent[i], u, d) && CopyFor(sent[j], u, d) ==> i == j
  }

  predicate CopyFor(copy: Copy, u: string, d: string) {
    copy.user == u && copy.deviceId == d
  }

  /** A device that no login is busy with gets no second copy on any node. */
  lemma NoSecondCopy(sys: System, q: Request, sent: seq<Copy>, i: nat, j: nat, orgOf: string -> string)
    requires SystemInv(sys, orgOf) && Agree(sys) && q.here in sys.locals && !q.isStandAlone && Delivered(sys, q, sent)
    requires i < |sent| && j < |sent| && sent[i].user == sent[j].user && sent[i].deviceId == sent[j].deviceId
    requires q.org == orgOf(sent[i].user) && forall n :: Settled(sys, n, sent[i].user, sent[i].deviceId)
    ensures i == j
  {
    var u, d := sent[i].user, sent[i].deviceId;
    ExactlyOnce(sys, q, sent, sent[i].node, u, d, orgOf);
    ExactlyOnce(sys, q, sent, sent[j].node, u, d, orgOf);
    assert Reaches(sent, sent[i].node, u, d) && Reaches(sent, sent[j].node, u, d);
    forall n | n in sys.locals ensures Tables(sys.locals[n]) {
      assert TablesOk(sys.locals[n], orgOf);
    }
    AtMostOnce(sys, q, sent, i, j);
  }

  /** From an empty cluster, after any run of harmless calls, interleaved logins, crashes and restarts included, with
      cleanups that meet only colon-free device ids and any device ids otherwise: every destination user's device
      that is registered on a live node and not in the middle of a login gets exactly one copy across all nodes. */
  lemma ExactlyOnceInRuns(es: seq<Step>, q: Request, sent: seq<Copy>, orgOf: string -> string, n: string, u: string,
                          d: string)
    requires (forall e :: e in es ==> Legal(e, orgOf)) && ParsesThroughout(START, es, orgOf) && HarmlessRun(START, es, orgOf)
    requires q.here in Run(START, es, orgOf).locals && Delivered(Run(START, es, orgOf), q, sent)
    requires !q.isStandAlone && q.org == orgOf(u) && forall m :: Settled(Run(START, es, orgOf), m, u, d)
    ensures Reaches(sent, n, u, d) <==> Due(Run(START, es, orgOf), q, n, u, d)
    ensures OneCopy(sent, u, d)
  {
    var sys := Run(START, es, orgOf);
    StartAgrees(orgOf);
    RunAgreesIff(START, es, orgOf);
    ExactlyOnce(sys, q, sent, n, u, d, orgOf);
    forall i, j | 0 <= i < |sent| && 0 <= j < |sent| && CopyFor(sent[i], u, d) && CopyFor(sent[j], u, d) ensures i == j
    {
      NoSecondCopy(sys, q, sent, i, j, orgOf);
    }
  }

  /** A destination user is offline, or is routed to a node that owns one of the user's devices. */
  lemma NobodyForgotten(sys: System, q: Request, u: string, orgOf: string -> string)
    requires Inv(sys.registry, orgOf) && q.here in sys.locals && !q.isStandAlone && q.org == orgOf(u)
    ensures Offline(sys, q, u) <==> forall d :: sys.registry.NodeOf(u, d) == None
    ensures !Offline(sys, q, u) <==> exists n :: RoutedTo(q, DataOf(sys, q, u), n)
  {
    var data := DataOf(sys, q, u);
    forall d ensures d in data <==> sys.registry.NodeOf(u, d).Some? {
      assert (q.org, u, d) in sys.registry.userDevices <==> d in sys.registry.Devices(q.org, u);
    }
    if !Offline(sys, q, u) {
      var d :| d in data;
      assert RoutedTo(q, data, sys.registry.NodeOf(u, d).value);
    }
  }

  // ---- the sender's own device ----

  /** With `ignoreSelf` nothing goes to the device the sending socket is connected with, for any user, on its node. */
  lemma SenderLeftOut(sys: System, q: Request, sent: seq<Copy>, s: Socket, c: Connection, u: string)
    requires q.here in sys.locals && Delivered(sys, q, sent) && Tables(sys.locals[q.here])
    requires q.ignoreSelf && q.sender == Some(s) && s in sys.locals[q.here].sessions
    requires c in sys.locals[q.here].Connections(sys.locals[q.here].sessions[s].user) && c.socket == s
    ensures !Reaches(sent, q.here, u, c.deviceId)
  {
    ReachedIff(sys, q, sent, q.here, u, c.deviceId);
    ListedIsIgnored(sys, q, s, c);
  }

  lemma ListedIsIgnored(sys: System, q: Request, s: Socket, c: Connection)
    requires q.here in sys.locals && Tables(sys.locals[q.here])
    requires q.ignoreSelf && q.sender == Some(s) && s in sys.locals[q.here].sessions
    requires c in sys.locals[q.here].Connections(sys.locals[q.here].sessions[s].user) && c.socket == s
    ensures Ignored(sys, q, q.here, c.deviceId)
  {
    var cs := SendersList(sys.locals[q.here], s);
    var i: nat :| i < |cs| && cs[i] == c;
    assert FirstOf(cs, s, i);
  }

  /** Nor does the sending socket get a copy at all, when listed sockets have sessions of their users. */
  lemma SenderHearsNothing(sys: System, q: Request, sent: seq<Copy>, s: Socket, copy: Copy)
    requires q.here in sys.locals && Delivered(sys, q, sent) && Tables(sys.locals[q.here]) && Backed(sys.locals[q.here])
    requires q.ignoreSelf && q.sender == Some(s) && copy in sent && copy.node == q.here
    ensures copy.socket != s
  {
    var l := sys.locals[q.here];
    assert Wanted(sys, q, copy);
    var c :| c in l.Connections(copy.user) && copy.socket == c.socket && copy.deviceId == c.deviceId;
    if c.socket == s {
      ListedIsIgnored(sys, q, s, c);
    }
  }

  /** Without `ignoreSelf`, or without a sending socket, nobody is left out on this node either. */
  lemma SelfReached(sys: System, q: Request, sent: seq<Copy>, u: string, d: string, orgOf: string -> string)
    requires SystemInv(sys, orgOf) && Agree(sys) && q.here in sys.locals && !q.isStandAlone && q.org == orgOf(u)
    requires Delivered(sys, q, sent) && Settled(sys, q.here, u, d) && (!q.ignoreSelf || q.sender == None)
    ensures Reaches(sent, q.here, u, d) <==> u in q.dest && d in sys.locals[q.here].Connected(u) && d != HTTP_DEVICE_ID
  {
    ExactlyOnce(sys, q, sent, q.here, u, d, orgOf);
    assert AgreeAt(sys, q.here, u, d);
  }

  // ---- whom a push notifies ----

  /** In a cluster a destination user is notified by push if and only if no device of the user has an owner, or one
      that has an owner is marked inactive. */
  lemma PushedIff(sys: System, q: Request, u: string, orgOf: string -> string)
    requires q.here in sys.locals && !q.isStandAlone && Listing(sys.registry, orgOf) && q.org == orgOf(u)
    ensures Offline(sys, q, u) || SomeInactive(sys, q, u) <==>
            || (forall d :: sys.registry.NodeOf(u, d) == None)
            || exists d :: sys.registry.NodeOf(u, d).Some? && (u, d) in sys.registry.inactive
  {
    var data := DataOf(sys, q, u);
    forall d ensures d in data <==> sys.registry.NodeOf(u, d).Some? {
      assert (q.org, u, d) in sys.registry.userDevices <==> d in sys.registry.Devices(q.org, u);
    }
    forall d | d in data ensures data[d].inactive <==> (u, d) in sys.registry.inactive {}
    if Offline(sys, q, u) {
      forall d ensures sys.registry.NodeOf(u, d) == None {
        assert d !in data;
      }
    } else {
      var d :| d in data;
      assert sys.registry.NodeOf(u, d).Some?;
    }
  }

  /** On a stand-alone node, if and only if the user has no connection but HTTP requests, or one whose session is
      inactive. */
  lemma PushedAlone(sys: System, q: Request, u: string)
    requires q.here in sys.locals && q.isStandAlone && Tables(sys.locals[q.here]) && Backed(sys.locals[q.here])
    ensures Offline(sys, q, u) <==> forall c :: c in sys.locals[q.here].Connections(u) ==> c.deviceId == HTTP_DEVICE_ID
    ensures var l := sys.locals[q.here];
      Offline(sys, q, u) || SomeInactive(sys, q, u) <==>
        || (forall c :: c in l.Connections(u) ==> c.deviceId == HTTP_DEVICE_ID)
        || exists c :: c in l.Connections(u) && c.deviceId != HTTP_DEVICE_ID && l.sessions[c.socket].inactive
  {
    var l := sys.locals[q.here];
    var cs, data := l.Connections(u), DataOf(sys, q, u);
    LocalDataExact(l, cs);
    forall d ensures d in data <==> d != HTTP_DEVICE_ID && exists c :: c in cs && c.deviceId == d {
      LocalDataDevices(l, cs, d);
    }
    if Offline(sys, q, u) {
      forall c | c in cs ensures c.deviceId == HTTP_DEVICE_ID {
        assert c.deviceId !in data;
      }
    } else {
      var d :| d in data;
      var c :| c in cs && c.deviceId == d;
      assert c.deviceId != HTTP_DEVICE_ID;
    }
    if d :| d in data && data[d].inactive {
      var c :| c in cs && c.deviceId == d;
      assert l.sessions[c.socket].inactive;
    }
    if c :| c in cs && c.deviceId != HTTP_DEVICE_ID && l.sessions[c.socket].inactive {
      assert c.deviceId in data && data[c.deviceId].inactive;
    }
  }

  /** What a stand-alone node says about each of its own connections. */
  lemma {:induction false} LocalDataExact(l: Local, cs: seq<Connection>)
    requires DistinctConnections(cs) && forall c :: c in cs ==> c.socket in l.sessions
    ensures forall c :: c in cs && c.deviceId != HTTP_DEVICE_ID ==>
      c.deviceId in LocalData(l, cs)
      && LocalData(l, cs)[c.deviceId] == Extra(l.sessions[c.socket].node, l.sessions[c.socket].inactive)
  {
    if cs != [] {
      var front, last := cs[..|cs| - 1], cs[|cs| - 1];
      assert cs == front + [last];
      LocalDataExact(l, front);
      DistinctByValue(cs);
      assert forall c :: c in front ==> c.deviceId != last.deviceId;
    }
  }

  // ---- a stand-alone node ----

  lemma {:induction false} LocalDataDevices(l: Local, cs: seq<Connection>, d: string)
    requires forall c :: c in cs ==> c.socket in l.sessions
    ensures d in LocalData(l, cs) <==> d != HTTP_DEVICE_ID && exists c :: c in cs && c.deviceId == d
    ensures d in LocalData(l, cs) ==> exists c :: c in cs && c.deviceId == d && LocalData(l, cs)[d].node == l.sessions[c.socket].node
  {
    if cs != [] {
      var front, last := cs[..|cs| - 1], cs[|cs| - 1];
      assert cs == front + [last];
      LocalDataDevices(l, front, d);
    }
  }

  /** On a stand-alone node whose listed sockets have sessions and whose logged-in sockets carry the node's
      endpoint, every non-HTTP connection of every destination user is reached, except the ignored device. */
  lemma StandAloneReached(sys: System, q: Request, sent: seq<Copy>, u: string, d: string)
    requires q.here in sys.locals && q.isStandAlone && Delivered(sys, q, sent)
    requires Backed(sys.locals[q.here])
    requires forall c :: c in sys.locals[q.here].Connections(u) && c.deviceId != HTTP_DEVICE_ID ==>
      sys.locals[q.here].sessions[c.socket].node.Some?
    ensures Reaches(sent, q.here, u, d) <==>
            u in q.dest && d in sys.locals[q.here].Connected(u) && d != HTTP_DEVICE_ID && !Ignored(sys, q, q.here, d)
  {
    var l := sys.locals[q.here];
    ReachedIff(sys, q, sent, q.here, u, d);
    LocalDataDevices(l, l.Connections(u), d);
    if d in l.Connected(u) && d != HTTP_DEVICE_ID {
      assert d in DataOf(sys, q, u) && RoutedTo(q, DataOf(sys, q, u), q.here);
    }
  }
}
